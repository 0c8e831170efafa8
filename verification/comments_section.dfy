/**
 The comment-list state of the comments section of an article: one record
 per comment, a loading flag, and the four transitions the component applies
 to them (initial load, delete, like, submit). Every transition is a pure
 function from the old state to the new one; the browser clock, the form
 fields and the article identifier are parameters.
 */
module CommentsSection {
  import opened Wrappers

  /** Identifier of the article the section belongs to. */
  type ArticleId = int

  /** One comment. `currentLikes` is `None` for a record that never had the field. */
  datatype Comment = Comment(
    id: int,
    articleId: ArticleId,
    author: string,
    text: string,
    date: int,
    currentLikes: Option<int>)

  /** The component state: a loading flag and the comment list, in arrival order. */
  datatype State = State(loading: bool, comments: seq<Comment>)

  /** A is a subsequence of B: A is B with some entries dropped and the rest kept in order. */
  predicate Subsequence<T(==)>(a: seq<T>, b: seq<T>)
    decreases |b|
  {
    |a| == 0 ||
    (|b| > 0 && ((a[0] == b[0] && Subsequence(a[1..], b[1..])) || Subsequence(a, b[1..])))
  }

  /** The state of a freshly constructed section: loading, with no comments. */
  function Initial(): (s: State)
    ensures s.loading
    ensures |s.comments| == 0
  {
    State(true, [])
  }

  /** The fetch callback: installs a copy of the fetched list and leaves the loading state. */
  function Load(s: State, fetched: seq<Comment>): (r: State)
    ensures !r.loading
    ensures |r.comments| == |fetched|
    ensures forall i :: 0 <= i < |fetched| ==> r.comments[i] == fetched[i]
  {
    State(false, fetched)
  }

  /** The list filtered to the records whose id is not `id`. */
  function WithoutId(xs: seq<Comment>, id: int): (r: seq<Comment>)
    ensures |r| <= |xs|
    ensures forall c :: c in r <==> c in xs && c.id != id
    ensures forall c :: multiset(r)[c] == (if c.id == id then 0 else multiset(xs)[c])
    ensures Subsequence(r, xs)
    ensures (forall c :: c in xs ==> c.id != id) ==> r == xs
  {
    if |xs| == 0 then []
    else
      assert xs == [xs[0]] + xs[1..];
      if xs[0].id == id then WithoutId(xs[1..], id)
      else [xs[0]] + WithoutId(xs[1..], id)
  }

  /** Deleting a comment: every record carrying `id` goes, the loading flag stays. */
  function Delete(s: State, id: int): (r: State)
    ensures r.loading == s.loading
    ensures |r.comments| <= |s.comments|
    ensures forall c :: c in r.comments ==> c.id != id
    ensures forall c :: c in s.comments && c.id != id ==> c in r.comments
  {
    s.(comments := WithoutId(s.comments, id))
  }

  /** The list with one like added to every record carrying `id`. */
  function LikedAt(xs: seq<Comment>, id: int): (r: seq<Comment>)
    ensures |r| == |xs|
    ensures forall i :: 0 <= i < |xs| ==> r[i].id == xs[i].id
    ensures forall i :: 0 <= i < |xs| && xs[i].id != id ==> r[i] == xs[i]
    ensures forall i :: 0 <= i < |xs| && xs[i].id == id && xs[i].currentLikes.Some? ==>
      r[i] == xs[i].(currentLikes := Some(xs[i].currentLikes.value + 1))
    ensures forall i :: 0 <= i < |xs| && xs[i].currentLikes.None? ==> r[i] == xs[i]
  {
    if |xs| == 0 then []
    else
      var c := xs[0];
      var likes := if c.currentLikes.Some? then Some(c.currentLikes.value + 1) else None;
      var c' := if c.id == id then c.(currentLikes := likes) else c;
      [c'] + LikedAt(xs[1..], id)
  }

  /** Liking a comment: the list keeps its length and order, the loading flag stays. */
  function Like(s: State, id: int): (r: State)
    ensures r.loading == s.loading
    ensures |r.comments| == |s.comments|
    ensures forall i :: 0 <= i < |s.comments| && s.comments[i].id != id ==> r.comments[i] == s.comments[i]
  {
    s.(comments := LikedAt(s.comments, id))
  }

  /** The largest of 0 and every id in the list. */
  function MaxId(xs: seq<Comment>): (m: int)
    ensures m >= 0
    ensures forall c :: c in xs ==> c.id <= m
    ensures m == 0 || exists c :: c in xs && c.id == m
  {
    if |xs| == 0 then 0
    else
      assert xs == [xs[0]] + xs[1..];
      var rest := MaxId(xs[1..]);
      if xs[0].id > rest then xs[0].id else rest
  }

  /** The id the next submitted comment receives. */
  function NextId(xs: seq<Comment>): (id: int)
    ensures id >= 1
    ensures forall c :: c in xs ==> c.id < id
  {
    MaxId(xs) + 1
  }

  /**
   Submitting the form: one record is appended, carrying a fresh id, the
   form's author and text, the section's article and the submission time.
   The record has no like counter. The loading flag stays.
   */
  function Submit(s: State, author: string, text: string, articleId: ArticleId, now: int): (r: State)
    ensures r.loading == s.loading
    ensures |r.comments| == |s.comments| + 1
    ensures r.comments[..|s.comments|] == s.comments
    ensures r.comments[|s.comments|].id == MaxId(s.comments) + 1
    ensures forall c :: c in s.comments ==> c.id < r.comments[|s.comments|].id
    ensures r.comments[|s.comments|].author == author
    ensures r.comments[|s.comments|].text == text
    ensures r.comments[|s.comments|].articleId == articleId
    ensures r.comments[|s.comments|].date == now
    ensures r.comments[|s.comments|].currentLikes == None
  {
    var added := Comment(NextId(s.comments), articleId, author, text, now, None);
    s.(comments := s.comments + [added])
  }
}
