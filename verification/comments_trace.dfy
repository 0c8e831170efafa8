/**
 Properties of the comment list across transitions: id uniqueness (the list
 is rendered keyed by id), what deleting a just-submitted comment gives back,
 and the one-way Loading -> Ready progression over a sequence of events.
 */
module CommentsTrace {
  import opened CommentsSection

  /** No two records of the list share an id. */
  ghost predicate UniqueIds(xs: seq<Comment>) {
    forall i, j :: 0 <= i < |xs| && 0 <= j < |xs| && i != j ==> xs[i].id != xs[j].id
  }

  /** A list headed by `c` has unique ids iff its tail has and no tail record reuses `c.id`. */
  lemma UniqueCons(c: Comment, xs: seq<Comment>)
    ensures UniqueIds([c] + xs) <==> UniqueIds(xs) && forall d :: d in xs ==> d.id != c.id
  {
    var ys := [c] + xs;
    if UniqueIds(ys) {
      forall d | d in xs
        ensures d.id != c.id
      {
        var j :| 0 <= j < |xs| && xs[j] == d;
        assert ys[0] == c && ys[j + 1] == d;
      }
      forall i, j | 0 <= i < |xs| && 0 <= j < |xs| && i != j
        ensures xs[i].id != xs[j].id
      {
        assert ys[i + 1] == xs[i] && ys[j + 1] == xs[j];
      }
    }
  }

  /** Every entry of a subsequence is an entry of the sequence it was taken from. */
  lemma {:induction false} SubsequenceMembers<T>(a: seq<T>, b: seq<T>)
    requires Subsequence(a, b)
    ensures forall x :: x in a ==> x in b
    decreases |b|
  {
    if |a| == 0 {
    } else if a[0] == b[0] && Subsequence(a[1..], b[1..]) {
      SubsequenceMembers(a[1..], b[1..]);
      assert a == [a[0]] + a[1..];
      assert b == [b[0]] + b[1..];
    } else {
      SubsequenceMembers(a, b[1..]);
      assert b == [b[0]] + b[1..];
    }
  }

  /** Dropping records cannot create a clash of ids. */
  lemma {:induction false} SubsequenceKeepsUnique(a: seq<Comment>, b: seq<Comment>)
    requires Subsequence(a, b)
    requires UniqueIds(b)
    ensures UniqueIds(a)
    decreases |b|
  {
    if |a| == 0 {
    } else {
      assert b == [b[0]] + b[1..];
      UniqueCons(b[0], b[1..]);
      if a[0] == b[0] && Subsequence(a[1..], b[1..]) {
        SubsequenceKeepsUnique(a[1..], b[1..]);
        SubsequenceMembers(a[1..], b[1..]);
        assert a == [a[0]] + a[1..];
        UniqueCons(a[0], a[1..]);
      } else {
        SubsequenceKeepsUnique(a, b[1..]);
      }
    }
  }

  /** Appending a record whose id exceeds every existing id keeps the ids unique. */
  lemma AppendFreshKeepsUnique(xs: seq<Comment>, c: Comment)
    requires UniqueIds(xs)
    requires forall d :: d in xs ==> d.id < c.id
    ensures UniqueIds(xs + [c])
  {
    var ys := xs + [c];
    forall i, j | 0 <= i < |ys| && 0 <= j < |ys| && i != j
      ensures ys[i].id != ys[j].id
    {
      if i < |xs| { assert ys[i] == xs[i] && ys[i] in xs; }
      if j < |xs| { assert ys[j] == xs[j] && ys[j] in xs; }
    }
  }

  /** Filtering by id distributes over concatenation. */
  lemma {:induction false} WithoutIdAppend(a: seq<Comment>, b: seq<Comment>, id: int)
    ensures WithoutId(a + b, id) == WithoutId(a, id) + WithoutId(b, id)
    decreases |a|
  {
    if |a| == 0 {
      assert a + b == b;
    } else {
      assert (a + b)[0] == a[0];
      assert (a + b)[1..] == a[1..] + b;
      WithoutIdAppend(a[1..], b, id);
    }
  }

  /** The tail of a list with unique ids has unique ids. */
  lemma UniqueTail(xs: seq<Comment>)
    requires UniqueIds(xs)
    requires |xs| > 0
    ensures UniqueIds(xs[1..])
    ensures forall d :: d in xs[1..] ==> d.id != xs[0].id
  {
    assert xs == [xs[0]] + xs[1..];
    UniqueCons(xs[0], xs[1..]);
  }

  /**
   With unique ids, deleting the id of the record at position k removes that
   record and nothing else: the records before and after it stay, in order.
   */
  lemma {:induction false} DeleteRemovesExactlyOne(xs: seq<Comment>, k: int)
    requires UniqueIds(xs)
    requires 0 <= k < |xs|
    ensures WithoutId(xs, xs[k].id) == xs[..k] + xs[k + 1..]
    ensures |WithoutId(xs, xs[k].id)| == |xs| - 1
    decreases k
  {
    var id := xs[k].id;
    UniqueTail(xs);
    if k == 0 {
      assert WithoutId(xs, id) == WithoutId(xs[1..], id);
    } else {
      DeleteRemovesExactlyOne(xs[1..], k - 1);
      WithoutIdKeepsHead(xs, id);
      SpliceHead(xs, k, WithoutId(xs, id), WithoutId(xs[1..], id));
    }
  }

  /** A head record with a different id survives the filter, in front. */
  lemma WithoutIdKeepsHead(xs: seq<Comment>, id: int)
    requires 0 < |xs|
    requires xs[0].id != id
    ensures WithoutId(xs, id) == [xs[0]] + WithoutId(xs[1..], id)
  {
  }

  /** Putting the head back in front of the tail with its (k-1)-th entry cut out cuts out the k-th entry. */
  lemma SpliceHead(xs: seq<Comment>, k: int, whole: seq<Comment>, tail: seq<Comment>)
    requires 0 < k < |xs|
    requires whole == [xs[0]] + tail
    requires tail == xs[1..][..k - 1] + xs[1..][k..]
    ensures whole == xs[..k] + xs[k + 1..]
  {
    var ys := xs[1..];
    assert xs[..k] == [xs[0]] + ys[..k - 1];
    assert ys[k..] == xs[k + 1..];
  }

  /** Deleting the comment that was just submitted gives back the state before the submission. */
  lemma DeleteUndoesSubmit(s: State, author: string, text: string, articleId: ArticleId, now: int)
    ensures Delete(Submit(s, author, text, articleId, now), NextId(s.comments)) == s
  {
    var s' := Submit(s, author, text, articleId, now);
    var added := s'.comments[|s.comments|];
    assert s'.comments == s.comments + [added];
    WithoutIdAppend(s.comments, [added], added.id);
    assert WithoutId([added], added.id) == [];
  }

  /** Liking an id that no record carries leaves the state unchanged. */
  lemma LikeAbsentIsIdentity(s: State, id: int)
    requires forall c :: c in s.comments ==> c.id != id
    ensures Like(s, id) == s
  {
    var r := Like(s, id);
    forall i | 0 <= i < |s.comments|
      ensures r.comments[i] == s.comments[i]
    {
      assert s.comments[i] in s.comments;
    }
  }

  /** The user and network events the section reacts to. */
  datatype Event =
    | Fetched(fetched: seq<Comment>)
    | DeleteClicked(id: int)
    | LikeClicked(id: int)
    | Submitted(author: string, text: string, articleId: ArticleId, now: int)

  /** The state after one event. A submission carries the article the section shows at that moment. */
  function Step(s: State, e: Event): (r: State)
    ensures r.loading <==> s.loading && !e.Fetched?
  {
    match e
    case Fetched(fetched) => Load(s, fetched)
    case DeleteClicked(id) => Delete(s, id)
    case LikeClicked(id) => Like(s, id)
    case Submitted(author, text, articleId, now) => Submit(s, author, text, articleId, now)
  }

  /** The state after a sequence of events, applied in order. */
  function Run(s: State, events: seq<Event>): (r: State)
    ensures r.loading <==> s.loading && forall i :: 0 <= i < |events| ==> !events[i].Fetched?
    decreases |events|
  {
    if |events| == 0 then s
    else Run(Step(s, events[0]), events[1..])
  }

  /** Running a trace extended by one event is running the trace, then that event. */
  lemma {:induction false} RunSnoc(s: State, events: seq<Event>, e: Event)
    ensures Run(s, events + [e]) == Step(Run(s, events), e)
    decreases |events|
  {
    if |events| == 0 {
      assert events + [e] == [e];
    } else {
      assert (events + [e])[0] == events[0];
      assert (events + [e])[1..] == events[1..] + [e];
      RunSnoc(Step(s, events[0]), events[1..], e);
    }
  }

  /**
   Whatever happened before the fetch resolved, including comments submitted
   while the section was still loading, is replaced by the fetched list.
   */
  lemma FetchDiscardsEarlierEdits(s: State, events: seq<Event>, fetched: seq<Comment>)
    ensures Run(s, events + [Fetched(fetched)]) == State(false, fetched)
  {
    RunSnoc(s, events, Fetched(fetched));
  }

  /** Every fetched list in the trace has unique ids. */
  ghost predicate FetchesUnique(events: seq<Event>) {
    forall i :: 0 <= i < |events| && events[i].Fetched? ==> UniqueIds(events[i].fetched)
  }

  /** One event keeps the ids unique, provided a fetched list brings unique ids. */
  lemma StepKeepsUnique(s: State, e: Event)
    requires UniqueIds(s.comments)
    requires e.Fetched? ==> UniqueIds(e.fetched)
    ensures UniqueIds(Step(s, e).comments)
  {
    match e
    case Fetched(fetched) =>
    case DeleteClicked(id) =>
      SubsequenceKeepsUnique(WithoutId(s.comments, id), s.comments);
    case LikeClicked(id) =>
    case Submitted(author, text, articleId, now) =>
      var r := Submit(s, author, text, articleId, now);
      assert r.comments == s.comments + [r.comments[|s.comments|]];
      AppendFreshKeepsUnique(s.comments, r.comments[|s.comments|]);
  }

  /** Ids stay pairwise distinct over any trace whose fetched lists have distinct ids. */
  lemma {:induction false} RunKeepsUnique(s: State, events: seq<Event>)
    requires UniqueIds(s.comments)
    requires FetchesUnique(events)
    ensures UniqueIds(Run(s, events).comments)
    decreases |events|
  {
    if |events| > 0 {
      StepKeepsUnique(s, events[0]);
      assert FetchesUnique(events[1..]) by {
        forall i | 0 <= i < |events[1..]| && events[1..][i].Fetched?
          ensures UniqueIds(events[1..][i].fetched)
        {
          assert events[1..][i] == events[i + 1];
        }
      }
      RunKeepsUnique(Step(s, events[0]), events[1..]);
    }
  }

  /** From the initial state, the ids shown are unique at every point of any trace with well-formed fetches. */
  lemma InitialRunUnique(events: seq<Event>)
    requires FetchesUnique(events)
    ensures UniqueIds(Run(Initial(), events).comments)
    ensures Run(Initial(), events).loading <==> forall i :: 0 <= i < |events| ==> !events[i].Fetched?
  {
    RunKeepsUnique(Initial(), events);
  }
}
