# Comments section state model

A Dafny model of the comment-list state machine of the `CommentsSection`
React component of Cards-Feed. The component keeps a state
`{loading, comments}` that starts as "loading, no comments", is filled once
by the fetch of the article's comments, and is then changed by three user
actions: deleting a comment by id, liking a comment by id, and submitting
the form, which appends a new comment whose id is one more than the largest
of 0 and the existing ids. The list is rendered keyed by comment
id, so the model's central invariant is that ids stay pairwise distinct.

Files:

- `wrappers.dfy` — module `Wrappers`: the `Option` datatype.
- `comments_section.dfy` — module `CommentsSection`: the `Comment` and
  `State` datatypes and the transitions `Initial`, `Load`, `Delete`, `Like`
  and `Submit`, each a pure function, with the list-level helpers they map
  or filter with (`WithoutId`, `LikedAt`, `MaxId`, `NextId`).
- `comments_trace.dfy` — module `CommentsTrace`: id uniqueness and its
  preservation, delete-after-submit, and an `Event` trace (`Step`, `Run`)
  over which the Loading to Ready progression and uniqueness are proved.

Parameters standing for what the component reads from outside: the fetched
list (the result of `getComments`), the article identifier (`props.articleId`),
the submitted author and text (the form inputs) and the submission time
(`Date.now()`). The article identifier is read at each submission, so a
`Submitted` event carries it.

A submitted comment has no `currentLikes` field
(src/components/CommentsSection.js:57-63), so the model gives it `None`.

## Model

| member | source | states |
|---|---|---|
| CommentsSection.Initial | src/components/CommentsSection.js:9-12 | a new section is loading and holds no comments |
| CommentsSection.Load | src/components/CommentsSection.js:25-29 | after the fetch resolves the section is no longer loading and its list equals the fetched list element for element |
| CommentsSection.WithoutId | src/components/CommentsSection.js:34 | the filtered list holds exactly the records whose id differs from the deleted id (membership both ways and every multiplicity), in their original order (a subsequence), and equals the input when no record has that id |
| CommentsSection.Delete | src/components/CommentsSection.js:33-34 | deleting leaves the loading flag alone, never lengthens the list, removes every record with the id and keeps every other record |
| CommentsSection.LikedAt | src/components/CommentsSection.js:39-48 | liking keeps length, order and every id; records with another id are unchanged; a matching record with counter n gets n + 1 with every other field unchanged |
| CommentsSection.Like | src/components/CommentsSection.js:38-50 | liking leaves the loading flag alone, keeps the length, and leaves records with another id untouched |
| CommentsSection.MaxId | src/components/CommentsSection.js:58 | the result is the maximum of 0 and all ids: at least 0, at least every id, and either 0 or some record's id |
| CommentsSection.NextId | src/components/CommentsSection.js:58 | the generated id is at least 1 and strictly greater than every existing id |
| CommentsSection.Submit | src/components/CommentsSection.js:56-64 | submitting appends exactly one record after an unchanged prefix; it has id max(0, ids) + 1, fresh against all existing ids, the given author, text, article and time, and no like counter; the loading flag stays |
| CommentsTrace.SubsequenceKeepsUnique | src/components/CommentsSection.js:34 | a list obtained by dropping records from a list with distinct ids has distinct ids |
| CommentsTrace.AppendFreshKeepsUnique | src/components/CommentsSection.js:57-58 | appending a record whose id exceeds every existing id keeps ids distinct |
| CommentsTrace.WithoutIdAppend | src/components/CommentsSection.js:34 | filtering a concatenation filters each part |
| CommentsTrace.DeleteRemovesExactlyOne | src/components/CommentsSection.js:33-34 | with distinct ids, deleting the id of the record at position k yields the list with exactly that record cut out, one shorter |
| CommentsTrace.DeleteUndoesSubmit | src/components/CommentsSection.js:53-64 | deleting the id a submission just generated restores the state before the submission |
| CommentsTrace.LikeAbsentIsIdentity | src/components/CommentsSection.js:38-50 | liking an id no record carries changes nothing |
| CommentsTrace.Step | src/components/CommentsSection.js:24-68 | after one event the section is loading iff it was loading and the event was not the fetch result |
| CommentsTrace.Run | src/components/CommentsSection.js:9-31 | after a sequence of events the section is loading iff it started loading and no fetch result occurred: Loading to Ready is one-way |
| CommentsTrace.RunSnoc | src/components/CommentsSection.js:24-68 | running a trace extended by one event is running the trace and then that event |
| CommentsTrace.FetchDiscardsEarlierEdits | src/components/CommentsSection.js:25-29 | whatever came before the fetch result, including comments submitted while loading, the state afterwards is exactly "ready, fetched list" |
| CommentsTrace.StepKeepsUnique | src/components/CommentsSection.js:33-64 | delete, like, submit and a fetch of a list with distinct ids each keep ids distinct |
| CommentsTrace.RunKeepsUnique | src/components/CommentsSection.js:24-68 | ids stay distinct over any trace whose fetched lists have distinct ids |
| CommentsTrace.InitialRunUnique | src/components/CommentsSection.js:9-76 | from the initial state, the ids used as render keys are distinct after any such trace, and the section is loading iff no fetch result has arrived |

## Left out

- Rendering, JSX and the style modules (src/components/CommentsSection.js:70-107): view output with no state effect.
- The asynchronous `getComments` call and its promise: the helper is not part of this model; the fetched list is a parameter of `Load`, and a fetch that never resolves is simply a trace with no `Fetched` event.
- DOM refs, `event.preventDefault()`, reading the inputs' `.value` and `commentForm.reset()`: browser plumbing; author and text are parameters of `Submit`.
- `Date.now()`: a clock read; the time is a parameter of `Submit`.
- The parent callbacks `onCommentDeleted` and `onCommentAdded`: foreign calls with no effect on this state.
- The browser-enforced `required` and `maxLength='50'` checks on the form: done by the browser, so `Submit` accepts any author and text.
- CommentsSection.LikedAt: liking a record with no like counter leaves the counter absent, whereas the JavaScript computes `undefined + 1`, which is `NaN`; the model does not represent `NaN`.
- The article identifier is modelled as an integer; its JavaScript type is not visible in the component.
- CommentsTrace.Run: a trace may contain several fetch results, while the mounted component receives exactly one; the trace lemmas hold for the more general case.
- Sorting the displayed list, the store-backed variant of the section and its field reducer: none of them are in the component modelled here.
- Numbers are unbounded integers; JavaScript's floating-point ids and timestamps, and `Math.max` over non-numeric ids, are not modelled.
