# News feed controller — a Dafny model

This project models the logic inside the news feed component of a small
childcare business's website (`src/components/NewsClient.tsx`). The component
shows a live list of news records, newest first, and lets the signed-in owner
add, edit and delete them, with an optional image or video attached.

Underneath the rendering, the component is a small state machine:

- **Windowed live feed.** A live query asks for the newest `pageLimit + 1`
  records. Each snapshot it delivers sets `hasMore` to "more than `pageLimit`
  came back" and replaces the visible list with the first `pageLimit` records.
  "Load more" widens the window by 20 records. It does nothing when there is
  nothing more or while an upload is running.
- **Optimistic delete.** After the store deletes a record, the record is
  filtered out of the visible list at once, without waiting for the next
  snapshot.
- **Media selection.** A file is accepted only if its MIME type is on the
  image list or the video list. A video is also rejected if it is longer
  than 30 seconds.
- **Submit.** Submitting is refused, with an inline alert, when nobody is
  signed in or the title or body is blank. Otherwise a create payload or an
  edit payload is built, the file (if any) is uploaded, and its URL and media
  tag are attached. The record is then written. The upload flags are reset
  whether the upload or the write succeeds or fails, except when the upload
  completes but its download URL cannot be fetched (see "## Findings"). On
  success the modal closes and the form is cleared.

The model has four modules:

- `Wrappers` (`wrappers.dfy`): `Option`, which stands in for `null` and for
  missing fields.
- `JsString` (`js_string.dfy`): the ECMAScript `String.prototype.trim` that the
  submit guard relies on, with the whitespace set of sections 12.2 and 12.3
  of ECMA-262.
- `NewsModel` (`news_model.dfy`): the value-level parts. This is the
  `NewsItem` record, the constants, the query window `Take`, the delete filter
  `RemoveId`, the file check `CheckFile`, the media tag `MediaTypeOf`, the
  submit guard `CanSubmit` and the payload builders. It also holds the
  document store's field-merge semantics for `updateDoc` and `addDoc`
  (`ApplyUpdate`, `Created`), which are used to state what an edit leaves in
  place.
- `NewsFeed` (`news_feed.dfy`): the class `NewsClient`. Its fields are the
  component's state variables and its methods are the event handlers. The
  class invariant `Valid()` says:
  - `pageLimit` is `20 + 20k` for some k ≥ 0.
  - The visible list is no longer than the window and is newest first.
  - A selected file has an allowed type.
  - `uploading` holds exactly while a submit is suspended.
  - `uploadPct` and `uploadTask` are set only while uploading.

The model never calls the backends. Their results are method parameters:

- a snapshot's documents;
- the upload's download URL, or its failure;
- whether a write or a delete threw;
- a video's decoded duration;
- the answer to the confirmation dialog;
- the clock.

`handleSubmit` is `async`, so it is modelled as two methods.
`BeginSubmit` covers the validation, `setUploading(true)` and the payload
built before the first `await`. `CompleteSubmit` covers the upload result,
the write, `closeModal` and the `finally` block.
`CompleteSubmitAsWritten` is the same step as the code is written, where a
failed download-URL fetch leaves the submit suspended for good. Between the two, other
events can happen: a snapshot, a delete, or a "load more" that the
`uploading` guard turns into a no-op.

JavaScript truthiness is kept where it matters. `editingId ? … : …` and
`if (editingId)` treat an empty id as "creating" (`IsTruthy`). `if
(n.mediaUrl)` skips the media delete for an empty URL.

Three behaviours of the code are worth stating plainly:

- The component keeps no per-item removal state: each snapshot replaces the
  list (line 141), and the delete only filters the current list (line 308).
- Title and body are checked after `trim()`, so a whitespace-only title is
  refused.
- A failed submit leaves the modal and the form as they were. An alert
  raised earlier stays visible, and nothing is rolled back on the server:
  an upload that succeeded before a failed write stays stored.

## Model

| member | source | states |
|---|---|---|
| `JsString.TrimStart` | src/components/NewsClient.tsx:238 | the result is no longer than the input and does not start with ECMAScript whitespace |
| `JsString.TrimStartDropsBlank` | src/components/NewsClient.tsx:238 | `TrimStart(s)` is a suffix of `s` and everything before it is whitespace |
| `JsString.TrimEnd` | src/components/NewsClient.tsx:238 | the result is a prefix of the input that does not end with whitespace |
| `JsString.TrimEndDropsBlank` | src/components/NewsClient.tsx:238 | everything `TrimEnd` drops is whitespace |
| `JsString.Trim` | src/components/NewsClient.tsx:238 | `trim()` returns "" or a string whose first and last characters are not whitespace |
| `JsString.TrimIsBlankMargins` | src/components/NewsClient.tsx:238 | `s` is blank lead + `Trim(s)` + blank trail: `trim` removes only whitespace, and only at the margins |
| `JsString.TrimEmptyIffBlank` | src/components/NewsClient.tsx:238 | `!s.trim()` holds exactly when every character of `s` is whitespace (both directions) |
| `NewsModel.CanSubmit` | src/components/NewsClient.tsx:238-241 | the submit guard `user && title.trim() && body.trim()` passes iff a user is signed in and neither title nor body is whitespace only (both directions) |
| `NewsModel.Take` | src/components/NewsClient.tsx:129-134 | `limit(n)` / `slice(0, n)` gives a prefix of the results, as long as the results or `n`, whichever is shorter |
| `NewsModel.SnapshotOfCollection` | src/components/NewsClient.tsx:129-141 | querying `pageLimit + 1` records and slicing to `pageLimit` makes `hasMore` true iff the collection holds more than `pageLimit` records, and shows its first `pageLimit` records (all of them when there are no more) |
| `NewsModel.TakeGrows` | src/components/NewsClient.tsx:129-151 | widening the window only appends: the old visible list is a prefix of the new one |
| `NewsModel.TakeNewestFirst` | src/components/NewsClient.tsx:129-134 | a window of a newest-first result is newest first |
| `NewsModel.RemoveId` | src/components/NewsClient.tsx:308 | `filter(m => m.id !== id)` returns no record with that id, only records of the input, and is no longer than the input |
| `NewsModel.RemoveIdCount` | src/components/NewsClient.tsx:308 | it removes exactly the records with the deleted id: every other record keeps its number of occurrences |
| `NewsModel.RemoveIdKeepsOrder` | src/components/NewsClient.tsx:308 | the remaining records keep their relative order (the result is a subsequence of the input) |
| `NewsModel.RemoveIdIdempotent` | src/components/NewsClient.tsx:308 | deleting the same id twice gives the same list as deleting it once |
| `NewsModel.RemoveIdAbsent` | src/components/NewsClient.tsx:308 | filtering an id that no record carries changes nothing |
| `NewsModel.RemoveIdNewestFirst` | src/components/NewsClient.tsx:308 | the filter keeps a newest-first list newest first |
| `NewsModel.DeleteThenSnapshot` | src/components/NewsClient.tsx:131-141 | a later snapshot without the deleted record is unaffected by the local filter and does not bring the record back |
| `NewsModel.IsAllowedType` | src/components/NewsClient.tsx:173-176 | the test "`isImage` or `isVideo`" holds iff the type is on the joined list the file input accepts (line 444), and every such type starts with `image/` or `video/` |
| `NewsModel.CheckFile` | src/components/NewsClient.tsx:172-205 | a type on neither list is rejected (both directions); an image type is accepted with no duration check; a video is rejected as too long iff its duration is known and over 30 s, and waits iff the duration never arrives |
| `NewsModel.AllowedListsDisjoint` | src/components/NewsClient.tsx:53-65 | no MIME type is on both the image list and the video list |
| `NewsModel.VideoDurationBoundary` | src/components/NewsClient.tsx:66 | the ceiling is inclusive: 29 s and 30 s videos pass, 30.5 s and 31 s are rejected |
| `NewsModel.MediaTypeOf` | src/components/NewsClient.tsx:275 | the tag is `video` exactly when the MIME type is on the video list |
| `NewsModel.MediaTypeOfAllowed` | src/components/NewsClient.tsx:53-65 | for an accepted file the tag is `image` iff the type is on the image list, `video` iff on the video list |
| `NewsModel.BasePayload` | src/components/NewsClient.tsx:245-251 | the payload carries title and body. An edit (truthy `editingId`) carries `updatedAt == now` and no `createdAt`/`createdBy`. A create carries `createdAt == now` and `createdBy == user.uid`. No media fields yet |
| `NewsModel.WithMedia` | src/components/NewsClient.tsx:273-276 | `Object.assign` adds `mediaUrl == url` and a `mediaType` that is `video` iff the file's type is on the video list, and changes no other field |
| `NewsModel.FinalPayload` | src/components/NewsClient.tsx:254-277 | without a file the payload is unchanged; with one it gains the URL and the tag and nothing else. From a base payload without media, `mediaUrl` and `mediaType` are each present exactly when a file was selected, so they come together |
| `NewsModel.WriteFor` | src/components/NewsClient.tsx:279-283 | the write is an update of `editingId` exactly when `editingId` is truthy, otherwise an add, and carries the payload unchanged |
| `NewsModel.EditWithoutFileKeepsMedia` | src/components/NewsClient.tsx:245-280 | an edit with no new file, merged into the record, keeps its media, creation time and author, and stamps the edit time |
| `NewsModel.SubmitKeepsMediaPaired` | src/components/NewsClient.tsx:245-283 | a record created by a submit has `mediaUrl` and `mediaType` paired, and an update keeps a paired record paired |
| `NewsFeed.NewsClient.constructor` | src/components/NewsClient.tsx:83-108 | initial state: no items, `pageLimit == 20`, `hasMore`, nothing uploading, empty form, three empty keywords |
| `NewsFeed.NewsClient.SetUser` | src/components/NewsClient.tsx:120 | the auth listener replaces `user` and nothing else |
| `NewsFeed.NewsClient.ApplySnapshot` | src/components/NewsClient.tsx:131-142 | `hasMore` is true iff the snapshot holds more than `pageLimit` docs; `items` is replaced (not merged) by the first `pageLimit` docs in snapshot order; the invariant is kept |
| `NewsFeed.NewsClient.FetchNextPage` | src/components/NewsClient.tsx:149-152 | when `!hasMore` or `uploading`, nothing changes; otherwise `pageLimit` grows by 20 and no other field changes, so `pageLimit` stays `20 + 20k` |
| `NewsFeed.NewsClient.SelectFile` | src/components/NewsClient.tsx:172-205 | `draftFile` becomes the file exactly when `CheckFile` accepts it, and is otherwise unchanged |
| `NewsFeed.NewsClient.ClearFile` | src/components/NewsClient.tsx:424-431 | the clear button empties `draftFile` only |
| `NewsFeed.NewsClient.EditTitle` | src/components/NewsClient.tsx:401 | typing sets `title` only |
| `NewsFeed.NewsClient.EditBody` | src/components/NewsClient.tsx:407 | typing sets `body` only |
| `NewsFeed.NewsClient.OpenAdd` | src/components/NewsClient.tsx:210-217 | opens the modal with no `editingId`, empty title and body, no file; alert and keywords are untouched |
| `NewsFeed.NewsClient.OpenEdit` | src/components/NewsClient.tsx:218-225 | opens the modal on the item: its id, title and body are loaded and no file is selected |
| `NewsFeed.NewsClient.CloseModal` | src/components/NewsClient.tsx:226-235 | closes the modal and clears `editingId`, title, body, file and alert, and sets the keywords to three empty strings |
| `NewsFeed.NewsClient.BeginSubmit` | src/components/NewsClient.tsx:237-262 | starts iff `CanSubmit`. A refused submit only sets `alertVisible`, with no write and `uploading` left false. A started one sets `uploading` and captures the payload built from the form at that moment, the file, and `editingId`. With a file, it also records the upload task and sets the progress to 0 |
| `NewsFeed.NewsClient.StartUpload` | src/components/NewsClient.tsx:243-261 | `uploading` becomes true with the pending submit recorded; an attached file becomes the upload task at 0% progress, and without a file there is neither task nor progress |
| `NewsFeed.NewsClient.EndUpload` | src/components/NewsClient.tsx:289-293 | the `finally` block: `uploading` false, no progress, no upload task, no pending submit |
| `NewsFeed.NewsClient.CompleteSubmit` | src/components/NewsClient.tsx:263-293 | the submit with a download-URL failure handled as an upload failure. A failed upload writes nothing. Otherwise the write is `WriteFor` of the final payload. Afterwards `uploading` is false and `uploadPct` and `uploadTask` are null whatever happened. On success the form is reset as `closeModal` does; on failure every form field is kept |
| `NewsFeed.NewsClient.CompleteSubmitAsWritten` | src/components/NewsClient.tsx:263-293 | as written: when a file was attached and its download URL cannot be fetched, the submit stays suspended with every field unchanged and `uploading` true; in every other case it ends as `CompleteSubmit` does: `UploadFailed` after a failed upload, otherwise the `WriteFor` of the final payload, with the upload state reset, the form cleared on success and kept as it was on failure |
| `NewsFeed.NewsClient.Delete` | src/components/NewsClient.tsx:299-311 | with a user, a confirmation and a successful delete, `items` loses exactly the records with that id; otherwise nothing changes. The stored media is deleted exactly then, if the URL is truthy |
| `NewsFeed.Resync` | src/components/NewsClient.tsx:129-142 | the live query on a newest-first collection shows its first `pageLimit` records (all of them when it holds fewer), and sets `hasMore` iff the collection holds more than `pageLimit`, leaving `pageLimit` and `uploading` as they were |
| `NewsFeed.LoadMoreScenario` | src/components/NewsClient.tsx:129-152 | with 45 records, the first load shows 20 with more to come, one "load more" shows 40 with more to come, and a second shows 45 with none |
| `NewsFeed.DeleteThenResync` | src/components/NewsClient.tsx:299-311 | a delete followed by the confirming snapshot shows exactly the snapshot's window, with no record with that id visible, and keeps the invariant |
| `NewsFeed.UrlFailureBlocksPaging` | src/components/NewsClient.tsx:267-271 | as written, after an image upload whose download URL cannot be fetched, `uploading` stays true and "load more" leaves `pageLimit` at 20 |
| `NewsFeed.UrlFailureRecovers` | src/components/NewsClient.tsx:267-293 | with the failure handled, the same steps end in `UploadFailed`, `uploading` false, and "load more" widens the window to 40 |

## Findings

| source | as written | input that shows it | evidently intended | confidence | as-written member | corrected member |
|---|---|---|---|---|---|---|
| src/components/NewsClient.tsx:267-271 | the download URL is fetched inside an `async` completion observer, so its rejection reaches neither `rej` nor the `catch` (286-288), and the awaited promise never settles; the `finally` (289-293) never runs | a submit with a file whose upload completes but whose `getDownloadURL` rejects (for example, storage rules allowing writes but not reads) | the failure is reported like any upload failure, and `uploading`, `uploadPct` and `uploadTask` are reset, so paging, the add button and the submit button work again | not executed | `NewsFeed.UrlFailureBlocksPaging` | `NewsFeed.NewsClient.CompleteSubmit` |

## Left out

- Firestore and Storage calls (`onSnapshot`, `addDoc`, `updateDoc`, `deleteDoc`, `uploadBytesResumable`, `getDownloadURL`, `deleteObject`): these are foreign library calls. Their results are method parameters. Three of their guarantees are assumed rather than proved: the merge behaviour of writes (`ApplyUpdate`, `Created`), and, for a snapshot, the `createdAt`-descending order and the length bound `pageLimit + 1` of the query at line 129 (`ApplySnapshot`'s precondition).
- Subscription teardown and re-subscription, and the scroll listener (lines 123-146, 155-167): this is event plumbing and scroll geometry. A snapshot is assumed to come from the subscription for the current `pageLimit`. A late snapshot from a subscription already torn down is not modelled.
- The upload progress percentage (line 264): it uses floating-point `Math.round`. `uploadPct` is modelled only as set to 0 at the start and cleared at the end.
- Cancelling an upload (line 336): it is modelled as an upload that fails (`UploadRejected`).
- `Timestamp.now()`, `Date.now()` and the storage path (line 257): these depend on the clock. The timestamp is a parameter, and the path is not modelled.
- The video decoder: its duration is a `real` parameter. JavaScript's `NaN` and `Infinity` durations, and the blob URL lifecycle, are not modelled.
- `alert` and `confirm` dialogs: an alert becomes the returned verdict or outcome, and the answer to `confirm` is a parameter.
- The text-generation dialog (lines 470-580), including its keyword editor and the `fetch` to the generation endpoint: this is I/O. Only `closeModal`'s reset of the keywords is modelled.
- `previewURL`: it is only ever set to null and never read.
- JSX rendering, `NewsCard`, animations, and the theme/dark detection (lines 77-80, 316-651).
- Strings are sequences of Unicode scalar values, not UTF-16 code units, so a lone surrogate cannot be represented.
- `BeginSubmit`: requires that no upload is running. The submit button is disabled while `uploading` (line 497), so the handler is never re-entered from the page.
