# OCR batch pipeline of the cardscan page

This project models the client-side batch pipeline of the OCR note converter
page (`frontend/src/app/page.tsx`). The page keeps three pieces of state: the
upload list (`uploadedFiles`), the result list (`ocrResults`) and the in-flight
flag (`isProcessing`). It also keeps the selected language. Its handlers are:

- `handleFileSelect`: keeps the image candidates and appends them with fresh ids.
- `removeFile`: drops a file and its result.
- `handleSubmit`: sends one multipart request and maps the backend's reply back onto the files by position.
- `updateOCRText`: edits one result.
- `downloadAsText`: derives the download name.

Layout:

- `filtering.dfy` (`Filtering`): the list `filter` the page uses three times, and what it keeps and in which order.
- `types.dfy` (`OcrTypes`): files, upload entries, results, request fields, and the backend outcome.
- `registry.dfy` (`Registry`): image selection, the `handleFileSelect` loop, and removal from the upload list.
- `dispatcher.dfy` (`Dispatcher`): the FormData loop that builds the request.
- `reconciler.dfy` (`Reconciler`): the success and failure `map`s of `handleSubmit`.
- `result_store.dfy` (`ResultStore`): `updateOCRText` and removal from the result list.
- `export_name.dfy` (`ExportName`): the `/\.[^/.]+$/` → `.md` rename.
- `converter.dfy` (`Converter`): the component as the class `OcrConverter`, with its state as fields and each handler as a method.

The backend call is a parameter. `Outcome` is `Failed` for a non-ok status, a
transport error, an undecodable body, or an ok body that decodes to `null`
(the result `map` throws on `results[index]`, so the `catch` runs). Otherwise it is `Succeeded(entries)`,
where entry i is `Some(text)` when `results[i].text` is present and `None`
when the entry or its text is missing. The ids that `Math.random` would draw
are passed in by the caller as `freshIds`, and the k-th accepted image takes
the k-th of them.

`handleSubmit` is split at its one suspension point:

- `BeginSubmit` raises the flag, builds the request and freezes the upload list as the batch.
- `Settle` replaces the results and lowers the flag.
- `HandleSubmit` runs both with nothing in between.

The page builds the results from the list captured when the submit began. A
file removed while the call is in flight therefore gets a result back when the
call settles (`Reconciler.RemovedWhileInFlightComesBack`). `Settle` only
promises that every result belongs to a listed file when the batch still
equals the upload list.

The comment at `page.tsx:159` speaks of a `.txt` name. The code, which the
model follows, produces `.md`.

## Model

| member | source | states |
|---|---|---|
| `Filtering.Filter` | frontend/src/app/page.tsx:96-97 | a filter never lengthens a list |
| `Filtering.KeptIndices` | frontend/src/app/page.tsx:96-97 | the k-th survivor of a filter is the element at the k-th accepted position; the positions strictly increase, and a position is kept exactly when its element is accepted |
| `Filtering.FilterMembership` | frontend/src/app/page.tsx:96-97 | an element survives the filter iff it was in the list and is accepted |
| `Filtering.FilterKeepsAll` | frontend/src/app/page.tsx:96-97 | filtering a list whose elements are all accepted returns it unchanged |
| `Filtering.FilterDropsAll` | frontend/src/app/page.tsx:65-74 | filtering a list with no accepted element gives the empty list |
| `Filtering.FilterAppend` | frontend/src/app/page.tsx:65-76 | filtering distributes over concatenation |
| `Registry.CollectImages` | frontend/src/app/page.tsx:64-74 | the loop returns one entry per image candidate, in candidate order; the k-th (`Upload`) carries the k-th image's file, that file's own name as display name, and the k-th fresh id |
| `Registry.ImagesInOrder` | frontend/src/app/page.tsx:65-66 | the accepted files are exactly the candidates whose type starts with "image/" (`IsImage`); they appear in input order, each taken from its own position |
| `Registry.NoImagesAddNothing` | frontend/src/app/page.tsx:65-76 | a selection with no image accepts nothing |
| `Registry.ImagesOfTwoSelections` | frontend/src/app/page.tsx:76 | two selections in a row accept what one combined selection accepts, the first's files first |
| `Registry.AppendKeepsIdsUnique` | frontend/src/app/page.tsx:67-76 | appending entries with distinct, unused ids keeps all upload ids distinct |
| `Registry.Without` | frontend/src/app/page.tsx:96 | the file list after removal is no longer than before and holds no entry with the id |
| `Registry.WithoutRemovesExactlyThatId` | frontend/src/app/page.tsx:96 | after removal no file has the id, and every file with another id remains |
| `Registry.WithoutUnknownId` | frontend/src/app/page.tsx:96 | removing an id no file has leaves the list unchanged |
| `Registry.WithoutKeepsIdsUnique` | frontend/src/app/page.tsx:96 | removal keeps upload ids distinct |
| `Registry.WithoutDropsOne` | frontend/src/app/page.tsx:96 | with distinct ids, removing a present id shortens the list by exactly one |
| `Dispatcher.BuildRequest` | frontend/src/app/page.tsx:104-109 | the request holds one "files" field per uploaded file in list order, then the "language" field |
| `Reconciler.TextAt` | frontend/src/app/page.tsx:127 | the text shown is never empty, and is either "No text detected" or exactly the text the response holds at that position |
| `Reconciler.SuccessResults` | frontend/src/app/page.tsx:124-129 | one unedited result per file, in file order, with that file's id and name; the text is entry i's when present and non-empty (`Usable`), otherwise "No text detected" |
| `Reconciler.ErrorResults` | frontend/src/app/page.tsx:135-140 | one unedited result per file, in file order, with that file's id and name and the error placeholder text |
| `Reconciler.Settled` | frontend/src/app/page.tsx:117-141 | whatever the outcome, the results match the batch in length, id order and names; all are unedited and non-empty; failure gives the error placeholder everywhere, success the per-position text or "No text detected" |
| `Reconciler.SettledBelongsToBatch` | frontend/src/app/page.tsx:124-141 | every settled result's file id is an id of the batch |
| `Reconciler.ExtraEntriesIgnored` | frontend/src/app/page.tsx:124-129 | response entries past the batch's length do not affect the results |
| `Reconciler.EmptyTextIsMissing` | frontend/src/app/page.tsx:127 | an entry whose text is empty yields the same results as a missing entry |
| `Reconciler.EmptyResponse` | frontend/src/app/page.tsx:124-129 | an empty response array gives every file "No text detected" |
| `Reconciler.RemovedWhileInFlightComesBack` | frontend/src/app/page.tsx:96-131 | a file of the batch that is removed while the call is in flight is absent from the list yet present in the settled results |
| `ResultStore.UpdateText` | frontend/src/app/page.tsx:147-151 | same length and order; each result with the id takes the new text and is marked edited, every other result is unchanged |
| `ResultStore.UpdateKeepsIds` | frontend/src/app/page.tsx:149 | an edit keeps the sequence of result ids |
| `ResultStore.UpdateUnknownId` | frontend/src/app/page.tsx:149 | an edit of an id with no result leaves the list unchanged |
| `ResultStore.UpdateIdempotent` | frontend/src/app/page.tsx:149 | applying the same edit twice equals applying it once |
| `ResultStore.UpdateLastWins` | frontend/src/app/page.tsx:149 | of two edits of the same id, the later text is what remains |
| `ResultStore.UpdatesCommute` | frontend/src/app/page.tsx:149 | edits of two different ids can be applied in either order |
| `ResultStore.RemoveResult` | frontend/src/app/page.tsx:97 | the result list after removal is no longer than before and holds no result with the id |
| `ResultStore.RemoveResultClearsId` | frontend/src/app/page.tsx:97 | after removal no result has the id, and every result with another id remains |
| `ResultStore.EditAfterRemoveIsNoop` | frontend/src/app/page.tsx:95-98 | an edit arriving after its file was removed changes nothing |
| `ResultStore.RemoveAfterEdit` | frontend/src/app/page.tsx:95-98 | removing a result gives the same list whether or not it was edited first |
| `ExportName.FinalDot` | frontend/src/app/page.tsx:160 | the scan finds a position where the pattern matches (`ExtensionAt`: a '.', then one or more characters up to the end, none of them '/' or '.'); when it finds none, the pattern matches nowhere |
| `ExportName.MarkdownName` | frontend/src/app/page.tsx:160 | a name with a final extension has that extension replaced by ".md"; any other name is returned unchanged |
| `ExportName.ExtensionUnique` | frontend/src/app/page.tsx:160 | the pattern matches in at most one place |
| `ExportName.DotInDirectoryIsNoExtension` | frontend/src/app/page.tsx:160 | a '.' before the last '/' does not count as an extension when the last segment has no '.' |
| `ExportName.MarkdownNameIdempotent` | frontend/src/app/page.tsx:160 | renaming an already renamed name changes nothing |
| `ExportName.MarkdownNameExamples` | frontend/src/app/page.tsx:160 | "scan.png" becomes "scan.md", "archive.tar.gz" becomes "archive.tar.md" and ".png" becomes ".md"; "notes", "photo." and "v1.2/scan" stay as they are |
| `Converter.RemoveKeepsCovered` | frontend/src/app/page.tsx:95-98 | if every result belongs to a listed file, that still holds after a removal |
| `Converter.UpdateKeepsCovered` | frontend/src/app/page.tsx:147-151 | an edit keeps every result belonging to a listed file |
| `Converter.AppendKeepsCovered` | frontend/src/app/page.tsx:76 | adding files keeps every result belonging to a listed file |
| `Converter.ImagesSkipNonImage` | frontend/src/app/page.tsx:65-66 | from an image, a non-image and an image, the two images are accepted in order |
| `Converter.OcrConverter.constructor` | frontend/src/app/page.tsx:54-57 | the page starts with no files, no results, the flag down and language "eng" |
| `Converter.OcrConverter.SelectLanguage` | frontend/src/app/page.tsx:243-252 | the selected language becomes the chosen code, one of those the selector offers, and nothing else changes |
| `Converter.OcrConverter.HandleFileSelect` | frontend/src/app/page.tsx:61-77 | a null list changes nothing; otherwise the accepted images are appended after the existing files in order, under the fresh ids, which are new to both lists; results, flag and language are untouched and upload ids stay distinct |
| `Converter.OcrConverter.RemoveFile` | frontend/src/app/page.tsx:95-98 | both lists lose exactly the entries with the id and keep the rest in order; the flag and language are untouched |
| `Converter.OcrConverter.BeginSubmit` | frontend/src/app/page.tsx:100-109 | with no files nothing changes and nothing is sent; otherwise the flag is raised, which disables the submit button (`SubmitEnabled` false), and the request carries every file in order and then the language |
| `Converter.OcrConverter.Settle` | frontend/src/app/page.tsx:121-144 | the results become the settled list for the batch, the flag is lowered whatever the outcome, and the upload list is untouched; the submit button (`SubmitEnabled`) is enabled again exactly when files remain |
| `Converter.OcrConverter.HandleSubmit` | frontend/src/app/page.tsx:100-145 | with no files nothing changes; otherwise one result per file, in file order, the flag down, and every result belonging to a listed file |
| `Converter.OcrConverter.UpdateOcrText` | frontend/src/app/page.tsx:147-151 | the results become the edited list; the files, flag and language are untouched |

## Left out

- The network call, the status check and the JSON decoding (page.tsx:111-121) are replaced by the `Outcome` parameter. An array entry whose `text` is a non-string truthy value (a number, say) is not modelled: entries are either a string or missing.
- `Math.random` id generation (page.tsx:67) is not modelled: the caller supplies the ids. `HandleFileSelect` requires them to be distinct and unused by any file or result, although the page itself does not guarantee this.
- The in-flight flag guards re-submission only through the disabled button (page.tsx:262). `SubmitEnabled` models that condition; `BeginSubmit` does not check it, just as `handleSubmit` does not.
- `SelectLanguage` requires a supported code: the page's setter accepts any string, but the selector only offers the codes of `SUPPORTED_LANGUAGES` (page.tsx:248-252).
- Blob, object-URL and link-click download mechanics (page.tsx:154-166) are I/O. Only the file name computed there is modelled.
- Drag-over state, the file input element and all rendering (page.tsx:79-93, 169-313) are UI.
- `console.error` logging (page.tsx:133) is I/O.
- The Go backend (backend/handlers.go, backend/main.go, backend/ocr.go), the preprocessing script (backend/preprocess.py) and the mock route (frontend/src/app/api/ocr/route.ts) are not part of this model.
