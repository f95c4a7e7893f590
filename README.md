# pdf-annotator: document and annotation store, in Dafny

This project models the core of a web application. Users upload PDFs, annotate them with text highlights and freehand drawings, attach notes, and ask an external generative-text service for a cached summary.

The model covers:

- **Document store** (`backend/src/controllers/pdf.controller.js`, `backend/src/models/pdf.model.js`). A table of PDF records keyed by uuid, with upload, list, rename, delete and file lookup. Every lookup filters on the pair (uuid, caller). A record owned by someone else is therefore "not found". Delete removes the caller's highlights of the PDF first, then the record.
- **Annotation store** (`backend/src/controllers/highlight.controller.js`, `backend/src/models/highlight.model.js`). A highlight collection kept in insertion order. A `drawing` is upserted on its (pdf, user, page, `drawing`) slot, a `text` highlight is appended, and any other type is refused. The collection also has a list operation, filtered by PDF and owner, and a note-only update.
- **Summary cache** (`backend/src/controllers/nlp.controller.js`). The API-key guard runs first. Then come the ownership and text guard, the return of a cached summary, and the prompt truncated to 15000 characters. A successful reply is written to the record once. The service call is an outcome given as a parameter: an answer or a failure.
- **Viewer navigation** (`frontend/src/pages/ViewerPage.jsx`). The `pageNumber`/`numPages` state, the clamping Prev/Next handlers, and the conditions that disable their buttons.
- **Dashboard library** (`frontend/src/pages/DashboardPage.jsx`). The `pdfs`, `file`, `error` and `loading` state, and the fetch, file-change, upload and delete handlers.

Layout:
- `Wrappers.dfy`: `Option`.
- `Http.dfy`: the response `Status` (200, 201, 400, 404, 500) and `Truthy`, JavaScript's falsiness of an optional string.
- `Seqs.dfy`: an order-preserving `Filter` (behind Mongoose `find`/`deleteMany` and `Array.filter`) and `FirstIndex` (behind `findOne`, i.e. the first record matching a filter).
- `PdfModel.dfy` and `HighlightModel.dfy`: the two schemas, with their defaults.
- `Documents.dfy`, `Annotations.dfy` and `Summaries.dfy`: the controllers' logic on values, with the invariants and lemmas.
- `Store.dfy`: class `Database` with the tables as fields and each controller as a method. Its `Valid()` invariant holds four facts:
  - every PDF is stored under its own uuid and satisfies the schema;
  - every highlight refers to a PDF owned by the highlight's own user;
  - highlight ids are unique, and at most one drawing exists per (pdf, user, page);
  - every highlight carries the payload of its kind.

  Every method keeps `Valid()`, and fresh uuids and highlight ids are parameters that must be unused.
- `Viewer.dfy` and `Dashboard.dfy`: the page state as classes.
- `Store.DrawingThenTextOnOnePage` and `Store.SummarizeTwice`: store-level scenarios (two drawing saves and two text saves on one page; two summarise calls) proved from the method contracts alone.

Behaviour of the code worth noting:
- Nothing in the upload code sets `fullText`, so it keeps its default `''` and summarising an uploaded PDF answers 404 (`Summaries.FreshUploadIsNotSummarised`).
- An empty `drawingData` is refused with 400, so a cleared canvas saved as empty stroke data is rejected rather than upserted.
- A PDF without text is answered with 404, not a distinct "precondition failed". A missing API key is answered with 500.
- A file whose original name is empty is refused at save time. Mongoose's `required` validator rejects empty strings, so the answer is 500, not 400.

## Model

| member | source | states |
|---|---|---|
| PdfModel.NewPdf | backend/src/models/pdf.model.js:3-28 | a new record has the given uuid, name, path and owner; `fullText` and `summary` are `''` and there are no key phrases; it passes the schema exactly when uuid, name and path are non-empty |
| HighlightModel.ParseKind | backend/src/models/highlight.model.js:17-21 | the `type` enum accepts exactly `text` and `drawing` |
| HighlightModel.NewText | backend/src/controllers/highlight.controller.js:33-42 | a text record has kind `text`, note `''`, the given content and position, and no drawing data |
| HighlightModel.NewDrawing | backend/src/controllers/highlight.controller.js:20-24 | an inserted drawing has the filter's pdf, user and page, the payload, kind `drawing` and the default note `''` |
| Annotations.FindDrawing | backend/src/controllers/highlight.controller.js:20-21 | finds a record in the (pdf, user, page, drawing) slot when one exists, and none otherwise |
| Annotations.UpsertDrawing | backend/src/controllers/highlight.controller.js:20-24 | the returned record is in the slot and carries the latest payload; an existing first match keeps its position, id and note, and nothing else changes; otherwise one new record is appended |
| Annotations.UpsertLeavesExactlyOne | backend/src/controllers/highlight.controller.js:20-24 | on a collection with unique drawings, the upsert keeps them unique and the returned record is the only one in its slot |
| Annotations.SecondDrawingSaveReplaces | backend/src/controllers/highlight.controller.js:20-24 | two saves on one page: the second rewrites the first's record, which keeps its id and note, adds no record, and holds the second payload |
| Annotations.AtMostOneDrawing | backend/src/controllers/highlight.controller.js:20-24 | under the invariant, two positions holding a drawing for the same slot are the same position |
| Annotations.UpdateKeepsUnique | backend/src/controllers/highlight.controller.js:91-92 | changing a record without touching its id, pdf, user, page or kind keeps ids and drawings unique |
| Annotations.AppendKeepsUnique | backend/src/controllers/highlight.controller.js:42-43 | appending a record with a fresh id, and no taken drawing slot, keeps ids and drawings unique |
| Annotations.ForPdf | backend/src/controllers/highlight.controller.js:68-71 | a record is listed exactly when it is in the collection with that pdf and that user |
| Annotations.RemoveForPdf | backend/src/controllers/pdf.controller.js:60 | a record survives exactly when it is not the caller's record on that pdf |
| Annotations.RemoveKeepsInvariants | backend/src/controllers/pdf.controller.js:60 | deleting by filter keeps ids and drawings unique and records well formed |
| Annotations.FindOwned | backend/src/controllers/highlight.controller.js:85 | finds a record with that id and user, and finds none exactly when no such record exists |
| Documents.Find | backend/src/controllers/pdf.controller.js:49 | the lookup succeeds exactly when a record with that uuid exists and belongs to the caller, and then yields that record |
| Documents.ListFor | backend/src/controllers/pdf.controller.js:39 | every record of the caller appears in the listing, projected |
| Documents.ListShowsOnlyOwn | backend/src/controllers/pdf.controller.js:39 | every listed entry is the projection of one of the caller's records, under its uuid |
| Documents.CascadeKeepsReferences | backend/src/controllers/pdf.controller.js:60-62 | after deleting the highlights, and again after deleting the record, every highlight refers to a PDF its user owns, and none refers to the deleted uuid |
| Documents.RecordFirstWouldOrphan | backend/src/controllers/pdf.controller.js:60-62 | deleting the record while a highlight of it remains would leave that highlight dangling |
| Documents.InsertKeepsReferences | backend/src/controllers/pdf.controller.js:22 | inserting a record under a fresh uuid breaks no reference |
| Documents.UpdateKeepsReferences | backend/src/controllers/pdf.controller.js:79-83 | replacing a record by one with the same owner breaks no reference |
| Summaries.Truncate | backend/src/controllers/nlp.controller.js:22 | the result is a prefix of the text with at most 15000 characters: the whole text when it is short enough, otherwise exactly 15000 characters |
| Summaries.Prompt | backend/src/controllers/nlp.controller.js:22 | the prompt is the instruction followed by a prefix of the text, at most 15000 characters longer than the instruction |
| Summaries.Respond | backend/src/controllers/nlp.controller.js:12-57 | covers every outcome of the request: a missing or unowned record, or one without text, is 404; a cached summary is returned with its key phrases; the service is called exactly when nothing is cached; an answer is saved and returned; a failure is 500 and changes nothing |
| Summaries.SecondCallIsCached | backend/src/controllers/nlp.controller.js:17-51 | after a call that stored a non-empty summary, a later call makes no service call, writes nothing and answers the same body |
| Summaries.FreshUploadIsNotSummarised | backend/src/controllers/nlp.controller.js:13-15 | a record as upload creates it has no text, so summarising it is 404 |
| Store.Database.UploadPdf | backend/src/controllers/pdf.controller.js:9-34 | no file gives 400 and no change; an empty name gives 500 and no change; otherwise 201, exactly one new record under the fresh uuid, owned by the caller, and the body exposes only uuid and name |
| Store.Database.GetUserPdfs | backend/src/controllers/pdf.controller.js:37-44 | answers 200 with exactly the caller's records, projected to uuid, name and creation time |
| Store.Database.DeletePdf | backend/src/controllers/pdf.controller.js:47-69 | an unowned uuid gives 404 and no change; otherwise the caller's highlights of the PDF and then the record are removed, whatever the unlink did, and no highlight is left on that uuid |
| Store.Database.RenamePdf | backend/src/controllers/pdf.controller.js:72-93 | an empty name gives 400 before the lookup; an unowned uuid gives 404; otherwise only the name changes and the updated record is returned |
| Store.Database.GetPdfFile | backend/src/controllers/pdf.controller.js:96-108 | 404 exactly when the caller owns no record with that uuid, otherwise the stored path |
| Store.Database.CreateHighlight | backend/src/controllers/highlight.controller.js:5-55 | the ownership check comes first (404); a drawing without data, a text without content or position, or an unknown type gives 400 and no change; a drawing is upserted (200), ending as the only record in its slot; a text highlight is appended (201); the tables are never changed otherwise |
| Store.Database.GetHighlights | backend/src/controllers/highlight.controller.js:58-77 | 404 exactly when the caller does not own the PDF; otherwise exactly the caller's records on it, in collection order |
| Store.Database.UpdateHighlightNote | backend/src/controllers/highlight.controller.js:80-98 | 404 exactly when the caller owns no record with that id; otherwise only that record's note changes, even to `''` |
| Store.Database.SummarizePdf | backend/src/controllers/nlp.controller.js:3-58 | a missing key gives 500 before any lookup, with no change; otherwise it answers as `Summaries.Respond` does on the caller's record and saves only its answer |
| Viewer.PrevPage | frontend/src/pages/ViewerPage.jsx:29 | never below 1, one page back above page 1, page 1 otherwise |
| Viewer.NextPage | frontend/src/pages/ViewerPage.jsx:30 | never above the page count, one page forward below it, the last page otherwise |
| Viewer.NavigationStaysInRange | frontend/src/pages/ViewerPage.jsx:29-30 | with at least one page, both handlers keep 1 <= page <= numPages |
| Viewer.PrevDisabledIffNoOp | frontend/src/pages/ViewerPage.jsx:41 | from page 1 upwards, Prev is disabled exactly when clicking it would leave the page unchanged |
| Viewer.NextDisabledIffNoOp | frontend/src/pages/ViewerPage.jsx:43 | up to the last page, Next is disabled exactly when clicking it would leave the page unchanged |
| Viewer.PageNavigator.constructor | frontend/src/pages/ViewerPage.jsx:16-17 | starts on page 1 with no page count, both buttons disabled |
| Viewer.PageNavigator.OnDocumentLoadSuccess | frontend/src/pages/ViewerPage.jsx:24-27 | records the page count and resets to page 1, which is in range for a document with pages |
| Viewer.PageNavigator.GoToPrevPage | frontend/src/pages/ViewerPage.jsx:29 | moves by the clamp, keeps the range, and is a no-op exactly when the button was disabled |
| Viewer.PageNavigator.GoToNextPage | frontend/src/pages/ViewerPage.jsx:30 | moves by the clamp against the page count (null counts as 0), keeps the range, and is a no-op exactly when the button was disabled |
| Dashboard.WithoutUuid | frontend/src/pages/DashboardPage.jsx:53 | an entry remains exactly when it was in the list and has another uuid |
| Dashboard.WithoutUuidKeepsOrder | frontend/src/pages/DashboardPage.jsx:53 | filtering a split list is filtering each part, so the remaining entries keep their order |
| Dashboard.WithoutAbsentUuid | frontend/src/pages/DashboardPage.jsx:53 | a list without the uuid is left exactly as it was |
| Dashboard.Library.constructor | frontend/src/pages/DashboardPage.jsx:7-10 | an empty list, no file, no error, loading |
| Dashboard.Library.FetchPdfs | frontend/src/pages/DashboardPage.jsx:13-24 | success replaces the list and clears the error; failure keeps the list and sets the error; loading ends false either way |
| Dashboard.Library.HandleFileChange | frontend/src/pages/DashboardPage.jsx:30-32 | the selected file becomes the state's file, nothing else changes |
| Dashboard.Library.HandleUpload | frontend/src/pages/DashboardPage.jsx:34-47 | the upload is sent exactly when the button is enabled; without a file only the "select a file" error is set; success clears the file and refetches; failure sets the upload error |
| Dashboard.Library.HandleDelete | frontend/src/pages/DashboardPage.jsx:49-58 | the delete is sent exactly when confirmed; success removes exactly the entries with that uuid; decline or failure keeps the list, and failure sets the delete error |

## Left out

- Store.Database.GetUserPdfs: returns a set, so it does not model the order of `find`'s result, or the Mongo `_id` that the projection also includes.
- File system work: `fs.unlink` is only a parameter of `DeletePdf`, whose outcome is logged and changes nothing. `res.sendFile` becomes returning the stored path. The multer disk storage, with its clock- and random-based file names, becomes the `UploadedFile` given to `UploadPdf`.
- The generative-text service: the HTTP call, the request payload and the JSON parsing of the reply are one `Reply` outcome, an answer or a failure.
- The API key's source in the process environment: the key is a parameter.
- Clock and identities: fresh uuids, fresh highlight ids and creation times are parameters. `updatedAt` timestamps are not modelled.
- Storage failures other than the required-field check on upload: failed saves, cast errors on malformed ids, and the lost connection that the `catch` blocks turn into 500. In `deletePdf` the deletions and the response run in the unlink callback, outside the `try`, so a failure there is not answered with 500: the rejection goes unhandled and no response is sent.
- Request bodies are typed. A field sent with another JSON type, such as `content` as a string, is not modelled. The same goes for a missing `pageNumber` (the schema's required check) and a missing `note` in a note update.
- String lengths count Dafny characters; JavaScript's `substring` counts UTF-16 code units.
- Concurrency: each request and each UI handler runs atomically and in sequence. This covers the races between two concurrent drawing upserts and the intermediate `loading` state while a fetch is pending. The refetch after an upload is not awaited in the source; here it completes inside the handler.
- Express wiring, routes, and whether an operation is reachable from them. `updateHighlightNote` has no route, and the summarise route is not mounted.
- Text extraction: nothing in the code sets `fullText`.
- Zoom in the viewer: floating-point scale steps.
- Authentication, the HTTP client wrappers and routing on the frontend.
- All rendering, including the reset of the file input's DOM value after an upload.
