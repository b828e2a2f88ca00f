# Sendzy file lifecycle — a Dafny model

Sendzy lets a signed-in user upload a file, share a public link `/d/<unique_id>`, list their own files and delete them. The logic that can be stated precisely is in three components. The model has one module for each, plus one for the size label the three share:

- **The owner's file list** (`FilesList`). A file has two halves. Its blob lives in the content store (the `file_uploads` bucket, keyed by `file_path`). Its row lives in the metadata table (`files`, keyed by `id`). The class `FilesPanel` holds both stores, the component's local `files` list and a log of the write requests it sends.
  - `HandleDelete` removes the blob first. It deletes the row, by `id` alone, only after the blob removal succeeds. It filters the local list only after both succeed.
  - The two remote answers are boolean inputs, so every failure path is covered.
  - The pure transition `Delete` specifies the method. Lemmas about `Delete` prove the permitted inconsistency direction: a row may outlive its blob, but a blob never outlives its row. They also prove that retrying after a failed row delete completes the delete, and that deleting twice is deleting once.
  - `FetchFiles` states the list query as an abstract contract on the table (`OwnerListing`): the owner's rows, each once, newest `created_at` first. `NewestFirst` shows the contract can always be met.
  - Share links are `origin + "/d/" + unique_id` and can be parsed back. They depend on the public `unique_id` only, never on the internal `id`.
- **The download page** (`Download`). The lookup is a stand-in: any truthy `fileId` yields a fixed demonstration record, and anything else gives "File not found". The download anchor falls back to the name `download`. `HandleDownload` may modify nothing, so it touches no store and counts no download.
- **The byte-count label** (`SizeFormat`). `formatFileSize` appears three times, character for character the same. It divides by 1024 or 1048576 and calls `toFixed(1)`.
  - For integer byte counts below 2^53 these divisions are exact in IEEE doubles. The model therefore divides exactly, as Dafny reals.
  - It follows the `toFixed` algorithm of section 21.1.3.3 of ECMA-262: the integer n with n/10 nearest the value, the larger one on a tie.
  - It then proves that the label is plain integer arithmetic: `floor((10b + 512) / 1024)` tenths of a KB, or `floor((10b + 524288) / 1048576)` tenths of an MB.
  - Boundary behaviour follows from that. 1280 bytes is a tie and shows "1.3 KB". Every count from 1048525 to 1048575 shows "1024.0 KB", never "1.0 MB".
- **The upload summary** (`UploadSuccess`): `name (size label)`.

Quirks of the code that the model keeps as they are:
- `fetchFiles` without a user returns before clearing `loading`, so the spinner stays.
- A successful `fetchFiles` or `fetchFileDetails` does not clear an earlier error.
- An empty `file_path` skips the storage step, as JavaScript truthiness does.
- `#${fileId}` prints `#undefined` when the route parameter is absent.
- The demonstration record of Download.tsx:38 is commented as 2.5 MB, but its 2500000 bytes divided by 1048576 show "2.4 MB" (`Download.SizeLabels`).

## Model

| member | source | states |
|---|---|---|
| `SizeFormat.Decimal` | src/components/FilesList/FilesList.tsx:137 | the printed count is all digits, has no leading zero, and is one digit exactly for counts below 10 |
| `SizeFormat.DecimalRoundTrip` | src/components/FilesList/FilesList.tsx:137 | reading the printed digits back gives the byte count |
| `SizeFormat.DecimalInjective` | src/components/FilesList/FilesList.tsx:137 | different counts print differently |
| `SizeFormat.ToFixedChoiceUnique` | src/components/FilesList/FilesList.tsx:138-139 | at most one integer meets toFixed's nearest-tenths-ties-larger rule |
| `SizeFormat.RoundHalfUpIsChoice` | src/components/FilesList/FilesList.tsx:138-139 | rounding half up to tenths meets toFixed's choice rule for every real |
| `SizeFormat.RoundTenths` | src/components/FilesList/FilesList.tsx:138-139 | the tenths toFixed(1) prints for a non-negative value are nearest to it, the larger on a tie |
| `SizeFormat.ToFixedDigits` | src/components/FilesList/FilesList.tsx:138-139 | toFixed's digit, padding and point steps for n tenths give the integer part of n/10, a point, and the last digit of n |
| `SizeFormat.ToFixed1` | src/components/FilesList/FilesList.tsx:138-139 | toFixed(1) of a non-negative value writes out, as integer part, point and digit, the tenths that are nearest to it, ties to the larger |
| `SizeFormat.ToFixed1ReadBack` | src/components/FilesList/FilesList.tsx:138-139 | what toFixed(1) prints is digits, a point and one digit, and it reads back as the integer toFixed's choice rule picks |
| `SizeFormat.TenthsInjective` | src/components/FilesList/FilesList.tsx:138-139 | different tenths counts print differently |
| `SizeFormat.ExactTenths` | src/components/FilesList/FilesList.tsx:138-139 | exact division of a byte count by an even unit d, rounded by toFixed(1), is floor((10b + d/2)/d) tenths |
| `SizeFormat.FormatFileSize` | src/components/FilesList/FilesList.tsx:136-140 | the label is the count's digits and " bytes" below 1024, floor((10b + 512)/1024) tenths and " KB" below 1048576, and floor((10b + 524288)/1048576) tenths and " MB" from there on |
| `SizeFormat.BytesLabel` | src/components/FileUpload/FileUploadSuccess.tsx:37 | below 1024 the label is the count's digits, which read back to the count, then " bytes" |
| `SizeFormat.KilobyteTenths` | src/components/FileUpload/FileUploadSuccess.tsx:38 | (b / 1024).toFixed(1) is floor((10b + 512)/1024) tenths |
| `SizeFormat.MegabyteTenths` | src/components/FileUpload/FileUploadSuccess.tsx:39 | (b / 1048576).toFixed(1) is floor((10b + 524288)/1048576) tenths |
| `SizeFormat.KilobyteLabel` | src/components/FileUpload/FileUploadSuccess.tsx:38 | a KB label reads "1024.0 KB" exactly for 10240 tenths, and is never "1.0 MB" |
| `SizeFormat.KilobyteCeiling` | src/components/FileUpload/FileUploadSuccess.tsx:38-39 | within the KB range the label is "1024.0 KB" exactly when b >= 1048525, and never "1.0 MB" |
| `SizeFormat.BytesExamples` | src/pages/Download.tsx:80 | 0 is "0 bytes" and 1023 is "1023 bytes" |
| `SizeFormat.KilobyteExamples` | src/pages/Download.tsx:81 | 1024 is "1.0 KB", and the tie 1280 rounds up to "1.3 KB" |
| `SizeFormat.OneMegabyte` | src/pages/Download.tsx:82 | "1.0 MB" is shown exactly for counts 1048576 to 1101004 |
| `FilesList.Without` | src/components/FilesList/FilesList.tsx:114 | the filtered list holds no entry with the id, and keeps every other entry of the old list |
| `FilesList.WithoutConcat` | src/components/FilesList/FilesList.tsx:114 | filtering a concatenation filters each part |
| `FilesList.WithoutNoMatch` | src/components/FilesList/FilesList.tsx:114 | a list without that id is returned unchanged |
| `FilesList.WithoutIdempotent` | src/components/FilesList/FilesList.tsx:114 | filtering twice by one id is filtering once |
| `FilesList.WithoutKeepsOrder` | src/components/FilesList/FilesList.tsx:114 | entries that survive the filter keep their relative order |
| `FilesList.Delete` | src/components/FilesList/FilesList.tsx:79-128 | success iff signed in, blob step skipped or succeeded, and row delete succeeded; without a user nothing is sent or changed; an empty path sends only the row delete and keeps every blob; a failure leaves table and list unchanged; a storage failure changes nothing and sends no row delete; once signed in and past the storage step the row delete is always sent, and sent last; with a non-empty path that passes, the log is exactly the blob removal then the row delete, and the blob is gone; a deleted row never leaves its blob behind |
| `FilesList.DeleteIgnoresOwner` | src/components/FilesList/FilesList.tsx:102-105 | changing the owner of the row changes nothing about the delete's requests, outcome or effect: there is no ownership check on the client |
| `FilesList.DeleteKeepsNoOrphanBlob` | src/components/FilesList/FilesList.tsx:86-110 | a delete for a row with that row's own path keeps "every blob has a row" whatever the stores answer, and keeps the table keyed by id |
| `FilesList.OrphanRowWindow` | src/components/FilesList/FilesList.tsx:102-110 | blob removed but row delete failed: the blob is gone, the row and the list remain, both requests were sent |
| `FilesList.RetryAfterOrphanRow` | src/components/FilesList/FilesList.tsx:79-114 | retrying after an orphan row succeeds and leaves the stores as one successful delete would |
| `FilesList.DeleteTwice` | src/components/FilesList/FilesList.tsx:102-114 | a second successful delete of the same file changes nothing more |
| `FilesList.OwnerRows` | src/components/FilesList/FilesList.tsx:47 | a row is the owner's exactly when it is in the table with that user_id |
| `FilesList.NewestFirst` | src/components/FilesList/FilesList.tsx:48 | the reference ordering lists each given row once, nothing else, newest created_at first |
| `FilesList.OwnerListingExists` | src/components/FilesList/FilesList.tsx:44-48 | the query contract (the owner's rows, each once, newest first) can be met for every table |
| `FilesList.FetchErrorMessage` | src/components/FilesList/FilesList.tsx:55 | the recorded error is the query's message when non-empty, else "Failed to load files", and is never empty |
| `FilesList.ViewPath` | src/components/FilesList/FilesList.tsx:132 | the view path is "/d/" followed by the unique_id, which reads back from it |
| `FilesList.ShareLink` | src/components/FilesList/FilesList.tsx:71 | the share link is the origin, then "/d/", then the unique_id, each of which reads back from it |
| `FilesList.RowShareLink` | src/components/FilesList/FilesList.tsx:199 | a list entry's copied link starts with the origin and parses back to the entry's unique_id |
| `FilesList.LinkPublicId` | src/components/FilesList/FilesList.tsx:71 | a parsed public id rebuilds the very link it came from |
| `FilesList.ShareLinkRoundTrip` | src/components/FilesList/FilesList.tsx:70-71 | the share link origin + "/d/" + unique_id parses back to that unique_id |
| `FilesList.RowShareLinkUsesPublicId` | src/components/FilesList/FilesList.tsx:130-132 | a row's link is origin + the view path "/d/" + unique_id; two rows share a link iff their unique_ids agree, whatever their ids |
| `FilesList.FilesPanel.constructor` | src/components/FilesList/FilesList.tsx:33-35 | a new list over a table keyed by id is empty, loading, without error, over the given stores |
| `FilesList.FilesPanel.RemoveFromStorage` | src/components/FilesList/FilesList.tsx:89-91 | the removal request is logged; on success the blob at the path is gone; nothing else changes |
| `FilesList.FilesPanel.DeleteFromTable` | src/components/FilesList/FilesList.tsx:102-105 | the row delete request is logged; on success the row with that id is gone; nothing else changes; the table stays keyed by id |
| `FilesList.FilesPanel.HandleDelete` | src/components/FilesList/FilesList.tsx:79-128 | the new stores, list, request log and outcome are exactly those of Delete; loading and error are untouched; the table stays keyed by id |
| `FilesList.FilesPanel.FetchFiles` | src/components/FilesList/FilesList.tsx:37-64 | without a user nothing changes; otherwise loading ends; rows (null as empty) replace the list and keep the old error; an error keeps the list and records its message; an answer meeting the query contract is what the list shows; the table stays keyed by id |
| `Download.LookUp` | src/pages/Download.tsx:33-45 | a truthy fileId gives the record with that id, "example-document.pdf", 2500000 bytes, "application/pdf"; otherwise exactly "File not found" |
| `Download.AfterFetch` | src/pages/Download.tsx:26-56 | loading ends; a truthy id sets the whole demonstration record (that id, "example-document.pdf", 2500000 bytes, "application/pdf") and keeps the error; a miss sets "File not found" and leaves the file as it was |
| `Download.DownloadName` | src/pages/Download.tsx:72 | the file's name when there is a file with a non-empty name; otherwise, for a missing file or an empty name, exactly "download" |
| `Download.SizeLabel` | src/pages/Download.tsx:117 | no file, like an empty one, is labelled "0 bytes"; a file gets its own size's label |
| `Download.Href` | src/pages/Download.tsx:71 | the href is "#" followed by the fileId, or by "undefined" when there is none |
| `Download.Render` | src/pages/Download.tsx:90-118 | the spinner exactly while loading; else the error panel exactly when the error is non-empty, with that message; else the file panel with the file's name (empty without a file) and its size label |
| `Download.SizeLabels` | src/pages/Download.tsx:117 | the demonstration record is labelled "2.4 MB" and a missing file "0 bytes" |
| `Download.FreshPageScreen` | src/pages/Download.tsx:90-118 | a new page ends showing example-document.pdf at 2.4 MB for a truthy id, and "File not found" otherwise |
| `Download.EarlierErrorStays` | src/pages/Download.tsx:42-45 | a successful lookup after a miss still shows the error panel |
| `Download.DownloadPage.constructor` | src/pages/Download.tsx:18-21 | a new page is loading, with no file and no error |
| `Download.DownloadPage.FetchFileDetails` | src/pages/Download.tsx:26-56 | the new page state is AfterFetch of the old one |
| `Download.DownloadPage.HandleDownload` | src/pages/Download.tsx:61-76 | the anchor points at "#" + fileId and is named after the file, or "download" when there is no file or its name is empty; nothing is modified |
| `UploadSuccess.Summary` | src/components/FileUpload/FileUploadSuccess.tsx:61 | the summary begins with the name, then " (", the size label, and ")", so name and label read back from it |
| `UploadSuccess.SummaryExamples` | src/components/FileUpload/FileUploadSuccess.tsx:61 | "a.txt" of 10 bytes reads "a.txt (10 bytes)" |
| `UploadSuccess.SummaryTie` | src/components/FileUpload/FileUploadSuccess.tsx:61 | "photo.png" of 1280 bytes, a rounding tie, reads "photo.png (1.3 KB)" |

## Left out

- The backend client calls are not modelled as code. Storage removal, row delete and the list query are external services. Their answers are inputs: a success flag, or a query response.
- A removal of a path that holds no blob is treated as a success. Row-level security rules that silently delete no row are not modelled.
- Toasts, `console` logging, the clipboard, `window.open`, DOM anchor creation, React hooks and re-render timing are UI and I/O. `HandleDelete` filters the current list, so the stale closure at FilesList.tsx:114 is not modelled.
- `formatDate` is not modelled. It depends on the locale and the clock.
- `created_at` is modelled as an integer timestamp, not as an ISO string. The order the query gives rows with equal timestamps is, as in the database, left open.
- The three copies of `formatFileSize` are textually identical. `SizeFormat.FormatFileSize` is the one definition for all three, so their equality holds by construction.
- SizeFormat.FormatFileSize: byte counts are unbounded naturals divided exactly. The model does not capture that JavaScript rounds counts of 2^53 and above, nor that `toFixed` uses exponent notation from 10^21 on. Negative and NaN sizes are not modelled. No real file reaches any of these.
- `fetchFileDetails`' catch branch ("Failed to load file information", Download.tsx:46-52) is not modelled. Nothing in its try block can throw.
- `handleCopyLink` in FileUploadSuccess.tsx is not modelled. It is clipboard and timer UI.
- FileUpload.tsx is not part of this model: its upload is a mock built from timers, float accumulation and `Date.now()` ids. As written, a zero-byte file yields NaN progress, so its interval never stops. Its link uses `/download/`, not `/d/`.
- AuthContext.tsx is not part of this model. The signed-in user enters as an optional user id parameter.
- The routing and rendering-only components are not modelled.
- Download counting, public-id lookup and concurrent delete and download are not modelled. The code does not implement them: the download page is a mock.
- FilesList.FilesPanel.FetchFiles: proves the owner-listing property only for a response that meets the query contract. The ordering and filtering are done by the database, not by this code.
