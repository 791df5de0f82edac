# Upload dashboard file list and statistics

A Dafny model of the two client components of the upload dashboard that
show a user's uploaded files:

- `FileList` (`components/upload/file-list.tsx`) holds the list of file
  records, the record whose download or delete is in progress (`loading`),
  the last delete error (`error`) and the category filter. Its delete handler
  asks for confirmation, removes the stored object, removes the companion PDF
  of a derived text file (a plain-text file kept under `/text/`, extracted
  from a PDF kept under `/pdfs/`), deletes the table row, and only then drops
  the record from the list. A failed object removal or row delete, and any
  rejected call, ends in `error`; a failed companion removal is only logged.
  Once confirmed, `loading` is cleared at the end.
- `FileStats` (`components/upload/file-stats.tsx`) computes four figures
  and shows three of them: the total (computed but not shown), the number of
  records whose media type contains "pdf", the number whose media type
  contains "audio", and the number created in the last seven days.

Module layout:

- `Wrappers` holds `Option`.
- `Text` holds the JavaScript string operations the components use:
  `includes` and `replace` with a string pattern (which rewrites only the
  first occurrence), both built on the first-occurrence search that
  `indexOf` exposes.
- `Lists` holds `Array.prototype.filter` as a function on sequences, with its
  laws.
- `FileData` holds the file record.
- `FileList` holds the filter, the companion path, the delete protocol as
  functions, and the component and its backend as classes.
- `FileStats` holds the dashboard figures.

The Supabase client is the class `FileList.Backend`. It has a set of stored
object paths and a map from row id to record. How each store call ends is a
parameter (`Outcome`):

- `Ok`: resolved without an error.
- `Failed`: resolved with an `error`.
- `Threw(m)`: the promise was rejected. `m` is the message if the thrown value
  is an `Error`, and `None` otherwise.

The browser's confirmation dialog is the parameter `confirmed`. The current
time is the parameter `now`, in milliseconds, and so is each `created_at`.

The view keeps a ghost log `requests` of every store request it has made,
paired with the value of `loading` while that request was in flight. This
lets the contracts state that the busy indicator shows the record during
every call of a delete or download.

Notes on the components' own behaviour:

- `pdfCount` counts only media types that contain "pdf", so a "text/plain"
  record is in neither figure (`FileStats.ThreeTypesExample`).
- The code maps a derived text path to its PDF path: it replaces the first
  "/text/" with "/pdfs/" and then the first ".txt" with ".pdf". It has no
  reverse mapping.
- A companion removal that resolves with an error is only a warning. One that
  throws is inside the `try` block, so it aborts the delete before the row is
  deleted (`FileList.DeleteReport`, `FileList.DeleteRequests`).
- Declining the confirmation returns before the `try`/`finally`, so `loading`
  is left as it was rather than cleared.
- The UI has buttons only for "all" and "txt". The "audio" category exists in
  the filter's type and predicate, and the model keeps it.

## Model

| member | source | states |
|---|---|---|
| Text.IndexFrom | components/upload/file-list.tsx:83 | the search `includes` and `replace` perform, from a start index: a match at or after `from` is a real occurrence with no earlier one from `from` on; `None` means no occurrence from `from` on |
| Text.IndexOf | components/upload/file-list.tsx:83 | the search `includes` and `replace` perform: the result is the first occurrence, and `None` exactly when the pattern occurs nowhere |
| Text.Contains | components/upload/file-list.tsx:31-32 | `includes`: the pattern has a first occurrence |
| Text.ContainsIff | components/upload/file-list.tsx:31-32 | `includes` holds exactly when the pattern occurs at some index |
| Text.ContainsAt | components/upload/file-list.tsx:83 | an occurrence at a known index makes `includes` true |
| Text.NotContainsMissingChar | components/upload/file-list.tsx:31-32 | a pattern with a character the string lacks is not included |
| Text.FirstOccurrence | components/upload/file-list.tsx:85-87 | an occurrence with no earlier copy of the pattern's first character is the one the search finds |
| Text.ReplaceFirst | components/upload/file-list.tsx:85-87 | `replace` with a string pattern: unchanged when the pattern is absent, otherwise the length shifts by the length difference and the replacement is present |
| Text.ReplaceFirstAt | components/upload/file-list.tsx:85-87 | replacing keeps everything before the first occurrence and everything after it, with the replacement in its place |
| Text.ReplaceFirstAfter | components/upload/file-list.tsx:85-87 | in `head + pat + rest`, where `head` lacks the pattern's first character, only that occurrence is replaced |
| Text.FirstOccurrenceOf | components/upload/file-list.tsx:85-87 | an occurrence with no earlier occurrence is the one the search finds |
| Text.ReplaceFirstAfterFree | components/upload/file-list.tsx:87 | in `head + pat + rest`, where `head` does not contain `pat` and the pattern's first character does not recur in it, only the occurrence after `head` is replaced |
| Text.ReplaceKeepsDisjoint | components/upload/file-list.tsx:86-87 | a same-length replacement whose pattern shares no character with `u` leaves an occurrence of `u` in place |
| Lists.Filter | components/upload/file-list.tsx:29-34 | `Array.filter`: the result is a subsequence, holds exactly the elements that pass, and is the input itself when every element passes |
| Lists.FilterMultiset | components/upload/file-list.tsx:109 | each passing element keeps its multiplicity and each failing one has none |
| Lists.FilterConcat | components/upload/file-stats.tsx:13-22 | filtering distributes over concatenation |
| Lists.FilterWeaker | components/upload/file-stats.tsx:17-22 | a weaker predicate keeps at least as many elements |
| Lists.PositionsSnoc | components/upload/file-stats.tsx:13-22 | one more element adds its index to the passing positions exactly when it passes |
| Lists.FilterSnoc | components/upload/file-stats.tsx:13-22 | filtering a list with one more element appends that element exactly when it passes |
| Lists.FilterLengthCountsIndices | components/upload/file-stats.tsx:13-22 | a filter's length is the number of indices whose element passes |
| FileList.Keeps | components/upload/file-list.tsx:30-33 | the filter's switch: "all" keeps every record, "txt" those of type "text/plain" or whose type contains "pdf", "audio" those whose type contains "audio" |
| FileList.FilteredFiles | components/upload/file-list.tsx:29-34 | `filteredFiles`: "all" shows the list unchanged; "txt" shows exactly the "text/plain" records and those whose type contains "pdf"; "audio" shows exactly those whose type contains "audio"; the order is kept and so is each kept record's multiplicity |
| FileList.WithoutId | components/upload/file-list.tsx:109 | the list after a delete: exactly the entries with another id, in order and with their multiplicities; unchanged when no entry has the id |
| FileList.IsDerivedText | components/upload/file-list.tsx:81-84 | the companion condition: type "text/plain" and a path containing "/text/" |
| FileList.CompanionPath | components/upload/file-list.tsx:85-87 | the companion path has the same length, and equals the path when it has neither "/text/" nor ".txt" |
| FileList.ExtensionAvoidsPdfs | components/upload/file-list.tsx:86-87 | no character of ".txt" occurs in "/pdfs/" |
| FileList.CompanionPathInPdfs | components/upload/file-list.tsx:81-87 | for a path under "/text/", the companion has "/pdfs/" where the first "/text/" was, even after the extension rewrite |
| FileList.CompanionPathOfTextPath | components/upload/file-list.tsx:85-87 | `owner/text/name.txt` + rest maps to `owner/pdfs/name.pdf` + rest whenever the owner has no "/" and ".txt" first occurs after `name`; only that ".txt" changes |
| FileList.CompanionPathDottedName | components/upload/file-list.tsx:85-87 | a dot inside the name is kept: `u/text/a.b.txt` pairs with `u/pdfs/a.b.pdf` |
| FileList.CaughtMessage | components/upload/file-list.tsx:115 | the catch block's message: the `Error`'s own message, otherwise "Failed to delete file" |
| FileList.DeleteRequests | components/upload/file-list.tsx:71-107 | a confirmed delete first removes the object; nothing follows a failed removal; it makes exactly one, two or three requests; the companion removal comes second exactly for a derived text file; the row delete comes last exactly when the object removal succeeded and no companion removal threw |
| FileList.DeleteReport | components/upload/file-list.tsx:76-116 | the error is cleared exactly when the object removal and row delete succeed and no companion removal threw; the two fixed messages for the resolved errors; the thrown message, or "Failed to delete file" for a non-`Error`, otherwise |
| FileList.CompanionErrorOnlyWarns | components/upload/file-list.tsx:93-95 | a companion removal that resolves with an error changes neither the requests nor the outcome |
| FileList.Backend.constructor | components/upload/file-list.tsx:25 | the backend starts with the given objects and rows |
| FileList.Backend.Remove | components/upload/file-list.tsx:72-74 | a successful removal drops exactly the given paths; otherwise the bucket is unchanged; the table never changes |
| FileList.Backend.Delete | components/upload/file-list.tsx:99-102 | a successful delete drops exactly the row with the id; otherwise the table is unchanged; the bucket never changes |
| FileList.FileListView.constructor | components/upload/file-list.tsx:22-27 | the list starts as the initial records, with nothing loading, no error and the "all" filter |
| FileList.FileListView.SetCategory | components/upload/file-list.tsx:135-146 | choosing a filter changes only the category |
| FileList.FileListView.HandleDownload | components/upload/file-list.tsx:40-62 | one download request is made while `loading` shows the record; afterwards `loading` is cleared and the list, error and filter are unchanged, whatever the outcome |
| FileList.FileListView.HandleDelete | components/upload/file-list.tsx:64-121 | declined: nothing changes. Confirmed: `loading` shows the record during every request and ends cleared; the requests and the error are `DeleteRequests` and `DeleteReport`; the record leaves the list and the table only on full success; the object and companion go exactly when their removals succeed; a record never leaves the list or the table while its object remains |
| FileList.FileListView.DeleteSteps | components/upload/file-list.tsx:71-107 | the `try` block: the thrown message is `DeleteReport`, the log is `DeleteRequests` marked busy, and the bucket and table change as each outcome says |
| FileList.FileListView.RemoveObject | components/upload/file-list.tsx:72-91 | removing one object logs one request with the current `loading`, and drops the path exactly on success |
| FileList.FileListView.DeleteRecord | components/upload/file-list.tsx:99-102 | deleting one row logs one request with the current `loading`, and drops the row exactly on success |
| FileStats.IsPdf | components/upload/file-stats.tsx:13 | the media type contains "pdf" |
| FileStats.IsAudio | components/upload/file-stats.tsx:14 | the media type contains "audio" |
| FileStats.IsRecent | components/upload/file-stats.tsx:18-21 | created no earlier than one week before `now` |
| FileStats.PdfCount | components/upload/file-stats.tsx:13 | `pdfCount` is the number of positions whose media type contains "pdf", at most the total |
| FileStats.AudioCount | components/upload/file-stats.tsx:14 | `audioCount` is the number of positions whose media type contains "audio", at most the total |
| FileStats.RecentCount | components/upload/file-stats.tsx:17-22 | `recentFiles` is the number of positions created no earlier than a week before `now`, at most the total |
| FileStats.FileStatsOf | components/upload/file-stats.tsx:12-22 | `totalFiles` is the list length, and every other figure is at most it |
| FileStats.CountsConcat | components/upload/file-stats.tsx:13-22 | every figure of a concatenation is the sum of the figures of its parts |
| FileStats.PdfCountAppend | components/upload/file-stats.tsx:13 | one more record adds one to `pdfCount` exactly when its type contains "pdf" |
| FileStats.AudioCountAppend | components/upload/file-stats.tsx:14 | one more record adds one to `audioCount` exactly when its type contains "audio" |
| FileStats.RecentCountAppend | components/upload/file-stats.tsx:17-22 | one more record adds one to `recentFiles` exactly when it is recent |
| FileStats.PlainTextNotCounted | components/upload/file-stats.tsx:13-14 | a "text/plain" record is counted neither as a PDF nor as audio |
| FileStats.PdfTypeCounted | components/upload/file-stats.tsx:13-14 | an "application/pdf" record is a PDF and not audio |
| FileStats.AudioTypeCounted | components/upload/file-stats.tsx:13-14 | an "audio/mpeg" record is audio and not a PDF |
| FileStats.ThreeTypesExample | components/upload/file-stats.tsx:12-14 | a PDF, an audio file and a text file give total 3, PDF 1 and audio 1 |
| FileStats.RecentCountMonotone | components/upload/file-stats.tsx:17-22 | as `now` advances, `recentFiles` can only fall |
| FileStats.RecentExample | components/upload/file-stats.tsx:17-22 | records from 0, 3, 7 and 8 days ago give 3 recent files; the one-week bound is inclusive |

## Left out

- Rendering is not modelled: the JSX, `FilterButton`, `StatCard`, the icons, `formatDate`, and the file-count caption.
- Router calls (`router.refresh`, navigation) are not modelled. They change `files` only through the `useEffect` below, which is not modelled.
- Console logging is not modelled. It has no effect on the state.
- The `useEffect` that resets `files` when `initialFiles` changes is not modelled. That is a re-render by the parent; the constructor models the initial value.
- The download is not modelled beyond its state effects: the blob, the object URL and the temporary link are browser side effects. `FileList.FileListView.HandleDownload` takes the outcome but ignores it, as `handleDownload` only logs a failure.
- Concurrency is not modelled: two handlers cannot interleave in the model, and the React state updates are applied in order.
- The Supabase client's internals are not modelled, including how it reports an already-missing object. A `Threw` outcome is modelled as leaving the store unchanged.
- `$` patterns in the replacement string of `replace` are not modelled. The replacements "/pdfs/" and ".pdf" contain none.
- Strings are sequences of `char`. UTF-16 surrogate pairs are not modelled.
- FileStats.RecentCount: dates are integer milliseconds and the window is exactly 604800000 ms. The calendar arithmetic of `setDate`, including daylight-saving shifts, is not modelled. `created_at` parsing is not modelled either, so an unparsable date (which compares as never recent) has no counterpart. The code reads the clock once per record; the model compares every record against one `now`.
- FileList.FileListView.HandleDelete: the intermediate `setError(null)` is not observable after the handler, so only the final `error` is stated.
- The text of the confirmation dialog is not modelled; only the user's answer is.
- Deleting a derived text file leaves the companion PDF's own table row, if it has one, in place: `HandleDelete` removes only the row `file.id`.
