# Report upload page, modelled in Dafny

This project models the report-upload page of a nutrition tracking web app
(`ReportUpload`, in `frontend/src/pages/UploadReport.jsx`). A signed-in user
picks a photo of a nutrition report and may type allergy notes. Pressing
"Upload Report" then does these steps in order:

1. stores the image in Supabase storage;
2. appends the notes to the user's profile row;
3. fetches the image back and runs OCR on it with Tesseract;
4. inserts the recognised text as a report row.

The model has three parts:

- **File acceptance** (`FileValidation.Validate` and
  `ReportUpload.HandleFileChange`). The size limit of 10 MiB is checked first
  and the MIME type (PNG or JPEG) second. An oversize pick keeps the previous
  selection; a wrong type clears it.
- **Pure helpers.** The JavaScript string built-ins the page uses are written
  out in module `Text`: `trim`, `split` on one character, and the decimal
  rendering of `Date.now()`. On top of them sit the storage path
  `reports/{userId}_{timestamp}.{ext}` (module `StoragePath`) and the notes
  merge "split on commas, trim, append" (module `ProfileNotes`).
- **The upload orchestrator** (module `UploadPipeline` and class
  `ReportUploadPage.ReportUpload`). Every collaborator call becomes an
  abstract outcome in a `Collaborators` value. The calls are Supabase auth,
  storage, the `UserTable` and `reports` tables, `fetch` and Tesseract.
  `Pipeline` is the specification of one run: how it ends (`Terminal`) and
  which durable writes it made (`Effect`: file stored, notes written, report
  row inserted). `HandleUpload` is the imperative handler with its early
  returns. It is proved to append exactly `Pipeline`'s writes, to leave
  `Pipeline`'s message, and to always end with `uploading` and
  `extractingText` both false.

What is proved, in short:

- Only a file that passed the size and type check is ever uploaded: the
  selection always holds an accepted file, and an upload that writes
  anything started from one.
- The stages run in a fixed order. A failure stops every later stage, and
  nothing done earlier is rolled back.
- Notes are written only after auth, upload and profile fetch all succeed.
  A report row is inserted only after the notes are written, and only when
  the trimmed OCR text is not blank.
- Each stopping stage leaves its own message. The one exception is that a
  failed fetch-back and a failed OCR share "OCR failed. Try another image.".
- Merged notes keep the existing notes as an unchanged prefix. After them
  comes one trimmed, comma-free note per field of the input.
- Storage paths of one user differ for different timestamps. Paths of two
  users whose ids contain no `_` never collide. The extension is the text
  after the last `.`.

The code does the following, which a reader might not expect:

- The code neither deduplicates notes nor drops empty pieces. An empty notes
  field appends `""` (`MergeNotesEmptyInput`), a repeated note is stored
  twice (`MergeNotesKeepsDuplicates`), and merging is not idempotent
  (`MergeNotesTwice`).
- When the OCR text is blank after trimming, the code shows "No readable
  text found in the image." and inserts no row. It does not persist an empty
  result as a soft success.
- A fetch-back that is not ok (or throws) and an OCR call that throws land in
  the same `catch`. Both end with the same message, and the outcome has no
  separate "fetch failed" text.

Files: `wrappers.dfy` (Option), `text.dfy`, `storage_path.dfy`, `notes.dfy`,
`file_validation.dfy`, `pipeline.dfy`, `report_upload.dfy`.

## Model

| member | source | states |
|---|---|---|
| `Text.TrimStartSpec` | frontend/src/pages/UploadReport.jsx:89 | the leading-whitespace pass of `trim` drops a whitespace prefix and stops at the first other character |
| `Text.TrimEndSpec` | frontend/src/pages/UploadReport.jsx:89 | the trailing-whitespace pass of `trim` drops a whitespace suffix and stops at the last other character |
| `Text.TrimSpec` | frontend/src/pages/UploadReport.jsx:89 | `trim` never returns a string with whitespace at either end, is no longer than its input and adds no character |
| `Text.TrimSlice` | frontend/src/pages/UploadReport.jsx:89 | `trim(s)` is the slice of `s` between a whitespace prefix and a whitespace suffix |
| `Text.TrimUnique` | frontend/src/pages/UploadReport.jsx:89 | any cut of `s` into whitespace, a trimmed middle and whitespace has `trim(s)` as its middle |
| `Text.TrimOfTrimmed` | frontend/src/pages/UploadReport.jsx:114 | a string without whitespace at its ends is its own trim |
| `Text.TrimIdempotent` | frontend/src/pages/UploadReport.jsx:114 | trimming twice gives the same as trimming once |
| `Text.Count` | frontend/src/pages/UploadReport.jsx:89 | the count is zero exactly when the character does not occur |
| `Text.SplitSpec` | frontend/src/pages/UploadReport.jsx:60 | `split(c)` gives one more piece than there are `c`, and no piece contains `c` |
| `Text.SplitSingle` | frontend/src/pages/UploadReport.jsx:60 | `split(c)` gives a single piece exactly when `c` does not occur |
| `Text.JoinSplit` | frontend/src/pages/UploadReport.jsx:89 | joining the pieces of `split(c)` with `c` gives back the string |
| `Text.SplitJoin` | frontend/src/pages/UploadReport.jsx:89 | splitting a `c`-join of `c`-free pieces gives back the pieces |
| `Text.Decimal` | frontend/src/pages/UploadReport.jsx:61 | the rendering of `Date.now()` in the path is all digits, has no leading zero and parses back to the number |
| `Text.DecimalParse` | frontend/src/pages/UploadReport.jsx:61 | rendering the value of a digit string without leading zeros gives back the string |
| `Text.DecimalInjective` | frontend/src/pages/UploadReport.jsx:61 | different timestamps have different renderings |
| `StoragePath.LastPieceOmitsSeparator` | frontend/src/pages/UploadReport.jsx:60 | the last piece of `split(c)` contains no `c` |
| `StoragePath.LastPieceIsSuffix` | frontend/src/pages/UploadReport.jsx:60 | the last piece of `split(c)` is a suffix of the string |
| `StoragePath.LastPieceFollowsSeparator` | frontend/src/pages/UploadReport.jsx:60 | the last piece of `split(c)` is the whole string or is preceded by a `c` |
| `StoragePath.ExtensionIsAfterLastDot` | frontend/src/pages/UploadReport.jsx:60 | `name.split(".").pop()` is the text after the last `.`, or the whole name when it has no `.` |
| `StoragePath.ExtensionUnique` | frontend/src/pages/UploadReport.jsx:60 | that description determines the extension uniquely |
| `StoragePath.ExtensionWithoutDot` | frontend/src/pages/UploadReport.jsx:60 | a name without a dot is its own extension |
| `StoragePath.PathParses` | frontend/src/pages/UploadReport.jsx:61 | the path reads back as `reports/`, the user id, `_`, the timestamp's digits, `.`, the extension |
| `StoragePath.PathKeepsExtension` | frontend/src/pages/UploadReport.jsx:60-61 | the stored object's extension is the uploaded file's extension |
| `StoragePath.PathTimestampsDistinct` | frontend/src/pages/UploadReport.jsx:61 | one user, one extension, two different milliseconds: two different paths |
| `StoragePath.PathInjective` | frontend/src/pages/UploadReport.jsx:61 | for dot-free extensions the path determines the user id, the timestamp and the extension, whatever characters the id holds |
| `StoragePath.StoredPathsInjective` | frontend/src/pages/UploadReport.jsx:60-61 | two uploads share a storage path only when user, millisecond and file extension all agree |
| `StoragePath.PathUsersDistinct` | frontend/src/pages/UploadReport.jsx:61 | two users whose ids contain no `_` never share a path, whatever the timestamps and extensions |
| `ProfileNotes.MergeNotesSpec` | frontend/src/pages/UploadReport.jsx:89-90 | existing notes are an unchanged prefix; the merged length is the existing count plus commas plus one; every new note is trimmed and comma-free |
| `ProfileNotes.MergeNotesAppendsFields` | frontend/src/pages/UploadReport.jsx:89-90 | the k-th appended note is the trim of the k-th comma-separated field |
| `ProfileNotes.MergeNotesEmptyInput` | frontend/src/pages/UploadReport.jsx:89-90 | an empty notes field appends one empty note |
| `ProfileNotes.NewNotesJoin` | frontend/src/pages/UploadReport.jsx:89 | when no field has whitespace at its ends, the new notes join back with commas to the input |
| `ProfileNotes.MergeNotesTwice` | frontend/src/pages/UploadReport.jsx:89-90 | merging the same input twice appends its notes twice (no deduplication) |
| `ProfileNotes.NewNotesCommaSpace` | frontend/src/pages/UploadReport.jsx:89 | `first, second` yields the notes `first` and `second` |
| `ProfileNotes.MergeNotesKeepsDuplicates` | frontend/src/pages/UploadReport.jsx:89-90 | a note already present that the input repeats is stored twice |
| `FileValidation.Validate` | frontend/src/pages/UploadReport.jsx:28-38 | oversize exactly when size > 10·1024·1024, whatever the type; accepted exactly when within the limit and PNG or JPEG; 10 MiB exactly passes the size check |
| `UploadPipeline.EffectsInStageOrder` | frontend/src/pages/UploadReport.jsx:51-129 | writes come in stage order (file, notes, report row) and their number is fixed by where the run stopped |
| `UploadPipeline.NoFileNoEffects` | frontend/src/pages/UploadReport.jsx:42-45 | with no file selected the run writes nothing |
| `UploadPipeline.StoredIffUploadSucceeded` | frontend/src/pages/UploadReport.jsx:51-69 | the file is stored exactly when a file is selected, the user is signed in with a non-empty id and the upload succeeds, under that user's path |
| `UploadPipeline.NotesWrittenIffEarlierStagesSucceeded` | frontend/src/pages/UploadReport.jsx:76-102 | notes are written exactly when auth, upload, profile fetch and the update succeed, and they are the merge of the profile's notes with the notes field |
| `UploadPipeline.ReportInsertedIffSucceeded` | frontend/src/pages/UploadReport.jsx:104-135 | a report row is inserted exactly when the run succeeds, which is exactly when every stage succeeds and the trimmed text is not blank; the row holds that trimmed text |
| `UploadPipeline.LateFailuresKeepEarlierWrites` | frontend/src/pages/UploadReport.jsx:108-137 | a bad fetch-back or an OCR exception ends with the OCR failure message, blank text with the no-text message, and every non-success after the notes write keeps the stored file and the written notes and inserts no row |
| `UploadPipeline.MessagesIdentifyTerminal` | frontend/src/pages/UploadReport.jsx:52-137 | distinct stopping points leave distinct messages, except fetch-back and OCR failure, which share one; update and insert errors keep their error text |
| `UploadPipeline.SuccessfulRun` | frontend/src/pages/UploadReport.jsx:41-142 | a full successful run stores the file, writes `[note, note, other]`, inserts the trimmed text and reports success |
| `ReportUploadPage.ReportUpload.constructor` | frontend/src/pages/UploadReport.jsx:9-14 | the hooks start with no file, empty notes and message, both flags down; the (empty) selection meets the acceptance invariant |
| `ReportUploadPage.ReportUpload.HandleNotesChange` | frontend/src/pages/UploadReport.jsx:175 | the notes field takes the typed text |
| `ReportUploadPage.ReportUpload.HandleFileChange` | frontend/src/pages/UploadReport.jsx:24-39 | an empty or oversize pick keeps the selection; within the limit the pick is selected exactly when PNG or JPEG; a wrong type clears the selection; the selection stays a file that passed the size and type check |
| `ReportUploadPage.ReportUpload.HandleUpload` | frontend/src/pages/UploadReport.jsx:41-142 | appends exactly the writes of `Pipeline`, leaves its message (none without a file), and both flags are false on every exit; it writes anything only when the selection it uploads (line 64) passed the size and type check |
| `ReportUploadPage.ReportUpload.Extract` | frontend/src/pages/UploadReport.jsx:104-141 | the `try` block and the final resets: appends the extraction stages' writes, leaves their message and lowers both flags |

## Left out

- The preview object URL (`useEffect`, lines 16-22), every `alert` dialog,
  and all rendering and styling: they have no state the pipeline reads.
- `Home.jsx` (a static meal table and scroll buttons) and `Signup.jsx` (a
  sign-up form forwarding to Supabase) are not part of this model.
- The real Supabase, `fetch`, `response.blob()` and `Tesseract.recognize`
  calls are outcomes in `Collaborators`. `getPublicUrl` is synchronous and
  cannot fail, so the image URL is not represented. The blob read and
  recognition are one outcome because each throws into the same `catch`. The
  language hint `"eng"` and the file's bytes are not modelled.
- `Date.now()` is the parameter `now`, a natural number. Its rendering is the
  plain decimal form JavaScript uses for integers below 2^53.
- Suspension at each `await` and concurrent uploads are not modelled. The run
  is one sequential call, so the last-writer-wins race on a user's notes is
  outside the model.
- The awaits outside the `try` block (auth, upload, profile fetch and notes
  update) and the report insert inside it (line 124) are treated as returning
  their error instead of throwing, which is how supabase-js reports failures.
  A throw outside the `try` would leave `uploading` set. A throwing insert
  would reach the `catch` at line 136 and end with "OCR failed. Try another
  image.". Neither case is modelled.
- HandleUpload: requires that both flags are down when it starts. The page
  guarantees this by disabling the button while either flag is up (line 180),
  and the early exits before OCR reset only `uploading`.
- HandleUpload: states only the state after the run, not the in-between
  values of `message`, `uploading` and `extractingText`. The model treats a
  run as one atomic call (see the line on `await` above), so these values go
  unstated. On the page they are visible during the awaits: `""` (line 48)
  blanks the old message while auth, upload and the profile calls run, and
  "Extracting text from image..." (line 106) shows during the fetch-back and
  OCR. `uploading` (line 47) and `extractingText` (line 105) disable the
  button and label it "Uploading..." (lines 180, 185).
- Strings are sequences of Unicode scalar values, while JavaScript strings
  are sequences of UTF-16 code units. `split` on `.` or `,` and `trim` touch
  only characters of the Basic Multilingual Plane that are not surrogates, so
  well-formed strings correspond exactly. A lone surrogate (possible in a
  textarea value or a file name) has no counterpart in the model.
