/**
 * What one press of "Upload Report" does, as a function of the selected file,
 * the notes field and the answers of the collaborators (Supabase auth,
 * storage and tables, `fetch`, Tesseract). The stages run in a fixed order:
 * no-file guard, auth, storage upload, profile fetch, notes update,
 * fetch-back, OCR, empty-text check, report insert. The first failure ends
 * the run and nothing done before it is undone.
 */
module UploadPipeline {
  import opened Wrappers
  import opened Text
  import opened FileValidation
  import StoragePath
  import opened ProfileNotes

  /** `supabase.auth.getUser()`: an error, a session without a user (or
      without an id), or the user's id. */
  datatype AuthOutcome = AuthError | NoUser | User(id: string)

  /** A storage upload, a table update or a table insert: done, or an error
      with its `message`. */
  datatype WriteOutcome = Written | WriteError(reason: string)

  /** The `UserTable` lookup with `.single()`: an error (no row, or a failed
      query), or the row's `notes` column, which may be `null`. */
  datatype ProfileOutcome = ProfileError | ProfileRow(notes: Option<seq<string>>)

  /** `fetch(imageUrl)`: it throws, or it answers with `response.ok`. */
  datatype FetchOutcome = FetchThrew | FetchResponse(ok: bool)

  /** `response.blob()` followed by `Tesseract.recognize`: one of them throws,
      or recognition yields `data.text`, which may be absent. */
  datatype OcrOutcome = OcrThrew | Recognized(text: Option<string>)

  /** Everything the run learns from outside, in the order it asks; `now` is
      `Date.now()`. */
  datatype Collaborators = Collaborators(
    auth: AuthOutcome,
    now: nat,
    upload: WriteOutcome,
    profile: ProfileOutcome,
    update: WriteOutcome,
    fetchBack: FetchOutcome,
    ocr: OcrOutcome,
    insert: WriteOutcome)

  /** The durable writes a run makes, in the order it makes them. */
  datatype Effect =
    | FileStored(path: string)
    | NotesWritten(userId: string, notes: seq<string>)
    | ReportInserted(userId: string, extractedText: string)

  /** How a run ends: the stage that stopped it, or success. */
  datatype Terminal =
    | NoFileSelected
    | AuthFailed
    | UploadFailed
    | ProfileFetchFailed
    | NotesUpdateFailed(reason: string)
    | FetchBackFailed
    | OcrFailed
    | NoReadableText
    | InsertFailed(reason: string)
    | Uploaded

  datatype Run = Run(terminal: Terminal, effects: seq<Effect>)

  /** The guard `authError || !authData?.user?.id`: an empty id is falsy. */
  predicate SignedIn(auth: AuthOutcome) {
    auth.User? && auth.id != ""
  }

  /** `ocrResult?.text?.trim() || ""`. */
  function ExtractedText(text: Option<string>): string {
    match text
    case Some(t) => Trim(t)
    case None => ""
  }

  const AUTH_ERROR_MESSAGE := "Authentication error. Please log in again."
  const UPLOAD_FAILED_MESSAGE := "Upload failed. Try again."
  const FETCH_USER_FAILED_MESSAGE := "Failed to fetch user data."
  const NOTES_FAILED_PREFIX := "Failed to update notes: "
  const EXTRACTING_MESSAGE := "Extracting text from image..."
  const NO_TEXT_MESSAGE := "No readable text found in the image."
  const INSERT_FAILED_PREFIX := "Insert failed: "
  const SUCCESS_MESSAGE := "File uploaded & text extracted successfully!"
  const OCR_FAILED_MESSAGE := "OCR failed. Try another image."

  /** The message a run leaves on the page; without a file the page keeps the
      message it had. */
  function Message(t: Terminal): string
    requires !t.NoFileSelected?
  {
    match t
    case AuthFailed => AUTH_ERROR_MESSAGE
    case UploadFailed => UPLOAD_FAILED_MESSAGE
    case ProfileFetchFailed => FETCH_USER_FAILED_MESSAGE
    case NotesUpdateFailed(reason) => NOTES_FAILED_PREFIX + reason
    case FetchBackFailed => OCR_FAILED_MESSAGE
    case OcrFailed => OCR_FAILED_MESSAGE
    case NoReadableText => NO_TEXT_MESSAGE
    case InsertFailed(reason) => INSERT_FAILED_PREFIX + reason
    case Uploaded => SUCCESS_MESSAGE
  }

  /** The object path of an upload by `userId` at `now` of a file named `name`. */
  function PathFor(userId: string, now: nat, name: string): string {
    StoragePath.Path(userId, now, StoragePath.Extension(name))
  }

  /** One run of `handleUpload`. */
  function Pipeline(selected: Option<SelectedFile>, rawNotes: string, env: Collaborators): Run {
    if selected.None? then Run(NoFileSelected, [])
    else if !SignedIn(env.auth) then Run(AuthFailed, [])
    else if env.upload.WriteError? then Run(UploadFailed, [])
    else
      var userId := env.auth.id;
      var stored := [FileStored(PathFor(userId, env.now, selected.value.name))];
      if env.profile.ProfileError? then Run(ProfileFetchFailed, stored)
      else if env.update.WriteError? then Run(NotesUpdateFailed(env.update.reason), stored)
      else
        var written := stored + [NotesWritten(userId, MergeNotes(env.profile.notes, rawNotes))];
        var last := Extraction(userId, env);
        Run(last.terminal, written + last.effects)
  }

  /** The stages after the notes are written (the `try` block): fetch the
      stored image back, recognise its text, drop blank text, insert the
      report row. The result holds the writes of these stages only. */
  function Extraction(userId: string, env: Collaborators): Run {
    if env.fetchBack.FetchThrew? || !env.fetchBack.ok then Run(FetchBackFailed, [])
    else if env.ocr.OcrThrew? then Run(OcrFailed, [])
    else if ExtractedText(env.ocr.text) == "" then Run(NoReadableText, [])
    else if env.insert.WriteError? then Run(InsertFailed(env.insert.reason), [])
    else Run(Uploaded, [ReportInserted(userId, ExtractedText(env.ocr.text))])
  }

  /** How many durable writes a run that ends at `t` has made: one per stage
      passed among storage upload, notes update and report insert. */
  function Committed(t: Terminal): nat {
    match t
    case NoFileSelected => 0
    case AuthFailed => 0
    case UploadFailed => 0
    case ProfileFetchFailed => 1
    case NotesUpdateFailed(_) => 1
    case FetchBackFailed => 2
    case OcrFailed => 2
    case NoReadableText => 2
    case InsertFailed(_) => 2
    case Uploaded => 3
  }

  /** The writes happen in stage order and a failure makes no later one: the
      first write (if any) stores the file, the second writes the notes, the
      third inserts the report row, and their number is fixed by where the run
      stopped. Earlier writes stay: there is no rollback. */
  lemma EffectsInStageOrder(selected: Option<SelectedFile>, rawNotes: string, env: Collaborators)
    ensures var run := Pipeline(selected, rawNotes, env);
      && |run.effects| == Committed(run.terminal)
      && (|run.effects| >= 1 ==> run.effects[0].FileStored?)
      && (|run.effects| >= 2 ==> run.effects[1].NotesWritten?)
      && (|run.effects| >= 3 ==> run.effects[2].ReportInserted?)
  {

  }

  /** With no file selected nothing happens. */
  lemma NoFileNoEffects(rawNotes: string, env: Collaborators)
    ensures Pipeline(None, rawNotes, env) == Run(NoFileSelected, [])
  {
  }

  /** The file is stored exactly when a file is selected, the user is signed
      in and the upload succeeds, and it is stored under that user's path for
      that millisecond and that file's extension. */
  lemma StoredIffUploadSucceeded(selected: Option<SelectedFile>, rawNotes: string, env: Collaborators)
    ensures var run := Pipeline(selected, rawNotes, env);
      && (|run.effects| >= 1 <==> selected.Some? && SignedIn(env.auth) && env.upload.Written?)
      && (|run.effects| >= 1 ==> run.effects[0] == FileStored(PathFor(env.auth.id, env.now, selected.value.name)))
  {
  }

  /** Notes are written exactly when auth, upload and profile fetch have all
      succeeded and the update succeeds; what is written is the merge of the
      profile's notes with the notes field. */
  lemma NotesWrittenIffEarlierStagesSucceeded(selected: Option<SelectedFile>, rawNotes: string, env: Collaborators)
    ensures var run := Pipeline(selected, rawNotes, env);
      && (|run.effects| >= 2 <==>
            selected.Some? && SignedIn(env.auth) && env.upload.Written?
            && env.profile.ProfileRow? && env.update.Written?)
      && (|run.effects| >= 2 ==>
            run.effects[1] == NotesWritten(env.auth.id, MergeNotes(env.profile.notes, rawNotes)))
  {
  }

  /** A report row is inserted exactly when the run succeeds: every earlier
      stage succeeded, the fetch-back answered ok, OCR found non-blank text and
      the insert succeeded. The row holds the trimmed text. */
  lemma ReportInsertedIffSucceeded(selected: Option<SelectedFile>, rawNotes: string, env: Collaborators)
    ensures var run := Pipeline(selected, rawNotes, env);
      && (|run.effects| == 3 <==> run.terminal == Uploaded)
      && (run.terminal == Uploaded <==>
            selected.Some? && SignedIn(env.auth) && env.upload.Written?
            && env.profile.ProfileRow? && env.update.Written?
            && env.fetchBack == FetchResponse(true) && env.ocr.Recognized?
            && ExtractedText(env.ocr.text) != "" && env.insert.Written?)
      && (run.terminal == Uploaded ==>
            run.effects[2] == ReportInserted(env.auth.id, ExtractedText(env.ocr.text))
            && IsTrimmed(run.effects[2].extractedText) && run.effects[2].extractedText != "")
  {
    if env.ocr.Recognized? && env.ocr.text.Some? {
      TrimSpec(env.ocr.text.value);
    }
  }

  /** Once the notes are written, a fetch-back that is not ok or throws, or an
      OCR that throws, ends the run with the OCR failure message and no row;
      text that is blank once trimmed ends it with its own message and no row.
      The stored file and the written notes stay. */
  lemma LateFailuresKeepEarlierWrites(selected: Option<SelectedFile>, rawNotes: string, env: Collaborators)
    requires selected.Some? && SignedIn(env.auth) && env.upload.Written?
    requires env.profile.ProfileRow? && env.update.Written?
    ensures var run := Pipeline(selected, rawNotes, env);
      && (env.fetchBack != FetchResponse(true) ==>
            run.terminal == FetchBackFailed && Message(run.terminal) == OCR_FAILED_MESSAGE)
      && (env.fetchBack == FetchResponse(true) && env.ocr.OcrThrew? ==>
            run.terminal == OcrFailed && Message(run.terminal) == OCR_FAILED_MESSAGE)
      && (env.fetchBack == FetchResponse(true) && env.ocr.Recognized? && ExtractedText(env.ocr.text) == "" ==>
            run.terminal == NoReadableText && Message(run.terminal) == NO_TEXT_MESSAGE)
      && (run.terminal != Uploaded ==>
            run.effects == [FileStored(PathFor(env.auth.id, env.now, selected.value.name)),
                            NotesWritten(env.auth.id, MergeNotes(env.profile.notes, rawNotes))])
  {
  }

  /** Each stopping stage leaves its own message, so the message tells where a
      run stopped; the one exception is that a failed fetch-back and a failed
      OCR share "OCR failed. Try another image.". A failed notes update or
      insert also tells its error message. */
  lemma MessagesIdentifyTerminal(t1: Terminal, t2: Terminal)
    requires !t1.NoFileSelected? && !t2.NoFileSelected?
    requires Message(t1) == Message(t2)
    ensures t1 == t2 || ((t1.FetchBackFailed? || t1.OcrFailed?) && (t2.FetchBackFailed? || t2.OcrFailed?))
  {
    var m1, m2 := Message(t1), Message(t2);
    assert m1[0] == m2[0];
    if t1.NotesUpdateFailed? && t2.NotesUpdateFailed? {
      assert t1.reason == m1[|NOTES_FAILED_PREFIX|..];
      assert t2.reason == m2[|NOTES_FAILED_PREFIX|..];
    } else if t1.InsertFailed? && t2.InsertFailed? {
      assert t1.reason == m1[|INSERT_FAILED_PREFIX|..];
      assert t2.reason == m2[|INSERT_FAILED_PREFIX|..];
    } else {
      assert m1[1] == m2[1] && m1[10] == m2[10];
    }
  }

  /** A full run: a signed-in user whose profile holds `[note]` uploads an
      image with the notes `note, other`, and recognition finds non-blank
      text. The file is stored, the profile then holds `[note, note, other]`,
      one report row with the trimmed text is inserted, and the page reports
      success. */
  lemma SuccessfulRun(f: SelectedFile, note: string, other: string, text: string, env: Collaborators)
    requires IsTrimmed(note) && IsTrimmed(other) && ',' !in note && ',' !in other
    requires SignedIn(env.auth) && env.upload.Written?
    requires env.profile == ProfileRow(Some([note])) && env.update.Written?
    requires env.fetchBack == FetchResponse(true) && env.ocr == Recognized(Some(text))
    requires Trim(text) != "" && env.insert.Written?
    ensures var run := Pipeline(Some(f), note + ", " + other, env);
      && run.terminal == Uploaded && Message(run.terminal) == SUCCESS_MESSAGE
      && run.effects == [FileStored(PathFor(env.auth.id, env.now, f.name)),
                         NotesWritten(env.auth.id, [note, note, other]),
                         ReportInserted(env.auth.id, Trim(text))]
  {
    MergeNotesKeepsDuplicates(note, other);
  }
}
