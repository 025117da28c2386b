/**
 * The `ReportUpload` page component: its state (`file`, `notes`, `message`,
 * `uploading`, `extractingText`) and the two handlers that change it step by
 * step. The durable writes the page makes on the backend are kept in
 * `effects`, oldest first.
 */
module ReportUploadPage {
  import opened Wrappers
  import opened Text
  import opened FileValidation
  import opened ProfileNotes
  import opened UploadPipeline

  class ReportUpload {
    var file: Option<SelectedFile>
    var notes: string
    var uploading: bool
    var extractingText: bool
    var message: string
    var effects: seq<Effect>

    /** No upload is in progress. */
    predicate Idle()
      reads this
    {
      !uploading && !extractingText
    }

    /** The selection, if any, is a file `handleFileChange` accepted. */
    predicate SelectionAccepted()
      reads this
    {
      file.Some? ==> Validate(file.value) == Accepted
    }

    /** The initial state of the hooks. */
    constructor ()
      ensures file == None && notes == "" && message == "" && effects == []
      ensures Idle() && SelectionAccepted()
    {
      file := None;
      notes := "";
      uploading := false;
      extractingText := false;
      message := "";
      effects := [];
    }

    /** The notes textarea's `onChange`. */
    method HandleNotesChange(text: string)
      modifies this`notes
      ensures notes == text
    {
      notes := text;
    }

    /** `handleFileChange`: an empty pick changes nothing; an oversize file is
        refused and the previous selection stays; a PNG or JPEG within the
        limit becomes the selection; any other type clears the selection. */
    method HandleFileChange(picked: Option<SelectedFile>)
      requires SelectionAccepted()
      modifies this`file
      ensures SelectionAccepted()
      ensures picked.None? ==> file == old(file)
      ensures picked.Some? && picked.value.size > MAX_FILE_SIZE ==> file == old(file)
      ensures picked.Some? && picked.value.size <= MAX_FILE_SIZE ==>
        (file == picked <==> picked.value.mimeType == PNG || picked.value.mimeType == JPEG)
      ensures picked.Some? && Validate(picked.value) == UnsupportedType ==> file == None
    {
      if picked.None? {
        return;
      }
      match Validate(picked.value)
      case TooLarge =>
      case Accepted =>
        file := picked;
      case UnsupportedType =>
        file := None;
    }

    /** `handleUpload`, run against the collaborators' answers `env`. Without a
        file nothing changes. Otherwise the run's writes are appended to
        `effects`, the message is the one for where the run stopped, and both
        flags are down again on every exit. The button that calls it is
        disabled while either flag is up, so it starts idle; the early exits
        before OCR reset only `uploading` and rely on that. */
    method HandleUpload(env: Collaborators)
      requires Idle() && SelectionAccepted()
      modifies this`uploading, this`extractingText, this`message, this`effects
      ensures Idle() && SelectionAccepted()
      ensures |effects| > |old(effects)| ==> old(file).Some? && Validate(old(file).value) == Accepted
      ensures var run := Pipeline(old(file), old(notes), env);
        && effects == old(effects) + run.effects
        && message == (if run.terminal == NoFileSelected then old(message) else Message(run.terminal))
    {
      if file.None? {
        return;
      }
      var selected := file.value;
      ghost var run := Pipeline(file, notes, env);

      uploading := true;
      message := "";

      if !SignedIn(env.auth) {
        message := AUTH_ERROR_MESSAGE;
        uploading := false;
        assert run == Run(AuthFailed, []);
        return;
      }
      var userId := env.auth.id;

      var filePath := PathFor(userId, env.now, selected.name);
      if env.upload.WriteError? {
        message := UPLOAD_FAILED_MESSAGE;
        uploading := false;
        assert run == Run(UploadFailed, []);
        return;
      }
      effects := effects + [FileStored(filePath)];
      ghost var stored := [FileStored(filePath)];

      if env.profile.ProfileError? {
        message := FETCH_USER_FAILED_MESSAGE;
        uploading := false;
        assert run == Run(ProfileFetchFailed, stored);
        return;
      }

      var updatedNotes := MergeNotes(env.profile.notes, notes);
      if env.update.WriteError? {
        message := NOTES_FAILED_PREFIX + env.update.reason;
        uploading := false;
        assert run == Run(NotesUpdateFailed(env.update.reason), stored);
        return;
      }
      effects := effects + [NotesWritten(userId, updatedNotes)];
      ghost var written := stored + [NotesWritten(userId, updatedNotes)];

      Extract(userId, env);
      assert run == Run(Extraction(userId, env).terminal, written + Extraction(userId, env).effects);
    }

    /** Lines from `setExtractingText(true)` to the end of `handleUpload`: the
        `try` block, whose fetch that throws or is not ok and whose blob or OCR
        call that throws all land in the one `catch`, and the final reset of
        both flags. */
    method Extract(userId: string, env: Collaborators)
      modifies this`uploading, this`extractingText, this`message, this`effects
      ensures Idle()
      ensures var last := Extraction(userId, env);
        effects == old(effects) + last.effects && message == Message(last.terminal)
    {
      extractingText := true;
      message := EXTRACTING_MESSAGE;

      if env.fetchBack.FetchThrew? || !env.fetchBack.ok {
        message := OCR_FAILED_MESSAGE;
      } else if env.ocr.OcrThrew? {
        message := OCR_FAILED_MESSAGE;
      } else {
        var extractedText := ExtractedText(env.ocr.text);
        if extractedText == "" {
          message := NO_TEXT_MESSAGE;
          extractingText := false;
          uploading := false;
          return;
        }
        if env.insert.WriteError? {
          message := INSERT_FAILED_PREFIX + env.insert.reason;
        } else {
          effects := effects + [ReportInserted(userId, extractedText)];
          message := SUCCESS_MESSAGE;
        }
      }

      extractingText := false;
      uploading := false;
    }
  }
}
