/**
 * The rule `handleFileChange` applies to a file the user picks: at most
 * 10 MiB, then PNG or JPEG by its declared MIME type. The bytes themselves
 * are not inspected.
 */
module FileValidation {

  /** A browser `File`: its name, its size in bytes and its declared type. */
  datatype SelectedFile = SelectedFile(name: string, size: nat, mimeType: string)

  const MAX_FILE_SIZE: nat := 10 * 1024 * 1024
  const PNG := "image/png"
  const JPEG := "image/jpeg"

  datatype Verdict = Accepted | TooLarge | UnsupportedType

  /** The size is checked first, so an oversize file is `TooLarge` whatever its
      type; a file of exactly 10 MiB passes the size check. */
  function Validate(f: SelectedFile): (v: Verdict)
    ensures v == TooLarge <==> f.size > MAX_FILE_SIZE
    ensures v == Accepted <==> f.size <= MAX_FILE_SIZE && (f.mimeType == PNG || f.mimeType == JPEG)
    ensures f.size == 10_485_760 ==> v != TooLarge
  {
    if f.size > MAX_FILE_SIZE then TooLarge
    else if f.mimeType == PNG || f.mimeType == JPEG then Accepted
    else UnsupportedType
  }
}
