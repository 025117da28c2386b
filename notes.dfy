/**
 * The allergy notes an upload adds to the user's profile: the notes field is
 * split on commas, every piece is trimmed, and the pieces are appended after
 * the notes the profile already holds. Nothing is deduplicated and no empty
 * piece is dropped.
 */
module ProfileNotes {
  import opened Wrappers
  import opened Text

  /** `notes.split(",").map((note) => note.trim())`. */
  function NewNotes(raw: string): seq<string> {
    var fields := Split(raw, ',');
    seq(|fields|, i requires 0 <= i < |fields| => Trim(fields[i]))
  }

  /** The notes the profile holds, a missing (`null`) notes column being none. */
  function Existing(notes: Option<seq<string>>): seq<string> {
    match notes
    case Some(n) => n
    case None => []
  }

  /** `userData?.notes ? [...userData.notes, ...newNotes] : newNotes`. An empty
      array is truthy, so only a missing column takes the second branch. */
  function MergeNotes(existing: Option<seq<string>>, raw: string): seq<string> {
    match existing
    case Some(notes) => notes + NewNotes(raw)
    case None => NewNotes(raw)
  }

  /** The existing notes are an unchanged prefix; one note follows per
      comma-separated field of the input, trimmed and free of commas. */
  lemma MergeNotesSpec(existing: Option<seq<string>>, raw: string)
    ensures var prior, merged := Existing(existing), MergeNotes(existing, raw);
      && |merged| == |prior| + Count(raw, ',') + 1
      && merged[..|prior|] == prior
      && forall i :: |prior| <= i < |merged| ==> IsTrimmed(merged[i]) && ',' !in merged[i]
  {
    var prior := Existing(existing);
    var fields := Split(raw, ',');
    SplitSpec(raw, ',');
    forall i | 0 <= i < |fields|
      ensures IsTrimmed(NewNotes(raw)[i]) && ',' !in NewNotes(raw)[i]
    {
      TrimSpec(fields[i]);
    }
    assert MergeNotes(existing, raw) == prior + NewNotes(raw);
  }

  /** The appended notes are exactly the trimmed comma-separated fields of the
      input, in input order. */
  lemma MergeNotesAppendsFields(existing: Option<seq<string>>, raw: string, k: nat)
    requires k < |Split(raw, ',')|
    ensures var prior := Existing(existing);
      MergeNotes(existing, raw)[|prior| + k] == Trim(Split(raw, ',')[k])
  {
    // Dafny proves this unaided, but on some solver seeds only after a long
    // search; these steps keep the proof short.
    var prior := Existing(existing);
    var pieces := NewNotes(raw);
    assert MergeNotes(existing, raw) == prior + pieces;
    assert |pieces| == |Split(raw, ',')| && k < |pieces|;
    assert pieces[k] == Trim(Split(raw, ',')[k]);
    assert (prior + pieces)[|prior| + k] == pieces[k];
  }

  /** An empty notes field still appends one empty note. */
  lemma MergeNotesEmptyInput(existing: Option<seq<string>>)
    ensures MergeNotes(existing, "") == Existing(existing) + [""]
  {

  }

  /** When no field has whitespace at its ends, the appended notes join back to
      the input. */
  lemma NewNotesJoin(raw: string)
    requires forall i :: 0 <= i < |Split(raw, ',')| ==> IsTrimmed(Split(raw, ',')[i])
    ensures Join(NewNotes(raw), ',') == raw
  {
    var fields := Split(raw, ',');
    SplitSpec(raw, ',');
    forall i | 0 <= i < |fields|
      ensures NewNotes(raw)[i] == fields[i]
    {
      TrimOfTrimmed(fields[i]);
    }
    assert NewNotes(raw) == fields;
    JoinSplit(raw, ',');
  }

  /** Merging the same input twice appends its pieces twice: the merge is not
      idempotent. */
  lemma MergeNotesTwice(existing: Option<seq<string>>, raw: string)
    ensures var once := MergeNotes(existing, raw);
      var twice := MergeNotes(Some(once), raw);
      && |twice| == |Existing(existing)| + 2 * (Count(raw, ',') + 1)
      && twice[..|once|] == once
      && twice[|once|..] == once[|Existing(existing)|..]
  {
    // As above, the steps only shorten the solver's search.
    var prior, added := Existing(existing), NewNotes(raw);
    var once := MergeNotes(existing, raw);
    SplitSpec(raw, ',');
    assert |added| == Count(raw, ',') + 1;
    assert once == prior + added;
    assert once[|prior|..] == added;
    assert MergeNotes(Some(once), raw) == once + added;
  }

  /** Two comma-free fields joined by a comma split back into those two. */
  lemma SplitTwoFields(a: string, b: string)
    requires ',' !in a && ',' !in b
    ensures Split(a + [','] + b, ',') == [a, b]
  {
    SplitPrefix(a, ',', b);
    SplitWithout(b, ',');
  }

  lemma NewNotesOfTwoFields(raw: string, a: string, b: string)
    requires Split(raw, ',') == [a, b]
    ensures NewNotes(raw) == [Trim(a), Trim(b)]
  {

  }

  /** The usual way of typing two notes, `first, second`, yields the two notes
      without the space after the comma. */
  lemma NewNotesCommaSpace(first: string, second: string)
    requires IsTrimmed(first) && IsTrimmed(second) && ',' !in first && ',' !in second
    ensures NewNotes(first + ", " + second) == [first, second]
  {
    var spaced := " " + second;
    assert first + ", " + second == first + [','] + spaced;
    SplitTwoFields(first, spaced);
    NewNotesOfTwoFields(first + ", " + second, first, spaced);
    TrimOfTrimmed(first);
    assert spaced[1..|spaced|] == second;
    TrimUnique(spaced, 1, |spaced|);
    assert Trim(spaced) == second;
  }

  /** A note already in the profile that the input repeats is stored twice
      (so `["nuts"]` merged with `"nuts, dairy"` is `["nuts", "nuts", "dairy"]`). */
  lemma MergeNotesKeepsDuplicates(note: string, other: string)
    requires IsTrimmed(note) && IsTrimmed(other) && ',' !in note && ',' !in other
    ensures MergeNotes(Some([note]), note + ", " + other) == [note, note, other]
  {
    NewNotesCommaSpace(note, other);
    assert MergeNotes(Some([note]), note + ", " + other) == [note] + NewNotes(note + ", " + other);
  }
}
