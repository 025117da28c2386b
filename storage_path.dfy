/**
 * Where an uploaded report image is stored: the extension taken from the
 * file name with `name.split(".").pop()`, and the object path
 * `reports/{userId}_{timestamp}.{ext}`.
 */
module StoragePath {
  import opened Text

  /** `ext` is the text after the last `.` of `name`, or all of `name` when it
      has no `.`: a dot-free suffix of `name` that is either all of it or
      preceded by a `.`. */
  ghost predicate IsExtensionOf(ext: string, name: string) {
    && |ext| <= |name|
    && ext == name[|name| - |ext|..]
    && '.' !in ext
    && (|ext| < |name| ==> name[|name| - |ext| - 1] == '.')
  }

  /** `name.split(".").pop()`. */
  function Extension(name: string): string {
    Last(Split(name, '.'))
  }

  /** A suffix of the tail of `s` is a suffix of `s`. */
  lemma SuffixOfTail(s: string, e: string)
    requires s != [] && |e| <= |s| - 1 && e == s[1..][|s| - 1 - |e|..]
    ensures e == s[|s| - |e|..]
    ensures |e| < |s| - 1 ==> s[|s| - |e| - 1] == s[1..][|s| - 1 - |e| - 1]
  {
  }

  /** One step of `Split` on its last piece: a leading separator or a later one
      leaves the last piece of the tail; otherwise the first character joins
      the one piece the tail has. */
  lemma LastPieceStep(s: string, c: char)
    requires s != []
    ensures var rest := Split(s[1..], c);
      Last(Split(s, c)) == if s[0] != c && |rest| == 1 then [s[0]] + rest[0] else Last(rest)
  {
    var rest := Split(s[1..], c);
    if s[0] == c {
      var p := [[]] + rest;
      assert Split(s, c) == p;
      assert p[|p| - 1] == rest[|rest| - 1];
    } else {
      var p := [[s[0]] + rest[0]] + rest[1..];
      assert Split(s, c) == p;
      assert |p| == |rest|;
      if |rest| > 1 {
        assert p[|p| - 1] == rest[1..][|rest| - 2] == rest[|rest| - 1];
      }
    }
  }

  /** The last piece of a split does not contain the separator. */
  lemma {:induction false} LastPieceOmitsSeparator(s: string, c: char)
    ensures c !in Last(Split(s, c))
  {
    if s != [] {
      LastPieceStep(s, c);
      LastPieceOmitsSeparator(s[1..], c);
    }
  }

  /** A suffix as long as the string is the string. */
  lemma WholeSuffix(s: string, e: string)
    requires |e| <= |s| && e == s[|s| - |e|..]
    ensures |e| == |s| ==> e == s
  {
  }

  /** The last piece of a split is a suffix of the string. */
  lemma {:induction false} LastPieceIsSuffix(s: string, c: char)
    ensures var e := Last(Split(s, c));
      |e| <= |s| && e == s[|s| - |e|..]
  {
    if s != [] {
      var t := s[1..];
      var rest := Split(t, c);
      LastPieceStep(s, c);
      if s[0] != c && |rest| == 1 {
        SplitSingle(t, c);
        SplitWithout(t, c);
        assert [s[0]] + t == s;
      } else {
        LastPieceIsSuffix(t, c);
        SuffixOfTail(s, Last(rest));
      }
    }
  }

  /** The last piece of a split is all of the string or follows a separator. */
  lemma {:induction false} LastPieceFollowsSeparator(s: string, c: char)
    ensures var e := Last(Split(s, c));
      |e| < |s| ==> s[|s| - |e| - 1] == c
  {
    if c !in s {
      SplitWithout(s, c);
    } else {
      var t := s[1..];
      var last := Last(Split(t, c));
      LastPieceStep(s, c);
      LastPieceIsSuffix(t, c);
      LastPieceFollowsSeparator(t, c);
      SuffixOfTail(s, last);
      WholeSuffix(t, last);
      if s[0] != c {
        assert c in t;
        SplitSingle(t, c);
        LastPieceOmitsSeparator(t, c);
        assert |last| < |t|;
      }
    }
  }

  /** `Extension` meets its description. */
  lemma ExtensionIsAfterLastDot(name: string)
    ensures IsExtensionOf(Extension(name), name)
  {
    LastPieceIsSuffix(name, '.');
    LastPieceFollowsSeparator(name, '.');
    LastPieceOmitsSeparator(name, '.');
  }

  /** The description fixes the extension uniquely. */
  lemma ExtensionUnique(name: string, e1: string, e2: string)
    requires IsExtensionOf(e1, name) && IsExtensionOf(e2, name)
    ensures e1 == e2
  {
  }

  /** A name without a dot is its own extension. */
  lemma ExtensionWithoutDot(name: string)
    requires '.' !in name
    ensures Extension(name) == name
  {
    ExtensionIsAfterLastDot(name);
    ExtensionUnique(name, Extension(name), name);
  }

  const PREFIX := "reports/"

  /** `reports/${userId}_${Date.now()}.${fileExt}`. */
  function Path(userId: string, timestamp: nat, ext: string): string {
    PREFIX + userId + "_" + Decimal(timestamp) + "." + ext
  }

  /** A path can be read back: the prefix, then the user identifier, `_`, the
      digits of the timestamp, `.` and the extension. */
  lemma PathParses(userId: string, timestamp: nat, ext: string)
    ensures var path, digits := Path(userId, timestamp, ext), Decimal(timestamp);
      var at := |PREFIX| + |userId| + 1;
      && |path| == at + |digits| + 1 + |ext|
      && path[..|PREFIX|] == PREFIX
      && path[|PREFIX|..|PREFIX| + |userId|] == userId
      && path[at - 1] == '_'
      && path[at..at + |digits|] == digits
      && ParseDecimal(path[at..at + |digits|]) == timestamp
      && path[at + |digits|] == '.'
      && path[at + |digits| + 1..] == ext
  {

  }

  /** The extension of a stored object is the extension of the file it came
      from. */
  lemma PathKeepsExtension(userId: string, timestamp: nat, name: string)
    ensures Extension(Path(userId, timestamp, Extension(name))) == Extension(name)
  {
    var ext := Extension(name);
    var path := Path(userId, timestamp, ext);
    ExtensionIsAfterLastDot(name);
    ExtensionIsAfterLastDot(path);
    assert path[|path| - |ext|..] == ext;
    assert path[|path| - |ext| - 1] == '.';
    ExtensionUnique(path, Extension(path), ext);
  }

  /** Two uploads by one user of files with one extension, at different
      milliseconds, are stored under different paths. */
  lemma PathTimestampsDistinct(userId: string, t1: nat, t2: nat, ext: string)
    requires t1 != t2
    ensures Path(userId, t1, ext) != Path(userId, t2, ext)
  {
    var head := PREFIX + userId + "_";
    var tail := "." + ext;
    var d1, d2 := Decimal(t1), Decimal(t2);
    assert Path(userId, t1, ext) == head + d1 + tail;
    assert Path(userId, t2, ext) == head + d2 + tail;
    // The digits sit between a prefix and a suffix both paths share.
    assert (head + d1 + tail)[|head|..|head| + |d1|] == d1;
    assert (head + d2 + tail)[|head|..|head| + |d2|] == d2;
  }

  /** In `x + [c] + y` with `c` absent from `y`, the `c` after `x` is the last
      one. */
  lemma LastSeparator(x: string, c: char, y: string)
    requires c !in y
    ensures var s := x + [c] + y;
      s[|x|] == c && forall i :: |x| < i < |s| ==> s[i] != c
  {
    var s := x + [c] + y;
    assert forall i :: |x| < i < |s| ==> s[i] == y[i - |x| - 1];
  }

  /** Cutting a string at its last `c` is unique. */
  lemma CutAtLastSeparator(x1: string, y1: string, x2: string, y2: string, c: char)
    requires c !in y1 && c !in y2 && x1 + [c] + y1 == x2 + [c] + y2
    ensures x1 == x2 && y1 == y2
  {
    var s := x1 + [c] + y1;
    LastSeparator(x1, c, y1);
    LastSeparator(x2, c, y2);
    assert |x1| == |x2|;
    assert x1 == s[..|x1|] == x2;
    assert y1 == s[|x1| + 1..] == y2;
  }

  /** A path determines the user, the timestamp and the extension it was built
      from, whenever the extension has no `.`: the last `.` marks off the
      extension and the last `_` before it the timestamp's digits. */
  lemma PathInjective(u1: string, t1: nat, e1: string, u2: string, t2: nat, e2: string)
    requires '.' !in e1 && '.' !in e2
    requires Path(u1, t1, e1) == Path(u2, t2, e2)
    ensures u1 == u2 && t1 == t2 && e1 == e2
  {
    var d1, d2 := Decimal(t1), Decimal(t2);
    assert Path(u1, t1, e1) == (PREFIX + u1 + "_" + d1) + ['.'] + e1;
    assert Path(u2, t2, e2) == (PREFIX + u2 + "_" + d2) + ['.'] + e2;
    CutAtLastSeparator(PREFIX + u1 + "_" + d1, e1, PREFIX + u2 + "_" + d2, e2, '.');
    assert '_' !in d1 && '_' !in d2;
    assert PREFIX + u1 + "_" + d1 == (PREFIX + u1) + ['_'] + d1;
    assert PREFIX + u2 + "_" + d2 == (PREFIX + u2) + ['_'] + d2;
    CutAtLastSeparator(PREFIX + u1, d1, PREFIX + u2, d2, '_');
    assert u1 == (PREFIX + u1)[|PREFIX|..] == (PREFIX + u2)[|PREFIX|..] == u2;
  }

  /** Two uploads are stored under one path only when they come from one user,
      at one millisecond, of files with one extension. */
  lemma StoredPathsInjective(u1: string, t1: nat, n1: string, u2: string, t2: nat, n2: string)
    requires Path(u1, t1, Extension(n1)) == Path(u2, t2, Extension(n2))
    ensures u1 == u2 && t1 == t2 && Extension(n1) == Extension(n2)
  {
    LastPieceOmitsSeparator(n1, '.');
    LastPieceOmitsSeparator(n2, '.');
    PathInjective(u1, t1, Extension(n1), u2, t2, Extension(n2));
  }

  /** Uploads by two users whose identifiers contain no `_` (Supabase user
      identifiers are UUIDs) never share a path, whatever their timestamps and
      extensions. */
  lemma PathUsersDistinct(u1: string, u2: string, t1: nat, t2: nat, e1: string, e2: string)
    requires u1 != u2 && '_' !in u1 && '_' !in u2
    ensures Path(u1, t1, e1) != Path(u2, t2, e2)
  {
    var p1, p2 := Path(u1, t1, e1), Path(u2, t2, e2);
    var n := |PREFIX|;
    if |u1| == |u2| {
      var k :| 0 <= k < |u1| && u1[k] != u2[k];
      assert p1[n + k] == u1[k] && p2[n + k] == u2[k];
    } else if |u1| < |u2| {
      assert p1[n + |u1|] == '_' && p2[n + |u1|] == u2[|u1|];
    } else {
      assert p2[n + |u2|] == '_' && p1[n + |u2|] == u1[|u2|];
    }
  }
}
