/**
 * The JavaScript string built-ins the upload page relies on, written out:
 * `String.prototype.trim`, `String.prototype.split` with a one-character
 * separator, and the decimal rendering of a non-negative integer that a
 * template literal produces for `Date.now()`.
 */
module Text {

  /** The characters `trim` removes, as inclusive ranges of code points:
      ECMAScript's WhiteSpace (space, tab, vertical tab, form feed, the byte
      order mark and every Unicode space separator) and its LineTerminator
      characters (line feed, carriage return, line and paragraph separator). */
  const WHITESPACE: seq<(char, char)> := [
    (' ', ' '), ('\t', '\r'), ('\U{00A0}', '\U{00A0}'), ('\U{1680}', '\U{1680}'),
    ('\U{2000}', '\U{200A}'), ('\U{2028}', '\U{2029}'), ('\U{202F}', '\U{202F}'),
    ('\U{205F}', '\U{205F}'), ('\U{3000}', '\U{3000}'), ('\U{FEFF}', '\U{FEFF}')
  ]

  /** `ch` lies in one of the ranges. */
  predicate InRanges(ch: char, ranges: seq<(char, char)>) {
    ranges != [] && (ranges[0].0 <= ch <= ranges[0].1 || InRanges(ch, ranges[1..]))
  }

  predicate IsWhitespace(ch: char) {
    InRanges(ch, WHITESPACE)
  }

  /** Neither end of `s` is whitespace: `s` is its own trim. */
  predicate IsTrimmed(s: string) {
    s == [] || (!IsWhitespace(s[0]) && !IsWhitespace(s[|s| - 1]))
  }

  /** `s` without its leading whitespace. */
  function TrimStart(s: string): string {
    if s != [] && IsWhitespace(s[0]) then TrimStart(s[1..]) else s
  }

  /** `TrimStart` drops a whitespace prefix and stops at the first other
      character. */
  lemma {:induction false} TrimStartSpec(s: string)
    ensures var r := TrimStart(s);
      && |r| <= |s| && r == s[|s| - |r|..]
      && (forall i :: 0 <= i < |s| - |r| ==> IsWhitespace(s[i]))
      && (r != [] ==> !IsWhitespace(r[0]))
  {
    if s != [] && IsWhitespace(s[0]) {
      var t := s[1..];
      TrimStartSpec(t);
      var r := TrimStart(t);
      assert TrimStart(s) == r;
      assert t[|t| - |r|..] == s[|s| - |r|..];
      forall i | 0 <= i < |s| - |r|
        ensures IsWhitespace(s[i])
      {
        if i > 0 {
          assert s[i] == t[i - 1];
        }
      }
    }
  }

  /** `s` without its trailing whitespace. */
  function TrimEnd(s: string): string {
    if s != [] && IsWhitespace(s[|s| - 1]) then TrimEnd(s[..|s| - 1]) else s
  }

  /** `TrimEnd` drops a whitespace suffix and stops at the last other
      character. */
  lemma {:induction false} TrimEndSpec(s: string)
    ensures var r := TrimEnd(s);
      && |r| <= |s| && r == s[..|r|]
      && (forall i :: |r| <= i < |s| ==> IsWhitespace(s[i]))
      && (r != [] ==> !IsWhitespace(r[|r| - 1]))
  {
    if s != [] && IsWhitespace(s[|s| - 1]) {
      var t := s[..|s| - 1];
      TrimEndSpec(t);
      var r := TrimEnd(t);
      assert TrimEnd(s) == r;
      assert t[..|r|] == s[..|r|];
      forall i | |r| <= i < |s|
        ensures IsWhitespace(s[i])
      {
        if i < |s| - 1 {
          assert s[i] == t[i];
        }
      }
    }
  }

  /** `String.prototype.trim`. */
  function Trim(s: string): string {
    TrimEnd(TrimStart(s))
  }

  /** `trim` never leaves whitespace at either end, is no longer than its
      input and adds no character. */
  lemma TrimSpec(s: string)
    ensures var r := Trim(s);
      && |r| <= |s| && IsTrimmed(r)
      && forall ch :: ch !in s ==> ch !in r
  {
    var t := TrimStart(s);
    TrimStartSpec(s);
    TrimEndSpec(t);
    var r := TrimEnd(t);
    assert r != [] ==> r[0] == t[0];
    assert forall i :: 0 <= i < |r| ==> r[i] == s[|s| - |t| + i];
  }

  /** `Trim(s)` is the slice of `s` left once the whitespace at both ends is
      removed. */
  lemma TrimSlice(s: string)
    ensures var r, lo := Trim(s), |s| - |TrimStart(s)|;
      && 0 <= lo && lo + |r| <= |s| && r == s[lo..lo + |r|]
      && (forall i :: 0 <= i < lo ==> IsWhitespace(s[i]))
      && (forall i :: lo + |r| <= i < |s| ==> IsWhitespace(s[i]))
  {
    TrimStartSpec(s);
    TrimEndSpec(TrimStart(s));
  }

  /** Any way of cutting `s` into whitespace, a trimmed middle and whitespace
      yields the same middle, and that middle is `Trim(s)`. */
  lemma TrimUnique(s: string, lo: nat, hi: nat)
    requires lo <= hi <= |s|
    requires forall i :: 0 <= i < lo ==> IsWhitespace(s[i])
    requires forall i :: hi <= i < |s| ==> IsWhitespace(s[i])
    requires IsTrimmed(s[lo..hi])
    ensures Trim(s) == s[lo..hi]
  {
    var t := TrimStart(s);
    TrimSlice(s);
    TrimSpec(s);
    if lo < hi {
      // The first non-whitespace character of s is at lo, the last at hi - 1.
      assert !IsWhitespace(s[lo]) && !IsWhitespace(s[hi - 1]);
      assert |s| - |t| == lo;
    }
  }

  /** A string that is already trimmed is left as it is. */
  lemma TrimOfTrimmed(s: string)
    requires IsTrimmed(s)
    ensures Trim(s) == s
  {

  }

  /** `trim` is idempotent. */
  lemma TrimIdempotent(s: string)
    ensures Trim(Trim(s)) == Trim(s)
  {
    TrimSpec(s);
    TrimOfTrimmed(Trim(s));
  }

  /** The number of occurrences of `c` in `s`. */
  function Count(s: string, c: char): (n: nat)
    ensures n <= |s|
    ensures n == 0 <==> c !in s
  {
    if s == [] then 0 else (if s[0] == c then 1 else 0) + Count(s[1..], c)
  }

  /** `s.split(c)`: the pieces of `s` between the occurrences of `c`, in order;
      a string without `c` (the empty string too) is one piece. */
  function Split(s: string, c: char): (pieces: seq<string>)
    ensures |pieces| >= 1
  {
    if s == [] then [[]]
    else if s[0] == c then [[]] + Split(s[1..], c)
    else
      var rest := Split(s[1..], c);
      [[s[0]] + rest[0]] + rest[1..]
  }

  /** There is one more piece than there are occurrences of `c`, and no piece
      contains `c`. */
  lemma {:induction false} SplitSpec(s: string, c: char)
    ensures var pieces := Split(s, c);
      && |pieces| == Count(s, c) + 1
      && forall i :: 0 <= i < |pieces| ==> c !in pieces[i]
  {
    if s != [] {
      var rest := Split(s[1..], c);
      SplitSpec(s[1..], c);
      if s[0] != c {
        assert Split(s, c) == [[s[0]] + rest[0]] + rest[1..];
        assert c !in [s[0]] + rest[0];
      }
    }
  }

  /** A split has a single piece exactly when the separator does not occur. */
  lemma {:induction false} SplitSingle(s: string, c: char)
    ensures |Split(s, c)| == 1 <==> c !in s
  {
    if s != [] {
      SplitSingle(s[1..], c);
      if s[0] != c {
        assert (c in s) == (c in s[1..]);
      }
    }
  }

  /** `pieces.join(c)`: the inverse of `Split`. */
  function Join(pieces: seq<string>, c: char): string
    requires |pieces| >= 1
  {
    if |pieces| == 1 then pieces[0] else pieces[0] + [c] + Join(pieces[1..], c)
  }

  /** Joining the pieces of a split gives back the string. */
  lemma {:induction false} JoinSplit(s: string, c: char)
    ensures Join(Split(s, c), c) == s
  {
    if s == [] {
    } else if s[0] == c {
      JoinSplit(s[1..], c);
      assert Split(s, c)[1..] == Split(s[1..], c);
    } else {
      JoinSplit(s[1..], c);
      var rest := Split(s[1..], c);
      if |rest| == 1 {
        assert Join(Split(s, c), c) == [s[0]] + rest[0];
      } else {
        assert Split(s, c)[1..] == rest[1..];
        assert Join(Split(s, c), c) == [s[0]] + rest[0] + [c] + Join(rest[1..], c);
      }
    }
  }

  /** Splitting a join of pieces free of `c` gives back the pieces. */
  lemma {:induction false} SplitJoin(pieces: seq<string>, c: char)
    requires |pieces| >= 1
    requires forall i :: 0 <= i < |pieces| ==> c !in pieces[i]
    ensures Split(Join(pieces, c), c) == pieces
  {
    if |pieces| == 1 {
      SplitWithout(pieces[0], c);
    } else {
      SplitJoin(pieces[1..], c);
      SplitPrefix(pieces[0], c, Join(pieces[1..], c));
      assert pieces == [pieces[0]] + pieces[1..];
    }
  }

  /** A string without `c` is its own only piece. */
  lemma {:induction false} SplitWithout(s: string, c: char)
    requires c !in s
    ensures Split(s, c) == [s]
  {
    if s != [] {
      SplitWithout(s[1..], c);
      assert [s[0]] + s[1..] == s;
    }
  }

  /** A piece free of `c` followed by `c` starts the split. */
  lemma {:induction false} SplitPrefix(a: string, c: char, b: string)
    requires c !in a
    ensures Split(a + [c] + b, c) == [a] + Split(b, c)
  {
    var s := a + [c] + b;
    if a == [] {
      assert s[0] == c && s[1..] == b;
      assert Split(s, c) == [[]] + Split(b, c);
    } else {
      SplitPrefix(a[1..], c, b);
      assert s[0] == a[0] && s[0] != c;
      assert s[1..] == a[1..] + [c] + b;
      var rest := Split(s[1..], c);
      assert rest == [a[1..]] + Split(b, c);
      assert rest[0] == a[1..] && rest[1..] == Split(b, c);
      assert Split(s, c) == [[s[0]] + rest[0]] + rest[1..];
      assert [a[0]] + a[1..] == a;
    }
  }

  /** The last element of a non-empty sequence (`Array.prototype.pop`'s result). */
  function Last<T>(s: seq<T>): T
    requires |s| > 0
  {
    s[|s| - 1]
  }

  predicate IsDigit(ch: char) {
    '0' <= ch <= '9'
  }

  function DigitChar(d: nat): (ch: char)
    requires d < 10
    ensures IsDigit(ch)
  {
    (('0' as int) + d) as char
  }

  function DigitValue(ch: char): (d: nat)
    requires IsDigit(ch)
    ensures d < 10 && DigitChar(d) == ch
  {
    (ch as int) - ('0' as int)
  }

  /** The value of a string of decimal digits. */
  function ParseDecimal(s: string): nat
    requires forall i :: 0 <= i < |s| ==> IsDigit(s[i])
  {
    if s == [] then 0 else 10 * ParseDecimal(s[..|s| - 1]) + DigitValue(s[|s| - 1])
  }

  /** The decimal rendering of `n`, as `${n}` gives it for an integer number:
      at least one digit, no leading zero, and it parses back to `n`. */
  function Decimal(n: nat): (s: string)
    ensures |s| >= 1 && forall i :: 0 <= i < |s| ==> IsDigit(s[i])
    ensures s[0] == '0' ==> s == "0"
    ensures ParseDecimal(s) == n
  {
    if n < 10 then [DigitChar(n)]
    else
      var s := Decimal(n / 10) + [DigitChar(n % 10)];
      assert s[..|s| - 1] == Decimal(n / 10);
      s
  }

  /** Distinct numbers have distinct renderings. */
  lemma DecimalInjective(m: nat, n: nat)
    requires Decimal(m) == Decimal(n)
    ensures m == n
  {
  }

  /** Rendering the value of a digit string without leading zeros gives back
      the string. */
  lemma {:induction false} DecimalParse(s: string)
    requires |s| >= 1 && forall i :: 0 <= i < |s| ==> IsDigit(s[i])
    requires s[0] == '0' ==> s == "0"
    ensures Decimal(ParseDecimal(s)) == s
  {
    if |s| > 1 {
      var front := s[..|s| - 1];
      DecimalParse(front);
      var n := ParseDecimal(s);
      assert ParseDecimal(front) >= 1;
      assert n / 10 == ParseDecimal(front) && n % 10 == DigitValue(s[|s| - 1]);
      assert s == front + [s[|s| - 1]];
    }
  }
}
