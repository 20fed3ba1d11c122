/**
 * The few Python string operations the model needs, on `string` (a sequence
 * of characters): `str.split` and `str.join` on a one-character separator,
 * `str.replace`, `str.rstrip`, `str.strip`, `str.isdigit`, `int()` and `str()`
 * of an integer.
 */
module Text {

  /** `s.split(sep)`: the pieces between the separators; never an empty list. */
  function Split(s: string, sep: char): (parts: seq<string>)
    ensures |parts| >= 1
    ensures forall i :: 0 <= i < |parts| ==> sep !in parts[i]
  {
    if |s| == 0 then [""]
    else if s[0] == sep then [""] + Split(s[1..], sep)
    else
      var rest := Split(s[1..], sep);
      [[s[0]] + rest[0]] + rest[1..]
  }

  /** `sep.join(parts)`. */
  function Join(parts: seq<string>, sep: char): string
  {
    if |parts| == 0 then ""
    else if |parts| == 1 then parts[0]
    else parts[0] + [sep] + Join(parts[1..], sep)
  }

  lemma {:induction false} SplitWithoutSep(s: string, sep: char)
    requires sep !in s
    ensures Split(s, sep) == [s]
  {
    if |s| > 0 {
      SplitWithoutSep(s[1..], sep);
      assert [s[0]] + s[1..] == s;
    }
  }

  lemma {:induction false} SplitAfterPiece(p: string, sep: char, t: string)
    requires sep !in p
    ensures Split(p + [sep] + t, sep) == [p] + Split(t, sep)
  {
    if |p| == 0 {
      assert (p + [sep] + t)[1..] == t;
    } else {
      var s := p + [sep] + t;
      assert s[1..] == p[1..] + [sep] + t;
      SplitAfterPiece(p[1..], sep, t);
      assert [p[0]] + p[1..] == p;
    }
  }

  /** Splitting a join gives the pieces back, provided none holds the separator. */
  lemma {:induction false} SplitJoin(parts: seq<string>, sep: char)
    requires |parts| >= 1
    requires forall i :: 0 <= i < |parts| ==> sep !in parts[i]
    ensures Split(Join(parts, sep), sep) == parts
  {
    if |parts| == 1 {
      SplitWithoutSep(parts[0], sep);
    } else {
      SplitJoin(parts[1..], sep);
      SplitAfterPiece(parts[0], sep, Join(parts[1..], sep));
      assert [parts[0]] + parts[1..] == parts;
    }
  }

  /** Joining what was split gives the original string back. */
  lemma {:induction false} JoinSplit(s: string, sep: char)
    ensures Join(Split(s, sep), sep) == s
  {
    if |s| > 0 {
      JoinSplit(s[1..], sep);
      if s[0] != sep {
        var rest := Split(s[1..], sep);
        if |rest| > 1 {
          assert ([[s[0]] + rest[0]] + rest[1..])[1..] == rest[1..];
        }
      }
    }
  }

  /** A character that is in no piece and is not the separator is not in the join. */
  lemma {:induction false} JoinAvoids(parts: seq<string>, sep: char, c: char)
    requires c != sep
    requires forall i :: 0 <= i < |parts| ==> c !in parts[i]
    ensures c !in Join(parts, sep)
  {
    if |parts| > 1 {
      JoinAvoids(parts[1..], sep, c);
    }
  }

  /** `s.replace(c, rep)` for a one-character pattern `c`. */
  function ReplaceChar(s: string, c: char, rep: string): (r: string)
    ensures c !in rep ==> c !in r
    ensures forall d :: d != c && d !in rep ==> (d in r <==> d in s)
  {
    if |s| == 0 then ""
    else (if s[0] == c then rep else [s[0]]) + ReplaceChar(s[1..], c, rep)
  }

  /** True when `pat` occurs in `s` at position `k`. */
  predicate OccursAt(s: string, pat: string, k: int)
  {
    0 <= k && k + |pat| <= |s| && s[k..k + |pat|] == pat
  }

  predicate NoOccurrence(s: string, pat: string)
  {
    forall k :: 0 <= k <= |s| - |pat| ==> !OccursAt(s, pat, k)
  }

  /**
   * `s.replace(pat, rep)`: occurrences are found left to right and do not
   * overlap; scanning resumes after each replaced occurrence.
   */
  function ReplaceAll(s: string, pat: string, rep: string): string
    requires |pat| > 0
  {
    if |s| < |pat| then s
    else if s[..|pat|] == pat then rep + ReplaceAll(s[|pat|..], pat, rep)
    else [s[0]] + ReplaceAll(s[1..], pat, rep)
  }

  lemma {:induction false} ReplaceAllNoOccurrence(s: string, pat: string, rep: string)
    requires |pat| > 0 && NoOccurrence(s, pat)
    ensures ReplaceAll(s, pat, rep) == s
  {
    if |s| >= |pat| {
      assert !OccursAt(s, pat, 0);
      forall k | 0 <= k <= |s[1..]| - |pat|
        ensures !OccursAt(s[1..], pat, k)
      {
        assert !OccursAt(s, pat, k + 1);
        assert s[1..][k..k + |pat|] == s[k + 1..k + 1 + |pat|];
      }
      ReplaceAllNoOccurrence(s[1..], pat, rep);
      assert [s[0]] + s[1..] == s;
    }
  }

  /** A non-empty prefix is its first character followed by a prefix of the tail. */
  lemma ConsSlice(t: string, m: int)
    requires 1 <= m <= |t|
    ensures t[..m] == [t[0]] + t[1..][..m - 1]
  {
    var x, y := t[..m], [t[0]] + t[1..][..m - 1];
    forall i | 0 <= i < |x|
      ensures x[i] == y[i]
    {
      if i > 0 {
        assert y[i] == t[1..][i - 1];
      }
    }
  }

  /** The first character of a replacement's result. */
  lemma ReplaceAllFirst(t: string, pat: string, rep: string)
    requires |pat| > 0 && |rep| > 0 && |t| > 0
    ensures |ReplaceAll(t, pat, rep)| > 0
    ensures ReplaceAll(t, pat, rep)[0] == if |t| >= |pat| && t[..|pat|] == pat then rep[0] else t[0]
  {
  }

  /**
   * When the first `m` characters of a replacement's result all belong to
   * the pattern, and the replacement text shares no character with it, no
   * replacement happened among them: they are copied from the input.
   */
  lemma {:induction false} ReplaceAllHeadKept(t: string, pat: string, rep: string, m: int)
    requires |pat| > 0 && |rep| > 0 && rep[0] !in pat
    requires 0 <= m <= |ReplaceAll(t, pat, rep)|
    requires forall i :: 0 <= i < m ==> ReplaceAll(t, pat, rep)[i] in pat
    ensures m <= |t| && ReplaceAll(t, pat, rep)[..m] == t[..m]
  {
    var r := ReplaceAll(t, pat, rep);
    if m == 0 || |t| < |pat| {
    } else if t[..|pat|] == pat {
      ReplaceAllFirst(t, pat, rep);
      assert false;
    } else {
      var rest := ReplaceAll(t[1..], pat, rep);
      assert r == [t[0]] + rest;
      forall i | 0 <= i < m - 1
        ensures rest[i] in pat
      {
        assert r[i + 1] == rest[i];
      }
      ReplaceAllHeadKept(t[1..], pat, rep, m - 1);
      ConsSlice(r, m);
      assert r[1..] == rest;
      ConsSlice(t, m);
    }
  }

  /** A text without pattern characters in front of one without an occurrence. */
  lemma NoOccurrenceAfterForeign(rep: string, rest: string, pat: string)
    requires |pat| > 0 && forall c :: c in rep ==> c !in pat
    requires NoOccurrence(rest, pat)
    ensures NoOccurrence(rep + rest, pat)
  {
    var r := rep + rest;
    forall k | 0 <= k <= |r| - |pat|
      ensures !OccursAt(r, pat, k)
    {
      if k < |rep| {
        assert r[k] == rep[k] && rep[k] in rep;
      } else {
        assert !OccursAt(rest, pat, k - |rep|);
        assert r[k..k + |pat|] == rest[k - |rep|..k - |rep| + |pat|];
      }
    }
  }

  /** One character in front of a text: only the first position is new. */
  lemma NoOccurrenceAfterChar(c: char, rest: string, pat: string)
    requires NoOccurrence(rest, pat) && !OccursAt([c] + rest, pat, 0)
    ensures NoOccurrence([c] + rest, pat)
  {
    var r := [c] + rest;
    forall k | 1 <= k <= |r| - |pat|
      ensures !OccursAt(r, pat, k)
    {
      assert !OccursAt(rest, pat, k - 1);
      assert r[k..k + |pat|] == rest[k - 1..k - 1 + |pat|];
    }
  }

  /**
   * If the pattern starts the replacement's result after a kept first
   * character, it already started the input there.
   */
  lemma KeptHeadFromResult(s: string, pat: string, rep: string, rest: string)
    requires |pat| > 0 && |rep| > 0 && rep[0] !in pat && |s| >= |pat|
    requires rest == ReplaceAll(s[1..], pat, rep)
    requires OccursAt([s[0]] + rest, pat, 0)
    ensures s[..|pat|] == pat
  {
    var r := [s[0]] + rest;
    var n := |pat| - 1;
    forall i | 0 <= i < n
      ensures rest[i] in pat
    {
      assert rest[i] == r[i + 1] == r[..|pat|][i + 1];
    }
    ReplaceAllHeadKept(s[1..], pat, rep, n);
    ConsSlice(r, |pat|);
    ConsSlice(s, |pat|);
    assert r[1..] == rest;
  }

  /**
   * When the input does not start with the pattern, neither does the
   * replacement's result, provided the replacement text shares no character
   * with the pattern.
   */
  lemma KeptHeadNoOccurrence(s: string, pat: string, rep: string)
    requires |pat| > 0 && |rep| > 0
    requires forall c :: c in rep ==> c !in pat
    requires |s| >= |pat| && s[..|pat|] != pat
    ensures !OccursAt(ReplaceAll(s, pat, rep), pat, 0)
  {
    var rest := ReplaceAll(s[1..], pat, rep);
    assert ReplaceAll(s, pat, rep) == [s[0]] + rest;
    assert rep[0] in rep;
    if OccursAt([s[0]] + rest, pat, 0) {
      KeptHeadFromResult(s, pat, rep, rest);
      assert false;
    }
  }

  /**
   * Replacing every occurrence by a text that shares no character with the
   * pattern leaves no occurrence behind.
   */
  lemma {:induction false} ReplaceAllRemoves(s: string, pat: string, rep: string)
    requires |pat| > 0 && |rep| > 0
    requires forall c :: c in rep ==> c !in pat
    ensures NoOccurrence(ReplaceAll(s, pat, rep), pat)
  {
    if |s| < |pat| {
    } else if s[..|pat|] == pat {
      ReplaceAllRemoves(s[|pat|..], pat, rep);
      NoOccurrenceAfterForeign(rep, ReplaceAll(s[|pat|..], pat, rep), pat);
    } else {
      ReplaceAllRemoves(s[1..], pat, rep);
      KeptHeadNoOccurrence(s, pat, rep);
      NoOccurrenceAfterChar(s[0], ReplaceAll(s[1..], pat, rep), pat);
    }
  }

  /** Characters Python's `str.isspace` accepts, which `str.strip()` removes. */
  predicate IsSpace(c: char)
  {
    ('\t' <= c <= '\r') || ('\U{1c}' <= c <= '\U{1f}') || c == ' ' || c == '\U{85}' || c == '\U{a0}'
    || c == '\U{1680}' || ('\U{2000}' <= c <= '\U{200a}') || c == '\U{2028}' || c == '\U{2029}'
    || c == '\U{202f}' || c == '\U{205f}' || c == '\U{3000}'
  }

  /** `s.lstrip()`: drops the leading whitespace, and only that. */
  function StripLeft(s: string): (r: string)
    ensures |r| <= |s| && r == s[|s| - |r|..]
    ensures |r| > 0 ==> !IsSpace(r[0])
    ensures forall i :: 0 <= i < |s| - |r| ==> IsSpace(s[i])
  {
    if |s| > 0 && IsSpace(s[0]) then StripLeft(s[1..]) else s
  }

  /** `s.rstrip()`: drops the trailing whitespace, and only that. */
  function StripRight(s: string): (r: string)
    ensures |r| <= |s| && r == s[..|r|]
    ensures |r| > 0 ==> !IsSpace(r[|r| - 1])
    ensures forall i :: |r| <= i < |s| ==> IsSpace(s[i])
  {
    if |s| > 0 && IsSpace(s[|s| - 1]) then StripRight(s[..|s| - 1]) else s
  }

  /** `s.strip()`. */
  function Strip(s: string): string
  {
    StripRight(StripLeft(s))
  }

  /** A string that `strip()` leaves alone. */
  predicate Trimmed(s: string)
  {
    |s| > 0 ==> !IsSpace(s[0]) && !IsSpace(s[|s| - 1])
  }

  lemma StripTrims(s: string)
    ensures Trimmed(Strip(s))
    ensures Trimmed(s) ==> Strip(s) == s
  {
    var l := StripLeft(s);
    var r := StripRight(l);
    if |r| > 0 {
      assert r[0] == l[0];
    }
  }

  /** A contiguous piece of a string without an occurrence has none either. */
  lemma NoOccurrenceSlice(s: string, pat: string, a: int, b: int)
    requires 0 <= a <= b <= |s| && NoOccurrence(s, pat)
    ensures NoOccurrence(s[a..b], pat)
  {
    var r := s[a..b];
    forall k | 0 <= k <= |r| - |pat|
      ensures !OccursAt(r, pat, k)
    {
      assert !OccursAt(s, pat, a + k);
      var x, y := r[k..k + |pat|], s[a + k..a + k + |pat|];
      forall i | 0 <= i < |x|
        ensures x[i] == y[i]
      {
        assert x[i] == r[k + i] == s[a + k + i];
      }
      assert x == y;
    }
  }

  /** Stripping keeps a contiguous piece, so it cannot create an occurrence. */
  lemma StripKeepsNoOccurrence(s: string, pat: string)
    requires NoOccurrence(s, pat)
    ensures NoOccurrence(Strip(s), pat)
  {
    var l := StripLeft(s);
    var r := StripRight(l);
    var off := |s| - |l|;
    assert r == s[off..off + |r|];
    NoOccurrenceSlice(s, pat, off, off + |r|);
  }

  /** `s.rstrip("\n\r")`, which the loader applies to every line it reads. */
  function StripLineEnd(s: string): (r: string)
    ensures |r| <= |s| && r == s[..|r|]
    ensures |r| > 0 ==> r[|r| - 1] != '\n' && r[|r| - 1] != '\r'
    ensures forall i :: |r| <= i < |s| ==> s[i] == '\n' || s[i] == '\r'
  {
    if |s| > 0 && (s[|s| - 1] == '\n' || s[|s| - 1] == '\r') then StripLineEnd(s[..|s| - 1]) else s
  }

  /** A line written with a trailing newline reads back as itself. */
  lemma StripLineEndOfWritten(l: string)
    requires '\n' !in l && '\r' !in l
    ensures StripLineEnd(l + "\n") == l
  {
    assert (l + "\n")[..|l|] == l;
    if |l| > 0 {
      assert l[|l| - 1] in l;
    }
  }

  predicate IsDigit(c: char)
  {
    '0' <= c <= '9'
  }

  /** `s.isdigit()`, restricted to the ASCII digits: false on the empty string. */
  predicate IsDigits(s: string)
  {
    |s| > 0 && forall i :: 0 <= i < |s| ==> IsDigit(s[i])
  }

  /** `int(s)` of a string of decimal digits (leading zeros allowed). */
  function DigitsValue(s: string): nat
    requires forall i :: 0 <= i < |s| ==> IsDigit(s[i])
  {
    if |s| == 0 then 0
    else DigitsValue(s[..|s| - 1]) * 10 + DigitValue(s[|s| - 1])
  }

  function DigitValue(c: char): nat
    requires IsDigit(c)
  {
    c as int - '0' as int
  }

  function DigitChar(d: nat): char
    requires d < 10
  {
    ('0' as int + d) as char
  }

  /** `str(n)` of a natural number: decimal digits, no leading zero. */
  function NatToString(n: nat): string
  {
    if n < 10 then [DigitChar(n)] else NatToString(n / 10) + [DigitChar(n % 10)]
  }

  /** `str(i)` of any integer. */
  function IntToString(i: int): string
  {
    if i < 0 then "-" + NatToString(-i) else NatToString(i)
  }

  /** `int(str(n)) == n`, and `str(n).isdigit()` holds. */
  lemma {:induction false} NatToStringRoundTrip(n: nat)
    ensures IsDigits(NatToString(n))
    ensures DigitsValue(NatToString(n)) == n
  {
    if n >= 10 {
      NatToStringRoundTrip(n / 10);
      var s := NatToString(n);
      assert s[..|s| - 1] == NatToString(n / 10);
    }
  }

}
