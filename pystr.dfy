/**
  The pieces of Python's built-in `str` behaviour that the metadata builders rely on:
  slicing `s[:n]`, `strip()`, `split(c)[0]`, `replace(pat, "")`, `sep.join(parts)` and `c * n`.
  Python strings are sequences of code points, so `len` is `|s|` on `seq<char>`.
*/
module PyStr {

  /** `c.isspace()` in Python 3: the 29 code points Unicode classes as white space
      (the same set the regular-expression class `\s` matches). */
  predicate IsSpace(c: char)
  {
    ('\t' <= c <= '\r') || ('\U{1C}' <= c <= ' ') || c == '\U{85}' || c == '\U{A0}'
    || c == '\U{1680}' || ('\U{2000}' <= c <= '\U{200A}') || c == '\U{2028}' || c == '\U{2029}'
    || c == '\U{202F}' || c == '\U{205F}' || c == '\U{3000}'
  }

  predicate AllSpace(s: string)
  {
    forall i | 0 <= i < |s| :: IsSpace(s[i])
  }

  /** `s[:n]` */
  function Take(s: string, n: nat): (r: string)
    ensures r <= s
    ensures |r| == if |s| <= n then |s| else n
  {
    if |s| <= n then s else s[..n]
  }

  /** `s.lstrip()` */
  function StripLeading(s: string): (r: string)
    ensures |r| <= |s| && r == s[|s| - |r|..]
    ensures r == [] || !IsSpace(r[0])
    ensures AllSpace(s[..|s| - |r|])
  {
    if s == [] || !IsSpace(s[0]) then s
    else
      var r := StripLeading(s[1..]);
      assert s[..|s| - |r|] == [s[0]] + s[1..][..|s[1..]| - |r|];
      r
  }

  /** `s.rstrip()` */
  function StripTrailing(s: string): (r: string)
    ensures |r| <= |s| && r == s[..|r|]
    ensures r == [] || !IsSpace(r[|r| - 1])
    ensures AllSpace(s[|r|..])
  {
    if s == [] || !IsSpace(s[|s| - 1]) then s
    else
      var r := StripTrailing(s[..|s| - 1]);
      assert s[..|s| - 1][|r|..] == s[|r|..|s| - 1];
      r
  }

  /** `s.strip()`: drops white space at both ends. */
  function Strip(s: string): (r: string)
    ensures r == [] || (!IsSpace(r[0]) && !IsSpace(r[|r| - 1]))
  {
    var l := StripLeading(s);
    var r := StripTrailing(l);
    assert r != [] ==> r[0] == l[0];
    r
  }

  /** What `strip()` promises: the result is `s[i..j]`, where everything cut off at either end
      is white space, and it neither starts nor ends with white space. */
  lemma StripSpec(s: string) returns (i: nat, j: nat)
    ensures i <= j <= |s| && Strip(s) == s[i..j]
    ensures AllSpace(s[..i]) && AllSpace(s[j..])
    ensures Strip(s) == [] || (!IsSpace(Strip(s)[0]) && !IsSpace(Strip(s)[|Strip(s)| - 1]))
  {
    var l := StripLeading(s);
    var r := StripTrailing(l);
    i := |s| - |l|;
    j := i + |r|;
    assert r == s[i..j];
    assert s[j..] == l[|r|..];
    if r != [] {
      assert r[0] == l[0];
    }
  }

  /** Stripping twice is stripping once. */
  lemma StripIdempotent(s: string)
    ensures Strip(Strip(s)) == Strip(s)
  {
    var r := Strip(s);
    if r != [] {
      var _, _ := StripSpec(s);
      assert StripLeading(r) == r;
    }
  }

  /** `s.split(c)[0]`: the text before the first `c` (all of `s` when there is none). */
  function BeforeFirst(s: string, c: char): (r: string)
    ensures r <= s && c !in r
    ensures |r| < |s| ==> s[|r|] == c
  {
    if s == [] || s[0] == c then [] else [s[0]] + BeforeFirst(s[1..], c)
  }

  /** `s.replace(pat, "")`: deletes the non-overlapping occurrences of `pat`, scanning left to
      right; an empty `pat` leaves `s` as it is. */
  function RemoveAll(s: string, pat: string): (r: string)
    ensures |r| <= |s|
    ensures multiset(r) <= multiset(s)
    decreases |s|
  {
    if pat == [] || s == [] then s
    else if pat <= s then
      assert s == s[..|pat|] + s[|pat|..];
      RemoveAll(s[|pat|..], pat)
    else
      var r := RemoveAll(s[1..], pat);
      assert s == [s[0]] + s[1..];
      [s[0]] + r
  }

  /** `pat` occurs in `s` at some position. */
  predicate Occurs(pat: string, s: string)
  {
    exists i: nat | i <= |s| :: OccursAt(pat, s, i)
  }

  predicate OccursAt(pat: string, s: string, i: nat)
  {
    i + |pat| <= |s| && s[i..i + |pat|] == pat
  }

  /** How many occurrences `replace` deletes, scanning as it does. */
  function Removals(s: string, pat: string): nat
    decreases |s|
  {
    if pat == [] || s == [] then 0
    else if pat <= s then 1 + Removals(s[|pat|..], pat)
    else Removals(s[1..], pat)
  }

  /** Every deletion shortens the text by exactly `|pat|` characters. */
  lemma {:induction false} RemoveAllLength(s: string, pat: string)
    ensures |RemoveAll(s, pat)| == |s| - |pat| * Removals(s, pat)
    decreases |s|
  {
    if pat == [] || s == [] {
    } else if pat <= s {
      var rest := s[|pat|..];
      RemoveAllLength(rest, pat);
      Distribute(|pat|, Removals(rest, pat));
    } else {
      RemoveAllLength(s[1..], pat);
    }
  }

  lemma Distribute(a: int, n: int)
    ensures a * (n + 1) == a * n + a && a * (1 + n) == a * n + a
  {
  }

  /** `replace` changes nothing when there is nothing to remove. */
  lemma {:induction false} RemoveAllUnchanged(s: string, pat: string)
    requires !Occurs(pat, s)
    ensures RemoveAll(s, pat) == s
    decreases |s|
  {
    if pat == [] || s == [] {
    } else if pat <= s {
      assert OccursAt(pat, s, 0);
    } else {
      forall i: nat | i + |pat| <= |s[1..]|
        ensures !OccursAt(pat, s[1..], i)
      {
        assert s[1..][i..i + |pat|] == s[i + 1..i + 1 + |pat|];
        assert !OccursAt(pat, s, i + 1);
      }
      RemoveAllUnchanged(s[1..], pat);
    }
  }

  /** `sep.join(parts)` */
  function Join(parts: seq<string>, sep: string): (r: string)
    ensures parts == [] ==> r == []
    ensures |parts| == 1 ==> r == parts[0]
  {
    if parts == [] then [] else if |parts| == 1 then parts[0] else parts[0] + sep + Join(parts[1..], sep)
  }

  /** Every part appears inside the joined text: `i` is where part `k` starts. */
  lemma {:induction false} JoinContains(parts: seq<string>, sep: string, k: nat) returns (i: nat)
    requires k < |parts|
    ensures OccursAt(parts[k], Join(parts, sep), i)
  {
    var j := Join(parts, sep);
    if |parts| == 1 || k == 0 {
      i := 0;
      assert j == parts[0] || j == parts[0] + sep + Join(parts[1..], sep);
    } else {
      var rest := Join(parts[1..], sep);
      var i' := JoinContains(parts[1..], sep, k - 1);
      assert j == (parts[0] + sep) + rest;
      OccursAfter(parts[k], parts[0] + sep, rest, i');
      i := |parts[0]| + |sep| + i';
    }
  }

  /** An occurrence in `s` is still there, shifted, after a prefix. */
  lemma OccursAfter(p: string, pre: string, s: string, i: nat)
    requires OccursAt(p, s, i)
    ensures OccursAt(p, pre + s, |pre| + i)
  {
    assert (pre + s)[|pre| + i..|pre| + i + |p|] == s[i..i + |p|];
  }

  /** `c * n` */
  function Repeat(c: char, n: nat): (r: string)
    ensures |r| == n && forall i | 0 <= i < n :: r[i] == c
  {
    if n == 0 then [] else [c] + Repeat(c, n - 1)
  }

  /** `c.lower()` for the characters that can match an ASCII lower-case letter: the ASCII
      capitals and the KELVIN SIGN U+212A, whose lower case is `k`. Every other character whose
      `lower()` is not itself either lowers to a non-ASCII text or to more than one character,
      so neither can equal an ASCII file extension. */
  function LowerAscii(c: char): (r: char)
    ensures 'a' <= r <= 'z' ==> r == c || ('A' <= c <= 'Z' && c as int + 32 == r as int) || (c == '\U{212A}' && r == 'k')
  {
    if 'A' <= c <= 'Z' then (c as int + 32) as char
    else if c == '\U{212A}' then 'k'
    else c
  }

  function LowerAsciiString(s: string): (r: string)
    ensures |r| == |s| && forall i | 0 <= i < |s| :: r[i] == LowerAscii(s[i])
  {
    if s == [] then [] else [LowerAscii(s[0])] + LowerAsciiString(s[1..])
  }

  /** In `a + tail`, `a` comes first and a prefix `p` of `tail` follows it. */
  lemma PieceAt(a: string, tail: string, p: string)
    requires p <= tail
    ensures a <= a + tail
    ensures OccursAt(p, a + tail, |a|)
  {
    assert (a + tail)[|a|..] == tail;
  }

  /** An occurrence in `s` is still there after a suffix. */
  lemma OccursBefore(p: string, s: string, post: string, i: nat)
    requires OccursAt(p, s, i)
    ensures OccursAt(p, s + post, i)
  {
    assert (s + post)[i..i + |p|] == s[i..i + |p|];
  }
}
