/** The Python `str` operations the tool relies on: `strip()`, `startswith`,
    `endswith` and `lower()`, over strings as sequences of characters. */
module PyStr {

  /** The code-point ranges for which Python's `str.isspace()` holds. */
  const WhitespaceRanges: seq<(int, int)> := [
    (0x09, 0x0D), (0x1C, 0x20), (0x85, 0x85), (0xA0, 0xA0), (0x1680, 0x1680),
    (0x2000, 0x200A), (0x2028, 0x2029), (0x202F, 0x202F), (0x205F, 0x205F), (0x3000, 0x3000)
  ]

  /** The code point `n` lies in one of the inclusive ranges `rs`. */
  predicate InRanges(n: int, rs: seq<(int, int)>)
  {
    rs != [] && (rs[0].0 <= n <= rs[0].1 || InRanges(n, rs[1..]))
  }

  /** A code point in one of the ranges `rs` lies within any bounds that enclose them all. */
  lemma {:induction false} InRangesWithin(n: int, rs: seq<(int, int)>, lo: int, hi: int)
    requires forall i :: 0 <= i < |rs| ==> lo <= rs[i].0 && rs[i].1 <= hi
    ensures InRanges(n, rs) ==> lo <= n <= hi
  {
    if rs != [] {
      InRangesWithin(n, rs[1..], lo, hi);
    }
  }

  /** Python's `str.isspace()` on one character: the ASCII blanks (tab, line
      feed, vertical tab, form feed, carriage return, space) are whitespace, and
      nothing below the tab or above the ideographic space is. */
  predicate IsSpace(c: char): (b: bool)
    ensures '\t' <= c <= '\r' || c == ' ' ==> b
    ensures b ==> '\t' <= c <= '\U{3000}'
  {
    InRangesWithin(c as int, WhitespaceRanges, 0x09, 0x3000);
    InRanges(c as int, WhitespaceRanges)
  }

  /** The text has no whitespace at either end: what `strip()` leaves behind. */
  predicate IsStripped(s: string)
  {
    s == [] || (!IsSpace(s[0]) && !IsSpace(s[|s| - 1]))
  }

  /** Every character of the text is whitespace. */
  predicate AllSpace(s: string)
  {
    forall k :: 0 <= k < |s| ==> IsSpace(s[k])
  }

  /** `s.lstrip()`: drops leading whitespace. */
  function TrimStart(s: string): (r: string)
    ensures r == [] || !IsSpace(r[0])
  {
    if |s| > 0 && IsSpace(s[0]) then TrimStart(s[1..]) else s
  }

  /** `s.rstrip()`: drops trailing whitespace, keeping a prefix of `s`. */
  function TrimEnd(s: string): (r: string)
    ensures |r| <= |s| && forall k :: 0 <= k < |r| ==> r[k] == s[k]
    ensures r == [] || !IsSpace(r[|r| - 1])
  {
    if |s| > 0 && IsSpace(s[|s| - 1]) then TrimEnd(s[..|s| - 1]) else s
  }

  /** `s.strip()`: the text with all surrounding whitespace removed. */
  function Strip(s: string): (r: string)
    ensures IsStripped(r)
  {
    TrimEnd(TrimStart(s))
  }

  /** `lstrip()` keeps a suffix of `s` and drops only whitespace. */
  lemma {:induction false} TrimStartSuffix(s: string)
    ensures var r := TrimStart(s);
      |r| <= |s| && r == s[|s| - |r|..] && AllSpace(s[..|s| - |r|])
  {
    if |s| > 0 && IsSpace(s[0]) {
      TrimStartSuffix(s[1..]);
      var r := TrimStart(s[1..]);
      var dropped := s[1..][..|s| - 1 - |r|];
      assert AllSpace(dropped);
      assert s[1..][|s| - 1 - |r|..] == s[|s| - |r|..];
      var prefix := s[..|s| - |r|];
      forall k | 0 <= k < |prefix| ensures IsSpace(prefix[k]) {
        if k > 0 {
          assert prefix[k] == dropped[k - 1];
        }
      }
    }
  }

  /** `rstrip()` keeps a prefix of `s` and drops only whitespace. */
  lemma {:induction false} TrimEndPrefix(s: string)
    ensures var r := TrimEnd(s);
      |r| <= |s| && r == s[..|r|] && AllSpace(s[|r|..])
  {
    if |s| > 0 && IsSpace(s[|s| - 1]) {
      TrimEndPrefix(s[..|s| - 1]);
      var r := TrimEnd(s[..|s| - 1]);
      assert s[|r|..] == s[..|s| - 1][|r|..] + [s[|s| - 1]];
    }
  }

  /** What `strip()` keeps is a slice of `s`, and what it removes on either side is whitespace. */
  lemma StripSlice(s: string)
    ensures exists i ::
      && 0 <= i <= |s| - |Strip(s)|
      && Strip(s) == s[i..i + |Strip(s)|]
      && AllSpace(s[..i])
      && AllSpace(s[i + |Strip(s)|..])
  {
    var t := TrimStart(s);
    var r := TrimEnd(t);
    TrimStartSuffix(s);
    TrimEndPrefix(t);
    var i := |s| - |t|;
    assert s[i..] == t;
    assert s[i..i + |r|] == s[i..][..|r|];
    assert s[i + |r|..] == t[|r|..];
  }

  /** Text that is already stripped is left as it is. */
  lemma StripStripped(s: string)
    requires IsStripped(s)
    ensures Strip(s) == s
  {
  }

  /** `strip()` is idempotent. */
  lemma StripIdempotent(s: string)
    ensures Strip(Strip(s)) == Strip(s)
  {
    StripStripped(Strip(s));
  }

  /** No printable ASCII character other than the space is whitespace. */
  lemma PrintableNotSpace(c: char)
    requires '!' <= c <= '~'
    ensures !IsSpace(c)
  {
    var rs := WhitespaceRanges;
    assert !InRanges(c as int, rs[9..]);
    assert !InRanges(c as int, rs[8..]);
    assert !InRanges(c as int, rs[7..]);
    assert !InRanges(c as int, rs[6..]);
    assert !InRanges(c as int, rs[5..]);
    assert !InRanges(c as int, rs[4..]);
    assert !InRanges(c as int, rs[3..]);
    assert !InRanges(c as int, rs[2..]);
    assert !InRanges(c as int, rs[1..]);
  }

  /** A text that begins and ends with a printable ASCII character other than the
      space is not changed by `strip()`. */
  lemma StripPrintableEnds(s: string)
    requires s != [] ==> '!' <= s[0] <= '~' && '!' <= s[|s| - 1] <= '~'
    ensures Strip(s) == s
  {
    if s != [] {
      PrintableNotSpace(s[0]);
      PrintableNotSpace(s[|s| - 1]);
      StripStripped(s);
    }
  }

  /** `s.startswith(p)`: `s` is at least as long as `p` and agrees with it
      character by character from the front. */
  predicate StartsWith(s: string, p: string): (b: bool)
    ensures b <==> |p| <= |s| && forall k :: 0 <= k < |p| ==> s[k] == p[k]
  {
    |p| <= |s| && s[..|p|] == p
  }

  /** `s.endswith(p)`: `s` is at least as long as `p` and agrees with it
      character by character from the back. */
  predicate EndsWith(s: string, p: string): (b: bool)
    ensures b <==> |p| <= |s| && forall k :: 0 <= k < |p| ==> s[|s| - |p| + k] == p[k]
  {
    |p| <= |s| && s[|s| - |p|..] == p
  }

  /** A concatenation ends with its second part. */
  lemma EndsWithAppend(s: string, p: string)
    ensures EndsWith(s + p, p)
  {
    assert (s + p)[|s|..] == p;
  }

  /** Lower-casing of one character, for the ASCII letters. */
  function LowerChar(c: char): char
  {
    if 'A' <= c <= 'Z' then (c as int + 32) as char else c
  }

  /** `s.lower()`, restricted to ASCII letters (see README). */
  function Lower(s: string): (r: string)
    ensures |r| == |s|
  {
    seq(|s|, k requires 0 <= k < |s| => LowerChar(s[k]))
  }

  /** Lower-casing works character by character, so it distributes over concatenation. */
  lemma LowerAppend(a: string, b: string)
    ensures Lower(a + b) == Lower(a) + Lower(b)
  {
    assert forall k :: 0 <= k < |a + b| ==> Lower(a + b)[k] == (Lower(a) + Lower(b))[k];
  }
}
