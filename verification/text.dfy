/** String primitives of Python's `str` that the service relies on:
    `find`/`rfind`, slicing with negative and out-of-range bounds,
    `"\n".join`, the `\s` character class of `re`, and `str(int)`. */
module Text {

  /** Index of the first occurrence of `c` in `s`, or -1 (`str.find`). */
  function Find(s: string, c: char): (r: int)
    ensures -1 <= r < |s|
    ensures r == -1 <==> c !in s
    ensures r >= 0 ==> s[r] == c && c !in s[..r]
    decreases |s|
  {
    if |s| == 0 then -1
    else if s[0] == c then 0
    else
      var k := Find(s[1..], c);
      assert s[1..][..if k >= 0 then k else 0] == s[1..if k >= 0 then k + 1 else 1];
      if k == -1 then -1 else k + 1
  }

  /** `find` gives the position of the first occurrence. */
  lemma FindFirst(s: string, c: char, k: nat)
    requires k < |s| && s[k] == c && c !in s[..k]
    ensures Find(s, c) == k
  {
    assert s[..k + 1][k] == c;
  }

  /** Index of the last occurrence of `c` in `s`, or -1 (`str.rfind`). */
  function RFind(s: string, c: char): (r: int)
    ensures -1 <= r < |s|
    ensures r == -1 <==> c !in s
    ensures r >= 0 ==> s[r] == c && c !in s[r + 1..]
    decreases |s|
  {
    if |s| == 0 then -1
    else if s[|s| - 1] == c then |s| - 1
    else
      var k := RFind(s[..|s| - 1], c);
      RFindStep(s, c, k);
      k
  }

  /** The last character is not `c`, so the answer for `s` is the answer
      for `s` without it. */
  lemma RFindStep(s: string, c: char, k: int)
    requires |s| > 0 && s[|s| - 1] != c && -1 <= k < |s| - 1
    requires k == -1 <==> c !in s[..|s| - 1]
    requires k >= 0 ==> s[k] == c && c !in s[..|s| - 1][k + 1..]
    ensures k == -1 <==> c !in s
    ensures k >= 0 ==> c !in s[k + 1..]
  {
    var init := s[..|s| - 1];
    assert s == init + [s[|s| - 1]];
    if k >= 0 {
      assert s[k + 1..] == init[k + 1..] + [s[|s| - 1]];
    }
  }

  /** `rfind` gives the position of the last occurrence. */
  lemma RFindLast(s: string, c: char, k: nat)
    requires k < |s| && s[k] == c && c !in s[k + 1..]
    ensures RFind(s, c) == k
  {
    assert s[k..][0] == c;
  }

  /** How Python resolves one bound of `s[i:j]`: negative bounds count from
      the end, and the result is clamped into `0..|s|`. */
  function SliceBound(len: nat, i: int): (r: nat)
    ensures r <= len
    ensures 0 <= i <= len ==> r == i
    ensures i > len ==> r == len
    ensures -(len as int) <= i < 0 ==> r == len + i
    ensures i < -(len as int) ==> r == 0
  {
    if i < 0 then (if len + i < 0 then 0 else len + i)
    else if i > len then len
    else i
  }

  /** Python's `s[i:j]` (step 1): empty whenever the resolved start is not
      below the resolved stop. */
  function Slice(s: string, i: int, j: int): (r: string)
    ensures SliceBound(|s|, i) < SliceBound(|s|, j) ==>
              r == s[SliceBound(|s|, i)..SliceBound(|s|, j)]
    ensures SliceBound(|s|, i) >= SliceBound(|s|, j) ==> r == ""
  {
    var lo := SliceBound(|s|, i);
    var hi := SliceBound(|s|, j);
    if lo < hi then s[lo..hi] else ""
  }

  /** The characters matched by `\s` in a `re` pattern over `str`, which
      are exactly those for which `str.isspace()` holds. */
  predicate IsSpace(c: char) {
    || ('\t' <= c <= '\r')
    || ('\U{1C}' <= c <= ' ')
    || c == '\U{85}' || c == '\U{A0}' || c == '\U{1680}'
    || ('\U{2000}' <= c <= '\U{200A}')
    || c == '\U{2028}' || c == '\U{2029}' || c == '\U{202F}' || c == '\U{205F}'
    || c == '\U{3000}'
  }

  /** `sep.join(parts)`. */
  function Join(parts: seq<string>, sep: string): string
    decreases |parts|
  {
    if |parts| == 0 then ""
    else if |parts| == 1 then parts[0]
    else Join(parts[..|parts| - 1], sep) + sep + parts[|parts| - 1]
  }

  lemma {:induction false} JoinAppend(parts: seq<string>, last: string, sep: string)
    requires |parts| > 0
    ensures Join(parts + [last], sep) == Join(parts, sep) + sep + last
  {
    assert (parts + [last])[..|parts|] == parts;
  }

  /** Joining from the front: the first part, the separator, then the
      join of the others. */
  lemma {:induction false} JoinCons(p: string, ps: seq<string>, sep: string)
    requires |ps| > 0
    ensures Join([p] + ps, sep) == p + sep + Join(ps, sep)
    decreases |ps|
  {
    var n := |ps|;
    if n > 1 {
      var init := ps[..n - 1];
      assert ([p] + ps)[..n] == [p] + init;
      JoinCons(p, init, sep);
      assert Join([p] + ps, sep) == (p + sep + Join(init, sep)) + sep + ps[n - 1];
    }
  }

  /** Every part occurs in the joined text at the offset given by the
      lengths of the parts before it, each followed by one separator. */
  function JoinOffset(parts: seq<string>, sep: string, i: nat): nat
    requires i <= |parts|
  {
    if i == 0 then 0 else JoinOffset(parts, sep, i - 1) + |parts[i - 1]| + |sep|
  }

  lemma {:induction false} JoinPartAt(parts: seq<string>, sep: string, i: nat)
    requires i < |parts|
    ensures var o := JoinOffset(parts, sep, i);
            o + |parts[i]| <= |Join(parts, sep)| &&
            Join(parts, sep)[o..o + |parts[i]|] == parts[i]
    decreases |parts|
  {
    var n := |parts|;
    if n == 1 {
    } else {
      var init := parts[..n - 1];
      var front := Join(init, sep);
      assert Join(parts, sep) == front + sep + parts[n - 1];
      if i < n - 1 {
        JoinPartAt(init, sep, i);
        JoinOffsetPrefix(parts, init, sep, i);
        var o := JoinOffset(parts, sep, i);
        assert (front + sep + parts[n - 1])[o..o + |parts[i]|] == front[o..o + |parts[i]|];
      } else {
        JoinLength(init, sep);
        JoinOffsetPrefix(parts, init, sep, n - 2);
        assert JoinOffset(parts, sep, i) == |front| + |sep|;
        assert (front + sep + parts[n - 1])[|front| + |sep|..] == parts[n - 1];
      }
    }
  }

  lemma {:induction false} JoinOffsetPrefix(parts: seq<string>, init: seq<string>, sep: string, i: nat)
    requires |init| <= |parts| && init == parts[..|init|] && i <= |init|
    ensures JoinOffset(parts, sep, i) == JoinOffset(init, sep, i)
  {
    if i > 0 {
      JoinOffsetPrefix(parts, init, sep, i - 1);
    }
  }

  /** The joined text of a non-empty list ends right after its last part. */
  lemma {:induction false} JoinLength(parts: seq<string>, sep: string)
    requires |parts| > 0
    ensures |Join(parts, sep)| == JoinOffset(parts, sep, |parts| - 1) + |parts[|parts| - 1]|
    decreases |parts|
  {
    var n := |parts|;
    if n > 1 {
      var init := parts[..n - 1];
      JoinLength(init, sep);
      JoinOffsetPrefix(parts, init, sep, n - 2);
    }
  }

  /** Decimal digit character of `d`. */
  function DigitChar(d: nat): char
    requires d < 10
  {
    ['0', '1', '2', '3', '4', '5', '6', '7', '8', '9'][d]
  }

  predicate IsDigit(c: char) {
    '0' <= c <= '9'
  }

  function DigitValue(c: char): nat
    requires IsDigit(c)
  {
    (c as int) - ('0' as int)
  }

  /** `str(n)` for a non-negative `int`: shortest decimal form. */
  function NatToString(n: nat): (r: string)
    ensures |r| > 0
    ensures forall i :: 0 <= i < |r| ==> IsDigit(r[i])
    ensures |r| > 1 ==> r[0] != '0'
    decreases n
  {
    if n < 10 then [DigitChar(n)] else NatToString(n / 10) + [DigitChar(n % 10)]
  }

  /** Reads a string of decimal digits back as a number. */
  function StringToNat(s: string): nat
    requires forall i :: 0 <= i < |s| ==> IsDigit(s[i])
    decreases |s|
  {
    if |s| == 0 then 0
    else StringToNat(s[..|s| - 1]) * 10 + DigitValue(s[|s| - 1])
  }

  lemma {:induction false} NatToStringRoundTrip(n: nat)
    ensures StringToNat(NatToString(n)) == n
    decreases n
  {
    var r := NatToString(n);
    if n >= 10 {
      NatToStringRoundTrip(n / 10);
      assert r[..|r| - 1] == NatToString(n / 10);
    }
  }

  /** Distinct numbers render as distinct strings, so rendered ids never clash. */
  lemma NatToStringInjective(m: nat, n: nat)
    requires NatToString(m) == NatToString(n)
    ensures m == n
  {
    NatToStringRoundTrip(m);
    NatToStringRoundTrip(n);
  }
}
