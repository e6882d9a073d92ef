/** Extraction of the JSON object from the language model's raw reply
    (`output_handle`) and the trailing-comma repair (`fix_json`) in
    langchain_emoji/server/emoji/emoji_service.py.

    JSON decoding itself is a parameter: any partial decoder
    `string -> Option<J>` stands for `json.loads`. */
module OutputParser {
  import opened Wrappers
  import opened Text
  import opened Seqs

  // ---------------------------------------------------------------------
  // The rewrite `re.sub(r",\s*<close>", "<close>", s)`
  // ---------------------------------------------------------------------

  /** The two closing brackets the repair rewrites before. */
  predicate IsCloser(c: char) {
    c == '}' || c == ']'
  }

  /** Length of the run of `\s` characters at the start of `s`. */
  function SpaceRun(s: string): (k: nat)
    ensures k <= |s|
    ensures forall i :: 0 <= i < k ==> IsSpace(s[i])
    ensures k < |s| ==> !IsSpace(s[k])
    decreases |s|
  {
    if |s| > 0 && IsSpace(s[0]) then 1 + SpaceRun(s[1..]) else 0
  }

  predicate AllSpace(s: string) {
    forall i :: 0 <= i < |s| ==> IsSpace(s[i])
  }

  /** Does `,\s*<close>` match at the very start of `s`?  Since `close`
      is not whitespace, the greedy `\s*` never needs to back off, so
      the match (when there is one) ends at the first non-space. */
  predicate MatchesAt(s: string, close: char) {
    && |s| > 0
    && s[0] == ','
    && 1 + SpaceRun(s[1..]) < |s|
    && s[1 + SpaceRun(s[1..])] == close
  }

  /** One left-to-right pass of `re.sub`: each match `,\s*<close>` is
      replaced by `<close>` and scanning resumes after it; elsewhere the
      character is copied and scanning moves on by one. */
  function StripPass(s: string, close: char): (r: string)
    requires IsCloser(close)
    ensures |r| <= |s|
    decreases |s|
  {
    if |s| == 0 then ""
    else if MatchesAt(s, close) then
      [close] + StripPass(s[2 + SpaceRun(s[1..])..], close)
    else
      [s[0]] + StripPass(s[1..], close)
  }

  /** `fix_json`'s rewrite: first before every `}`, then, on the result,
      before every `]`. */
  function FixJsonText(s: string): string {
    StripPass(StripPass(s, '}'), ']')
  }

  /** The shape `fix_json` targets: a comma followed only by whitespace
      up to a closing bracket, anywhere in the text. */
  predicate HasTrailingComma(s: string, close: char) {
    exists i, j :: 0 <= i < j < |s| && s[i] == ',' && s[j] == close && AllSpace(s[i + 1..j])
  }

  // ---------------------------------------------------------------------
  // What the rewrite preserves
  // ---------------------------------------------------------------------

  /** A character the rewrite can never delete. */
  predicate Kept(c: char) {
    c != ',' && !IsSpace(c)
  }

  /** The characters of `s` other than commas and whitespace, in order. */
  function KeptChars(s: string): string
    decreases |s|
  {
    if |s| == 0 then ""
    else (if Kept(s[0]) then [s[0]] else "") + KeptChars(s[1..])
  }

  lemma {:induction false} KeptCharsConcat(a: string, b: string)
    ensures KeptChars(a + b) == KeptChars(a) + KeptChars(b)
    decreases |a|
  {
    if |a| > 0 {
      assert (a + b)[1..] == a[1..] + b;
      KeptCharsConcat(a[1..], b);
    } else {
      assert a + b == b;
    }
  }

  lemma {:induction false} KeptCharsOfSpaces(s: string)
    requires AllSpace(s)
    ensures KeptChars(s) == ""
    decreases |s|
  {
    if |s| > 0 {
      KeptCharsOfSpaces(s[1..]);
    }
  }

  /** A match at the start of `s` spans a comma, a whitespace run and the
      closing bracket, and nothing else. */
  lemma MatchShape(s: string, close: char)
    requires IsCloser(close) && MatchesAt(s, close)
    ensures var k := SpaceRun(s[1..]);
            s == ([','] + s[1..1 + k]) + ([close] + s[2 + k..]) && AllSpace(s[1..1 + k])
  {
    var k := SpaceRun(s[1..]);
    assert s == ([','] + s[1..1 + k]) + ([close] + s[2 + k..]);
  }

  /** The rewrite only deletes characters: the result is a subsequence of
      its input. */
  lemma {:induction false} StripPassDeletesOnly(s: string, close: char)
    requires IsCloser(close)
    ensures IsSubsequence(StripPass(s, close), s)
    decreases |s|
  {
    if |s| == 0 {
    } else if MatchesAt(s, close) {
      var k := SpaceRun(s[1..]);
      var rest := s[2 + k..];
      MatchShape(s, close);
      StripPassMatchStep(s, close);
      StripPassDeletesOnly(rest, close);
      SubsequenceCons(close, StripPass(rest, close), rest);
      SubsequenceSkipAll([close] + StripPass(rest, close), [close] + rest, [','] + s[1..1 + k]);
    } else {
      StripPassCopyStep(s, close);
      StripPassDeletesOnly(s[1..], close);
      SubsequenceCons(s[0], StripPass(s[1..], close), s[1..]);
      assert [s[0]] + s[1..] == s;
    }
  }

  /** Where a match starts, it is replaced by the bracket. */
  lemma StripPassMatchStep(s: string, close: char)
    requires IsCloser(close) && MatchesAt(s, close)
    ensures StripPass(s, close) == [close] + StripPass(s[2 + SpaceRun(s[1..])..], close)
  {
  }

  /** The only characters the rewrite deletes are commas and whitespace:
      every other character survives, in order. */
  lemma {:induction false} StripPassKeepsOthers(s: string, close: char)
    requires IsCloser(close)
    ensures KeptChars(StripPass(s, close)) == KeptChars(s)
    decreases |s|
  {
    if |s| == 0 {
    } else if MatchesAt(s, close) {
      var k := SpaceRun(s[1..]);
      var rest := s[2 + k..];
      var pre := [','] + s[1..1 + k];
      MatchShape(s, close);
      StripPassMatchStep(s, close);
      StripPassKeepsOthers(rest, close);
      KeptCharsConcat([close], StripPass(rest, close));
      KeptCharsConcat(pre, [close] + rest);
      KeptCharsConcat([','], s[1..1 + k]);
      KeptCharsConcat([close], rest);
      KeptCharsOfSpaces(s[1..1 + k]);
      assert KeptChars([',']) == "";
      assert KeptChars([close]) == [close];
    } else {
      StripPassCopyStep(s, close);
      StripPassKeepsOthers(s[1..], close);
      KeptCharsConcat([s[0]], StripPass(s[1..], close));
      KeptCharsConcat([s[0]], s[1..]);
      assert [s[0]] + s[1..] == s;
    }
  }

  /** A pattern occurrence at position 0 is exactly a match at the start. */
  lemma PatternAtStart(s: string, close: char, j: int)
    requires IsCloser(close)
    requires 0 < j < |s| && s[0] == ',' && s[j] == close && AllSpace(s[1..j])
    ensures MatchesAt(s, close)
  {
  }

  lemma MatchIsTrailingComma(s: string, close: char)
    requires IsCloser(close) && MatchesAt(s, close)
    ensures HasTrailingComma(s, close)
  {
    var k := SpaceRun(s[1..]);
    assert s[1..][..k] == s[1..1 + k];
    assert s[0] == ',' && s[1 + k] == close && AllSpace(s[1..1 + k]);
  }

  lemma TailTrailingComma(s: string, close: char)
    requires |s| > 0 && HasTrailingComma(s[1..], close)
    ensures HasTrailingComma(s, close)
  {
    var t := s[1..];
    var i, j :| 0 <= i < j < |t| && t[i] == ',' && t[j] == close && AllSpace(t[i + 1..j]);
    assert s[i + 1] == ',' && s[j + 1] == close && s[i + 2..j + 1] == t[i + 1..j];
  }

  /** Without the trailing comma shape the rewrite copies its input. */
  lemma {:induction false} StripPassNoMatchIdentity(s: string, close: char)
    requires IsCloser(close) && !HasTrailingComma(s, close)
    ensures StripPass(s, close) == s
    decreases |s|
  {
    if |s| > 0 {
      if MatchesAt(s, close) {
        MatchIsTrailingComma(s, close);
      }
      if HasTrailingComma(s[1..], close) {
        TailTrailingComma(s, close);
      }
      StripPassNoMatchIdentity(s[1..], close);
      assert [s[0]] + s[1..] == s;
    }
  }

  /** With the trailing comma shape somewhere, the rewrite deletes at least
      one character. */
  lemma {:induction false} StripPassMatchShortens(s: string, close: char)
    requires IsCloser(close) && HasTrailingComma(s, close)
    ensures |StripPass(s, close)| < |s|
    decreases |s|
  {
    if !MatchesAt(s, close) {
      var i, j :| 0 <= i < j < |s| && s[i] == ',' && s[j] == close && AllSpace(s[i + 1..j]);
      if i == 0 {
        PatternAtStart(s, close, j);
        assert false;
      }
      var t := s[1..];
      assert t[i - 1] == ',' && t[j - 1] == close && t[i..j - 1] == s[i + 1..j];
      StripPassMatchShortens(t, close);
    }
  }

  /** The rewrite is the identity exactly on texts without the trailing
      comma shape. */
  lemma StripPassIdentityIff(s: string, close: char)
    requires IsCloser(close)
    ensures StripPass(s, close) == s <==> !HasTrailingComma(s, close)
  {
    if HasTrailingComma(s, close) {
      StripPassMatchShortens(s, close);
    } else {
      StripPassNoMatchIdentity(s, close);
    }
  }

  /** Comma-free text passes through the rewrite unchanged. */
  lemma CommaFreeUnchanged(s: string, close: char)
    requires IsCloser(close) && ',' !in s
    ensures StripPass(s, close) == s
  {
    StripPassIdentityIff(s, close);
  }

  /** One pass is single and non-overlapping: of two commas before a
      brace only the one touching it goes. */
  lemma DoubleCommaKeepsOne()
    ensures StripPass(",,}", '}') == ",}"
  {
    assert !MatchesAt(",,}", '}');
    assert ",,}"[1..] == ",}";
    assert MatchesAt(",}", '}');
    assert ",}"[2..] == "";
  }

  /** `fix_json`'s rewrite only deletes characters. */
  lemma FixJsonDeletesOnly(s: string)
    ensures IsSubsequence(FixJsonText(s), s)
  {
    var t := StripPass(s, '}');
    StripPassDeletesOnly(s, '}');
    StripPassDeletesOnly(t, ']');
    SubsequenceTrans(FixJsonText(s), t, s);
  }

  /** `fix_json`'s rewrite keeps every character other than commas and
      whitespace, in order. */
  lemma FixJsonKeepsOthers(s: string)
    ensures KeptChars(FixJsonText(s)) == KeptChars(s)
  {
    StripPassKeepsOthers(s, '}');
    StripPassKeepsOthers(StripPass(s, '}'), ']');
  }

  /** `fix_json`'s rewrite is the identity exactly when neither bracket is
      preceded by the trailing comma shape. */
  lemma FixJsonIdentityIff(s: string)
    ensures FixJsonText(s) == s <==> !HasTrailingComma(s, '}') && !HasTrailingComma(s, ']')
  {
    var t := StripPass(s, '}');
    if HasTrailingComma(s, '}') {
      StripPassMatchShortens(s, '}');
    } else {
      StripPassNoMatchIdentity(s, '}');
      StripPassIdentityIff(s, ']');
    }
  }

  // ---------------------------------------------------------------------
  // The rewrite on concatenations
  // ---------------------------------------------------------------------

  /** No match can start inside comma-free text, so such a prefix is
      copied as it is. */
  lemma {:induction false} StripPassCommaFreePrefix(a: string, b: string, close: char)
    requires IsCloser(close) && ',' !in a
    ensures StripPass(a + b, close) == a + StripPass(b, close)
    decreases |a|
  {
    if |a| == 0 {
      assert a + b == b;
    } else {
      assert (a + b)[1..] == a[1..] + b;
      StripPassCommaFreePrefix(a[1..], b, close);
      assert a == [a[0]] + a[1..];
    }
  }

  /** A prefix without the trailing comma shape, whose last character is
      neither whitespace, a comma nor the bracket, is copied as it is:
      every match that starts in it would have to end in it. */
  lemma {:induction false} StripPassGuardedPrefix(a: string, b: string, close: char)
    requires IsCloser(close) && !HasTrailingComma(a, close)
    requires |a| > 0 && Kept(a[|a| - 1]) && a[|a| - 1] != close
    ensures StripPass(a + b, close) == a + StripPass(b, close)
    decreases |a|
  {
    NoMatchInGuarded(a, b, close);
    StripPassCopyStep(a + b, close);
    assert (a + b)[1..] == a[1..] + b;
    if |a| == 1 {
      assert a[1..] + b == b;
    } else {
      NoTrailingCommaTail(a, close);
      StripPassGuardedPrefix(a[1..], b, close);
    }
    GuardedStep(a, b, StripPass(b, close));
  }

  lemma GuardedStep(a: string, b: string, t: string)
    requires |a| > 0
    ensures [(a + b)[0]] + (a[1..] + t) == a + t
  {
    assert a == [a[0]] + a[1..];
  }

  lemma NoTrailingCommaTail(a: string, close: char)
    requires |a| > 0 && !HasTrailingComma(a, close)
    ensures !HasTrailingComma(a[1..], close)
  {
    if HasTrailingComma(a[1..], close) {
      TailTrailingComma(a, close);
    }
  }

  /** No match starts at the front of such a prefix. */
  lemma NoMatchInGuarded(a: string, b: string, close: char)
    requires IsCloser(close) && !HasTrailingComma(a, close)
    requires |a| > 0 && Kept(a[|a| - 1]) && a[|a| - 1] != close
    ensures !MatchesAt(a + b, close)
  {
    var s := a + b;
    if s[0] == ',' {
      assert |a| > 1;
      var t := a[1..];
      SpaceRunGuarded(t, b);
      var k := SpaceRun(t);
      assert s[1..] == t + b;
      assert s[1 + k] == a[1 + k];
      assert AllSpace(a[1..1 + k]) by {
        assert forall m :: 0 <= m < k ==> a[1..1 + k][m] == t[m];
      }
    }
  }

  /** A whitespace run that starts in text ending in a non-space
      character ends inside it. */
  lemma {:induction false} SpaceRunGuarded(t: string, b: string)
    requires |t| > 0 && !IsSpace(t[|t| - 1])
    ensures SpaceRun(t + b) == SpaceRun(t) < |t|
    decreases |t|
  {
    if IsSpace(t[0]) {
      assert |t| > 1;
      assert (t + b)[1..] == t[1..] + b;
      SpaceRunGuarded(t[1..], b);
    }
  }

  /** A comma followed by whitespace and then something other than the
      bracket is no match: the comma and the whitespace are copied. */
  lemma StripPassSeparator(ws: string, rest: string, close: char)
    requires IsCloser(close) && AllSpace(ws)
    requires |rest| > 0 && rest[0] != close && !IsSpace(rest[0])
    ensures StripPass([','] + ws + rest, close) == [','] + ws + StripPass(rest, close)
  {
    SeparatorNoMatch(ws, rest, close);
    SpacesCommaFree(ws);
    StripPassCopyPrefix(ws, rest, close);
  }

  lemma StripPassCopyPrefix(ws: string, rest: string, close: char)
    requires IsCloser(close) && ',' !in ws && !MatchesAt([','] + ws + rest, close)
    ensures StripPass([','] + ws + rest, close) == [','] + ws + StripPass(rest, close)
  {
    var s := [','] + ws + rest;
    StripPassCopyStep(s, close);
    assert s[1..] == ws + rest;
    StripPassCommaFreePrefix(ws, rest, close);
    var t := StripPass(rest, close);
    assert [','] + (ws + t) == [','] + ws + t;
  }

  lemma SeparatorNoMatch(ws: string, rest: string, close: char)
    requires IsCloser(close) && AllSpace(ws)
    requires |rest| > 0 && rest[0] != close && !IsSpace(rest[0])
    ensures !MatchesAt([','] + ws + rest, close)
  {
    var s := [','] + ws + rest;
    assert s[1..] == ws + rest;
    SpaceRunOver(ws, rest);
    assert (ws + rest)[|ws|] == rest[0];
  }

  /** Where no match starts, the first character is copied. */
  lemma StripPassCopyStep(s: string, close: char)
    requires IsCloser(close) && |s| > 0 && !MatchesAt(s, close)
    ensures StripPass(s, close) == [s[0]] + StripPass(s[1..], close)
  {
  }

  lemma SpacesCommaFree(ws: string)
    requires AllSpace(ws)
    ensures ',' !in ws
  {
  }

  /** A comma, whitespace and the bracket: the match, replaced by the
      bracket alone. */
  lemma StripPassTrailing(ws: string, rest: string, close: char)
    requires IsCloser(close) && AllSpace(ws)
    ensures StripPass([','] + ws + [close] + rest, close) == [close] + StripPass(rest, close)
  {
    var s := [','] + ws + [close] + rest;
    SpaceRunOver(ws, [close] + rest);
    assert s[1..] == ws + ([close] + rest);
    assert s[1 + |ws|] == close;
    assert MatchesAt(s, close);
    assert s[2 + |ws|..] == rest;
  }

  lemma {:induction false} SpaceRunOver(ws: string, rest: string)
    requires AllSpace(ws) && |rest| > 0 && !IsSpace(rest[0])
    ensures SpaceRun(ws + rest) == |ws|
    decreases |ws|
  {
    if |ws| > 0 {
      assert (ws + rest)[1..] == ws[1..] + rest;
      SpaceRunOver(ws[1..], rest);
    }
  }

  // ---------------------------------------------------------------------
  // output_handle
  // ---------------------------------------------------------------------

  /** `output[output.find("{") : output.rfind("}") + 1]`. */
  function ExtractSpan(output: string): string {
    Slice(output, Find(output, '{'), RFind(output, '}') + 1)
  }

  /** When the reply has a `{` at or before its last `}`, the span runs
      from the first `{` through the last `}` inclusive. */
  lemma ExtractSpanBraces(output: string)
    requires '{' in output && '}' in output
    requires Find(output, '{') <= RFind(output, '}')
    ensures var i := Find(output, '{');
            var j := RFind(output, '}');
            && ExtractSpan(output) == output[i..j + 1]
            && '{' !in output[..i]
            && '}' !in output[j + 1..]
            && ExtractSpan(output)[0] == '{'
            && ExtractSpan(output)[|ExtractSpan(output)| - 1] == '}'
  {
    var i := Find(output, '{');
    var j := RFind(output, '}');
    assert SliceBound(|output|, i) == i;
    assert SliceBound(|output|, j + 1) == j + 1;
    var span := output[i..j + 1];
    assert ExtractSpan(output) == span;
    assert span[0] == output[i] && span[|span| - 1] == output[j];
  }

  /** Otherwise the span is empty or the single character `}`: without a
      `{` the start index is -1, which Python reads as the last position. */
  lemma ExtractSpanDegenerate(output: string)
    requires '{' !in output || '}' !in output || Find(output, '{') > RFind(output, '}')
    ensures ExtractSpan(output) == "" || ExtractSpan(output) == "}"
    ensures ExtractSpan(output) == "}" <==>
              '{' !in output && |output| > 0 && output[|output| - 1] == '}'
  {
    var n := |output|;
    if '{' !in output && '}' in output {
      var j := RFind(output, '}');
      if j == n - 1 {
        assert ExtractSpan(output) == output[n - 1..n];
      }
    }
  }

  /** Why `output_handle` failed: the decoder rejected the repaired span too. */
  datatype DecodeError = DecodeError(repaired: string)

  /** `output_handle`: decode the span; on failure repair it once and
      decode again, letting that second failure propagate. */
  function OutputHandle<J>(decode: string -> Option<J>, output: string): Result<J, DecodeError> {
    var span := ExtractSpan(output);
    match decode(span)
    case Some(v) => Success(v)
    case None =>
      match decode(FixJsonText(span))
      case Some(v) => Success(v)
      case None => Failure(DecodeError(FixJsonText(span)))
  }

  /** The outcome in terms of the two decoder calls: the span itself, and
      the span repaired exactly once. */
  lemma OutputHandleAttempts<J>(decode: string -> Option<J>, output: string)
    ensures var span := ExtractSpan(output);
            && (decode(span).Some? ==> OutputHandle(decode, output) == Success(decode(span).value))
            && (decode(span).None? && decode(FixJsonText(span)).Some? ==>
                  OutputHandle(decode, output) == Success(decode(FixJsonText(span)).value))
            && (decode(span).None? && decode(FixJsonText(span)).None? ==>
                  OutputHandle(decode, output) == Failure(DecodeError(FixJsonText(span))))
  {
  }

  /** There is no second repair: two decoders that agree on the span and on
      the once-repaired span give the same outcome, whatever they do on any
      further rewrite of it. */
  lemma RepairedAtMostOnce<J>(d1: string -> Option<J>, d2: string -> Option<J>, output: string)
    requires d1(ExtractSpan(output)) == d2(ExtractSpan(output))
    requires d1(FixJsonText(ExtractSpan(output))) == d2(FixJsonText(ExtractSpan(output)))
    ensures OutputHandle(d1, output) == OutputHandle(d2, output)
  {
  }

  /** A decoder that, like `json.loads`, rejects the empty text and a lone `}`. */
  predicate RejectsDegenerate<J>(decode: string -> Option<J>) {
    decode("") == None && decode("}") == None
  }

  /** Replies with no `{`, no `}`, or the last `}` before the first `{`
      always end in the decode error, after the (no-op) repair. */
  lemma NoObjectFails<J>(decode: string -> Option<J>, output: string)
    requires RejectsDegenerate(decode)
    requires '{' !in output || '}' !in output || Find(output, '{') > RFind(output, '}')
    ensures OutputHandle(decode, output).Failure?
  {
    ExtractSpanDegenerate(output);
    var span := ExtractSpan(output);
    CommaFreeUnchanged(span, '}');
    CommaFreeUnchanged(span, ']');
  }

  /** A span the decoder already accepts is never rewritten. */
  lemma WellFormedNotRepaired<J>(decode: string -> Option<J>, output: string)
    requires decode(ExtractSpan(output)).Some?
    ensures OutputHandle(decode, output) == Success(decode(ExtractSpan(output)).value)
  {
  }
}
