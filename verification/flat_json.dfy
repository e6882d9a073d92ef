/** The JSON the service expects back from the language model: one object
    whose members all have string values (section 4 and 7 of RFC 8259).
    `Decode` is the part of `json.loads` that such replies exercise;
    `Encode` writes an object with a chosen layout, as a model would,
    including the trailing comma that `fix_json` exists to remove. */
module FlatJson {
  import opened Wrappers
  import opened Text
  import OutputParser

  // ---------------------------------------------------------------------
  // Whitespace
  // ---------------------------------------------------------------------

  /** Insignificant whitespace (section 2 of RFC 8259). */
  predicate IsJsonSpace(c: char) {
    c == ' ' || c == '\t' || c == '\n' || c == '\r'
  }

  predicate AllJsonSpace(s: string) {
    forall i :: 0 <= i < |s| ==> IsJsonSpace(s[i])
  }

  /** JSON whitespace is `\s` whitespace, so `fix_json` may delete it. */
  lemma JsonSpaceIsSpace(s: string)
    requires AllJsonSpace(s)
    ensures OutputParser.AllSpace(s)
  {
  }

  function SkipSpace(s: string): (r: string)
    ensures |r| <= |s|
    ensures |r| > 0 ==> !IsJsonSpace(r[0])
    decreases |s|
  {
    if |s| > 0 && IsJsonSpace(s[0]) then SkipSpace(s[1..]) else s
  }

  lemma {:induction false} SkipSpaceOver(ws: string, rest: string)
    requires AllJsonSpace(ws) && (|rest| == 0 || !IsJsonSpace(rest[0]))
    ensures SkipSpace(ws + rest) == rest
    decreases |ws|
  {
    if |ws| == 0 {
      assert ws + rest == rest;
    } else {
      assert (ws + rest)[1..] == ws[1..] + rest;
      SkipSpaceOver(ws[1..], rest);
    }
  }

  // ---------------------------------------------------------------------
  // Strings
  // ---------------------------------------------------------------------

  /** Lower-case hexadecimal digit. */
  function HexDigit(d: nat): char
    requires d < 16
  {
    if d < 10 then (('0' as int) + d) as char else (('a' as int) + (d - 10)) as char
  }

  function HexValue(c: char): (r: Option<nat>)
    ensures r.Some? ==> r.value < 16
  {
    if '0' <= c <= '9' then Some((c as int) - ('0' as int))
    else if 'a' <= c <= 'f' then Some((c as int) - ('a' as int) + 10)
    else if 'A' <= c <= 'F' then Some((c as int) - ('A' as int) + 10)
    else None
  }

  lemma HexValueOfDigit(d: nat)
    requires d < 16
    ensures HexValue(HexDigit(d)) == Some(d)
  {
  }

  /** How the encoder writes one character inside a string literal: the
      quote, the backslash and the control characters are escaped
      (section 7 of RFC 8259), everything else is written as it is. */
  function EscapeChar(c: char): (r: string)
    ensures |r| > 0
  {
    if c == '"' then ['\\', '"']
    else if c == '\\' then ['\\', '\\']
    else if c == '\n' then ['\\', 'n']
    else if c == '\r' then ['\\', 'r']
    else if c == '\t' then ['\\', 't']
    else if c == '\U{8}' then ['\\', 'b']
    else if c == '\U{C}' then ['\\', 'f']
    else if (c as int) < 0x20 then ['\\', 'u', '0', '0', HexDigit((c as int) / 16), HexDigit((c as int) % 16)]
    else [c]
  }

  function EscapeString(v: string): string
    decreases |v|
  {
    if |v| == 0 then "" else EscapeChar(v[0]) + EscapeString(v[1..])
  }

  /** A string literal: the escaped text between double quotes. */
  function EncodeString(v: string): string {
    ['"'] + EscapeString(v) + ['"']
  }

  /** The character an escape sequence (the text after the backslash)
      stands for, and how many characters the sequence takes. Escapes of
      UTF-16 surrogates are not modelled and are rejected. */
  function ParseEscape(s: string): (r: Option<(char, nat)>)
    ensures r.Some? ==> 1 <= r.value.1 <= |s|
  {
    if |s| == 0 then None
    else if s[0] == '"' then Some(('"', 1))
    else if s[0] == '\\' then Some(('\\', 1))
    else if s[0] == '/' then Some(('/', 1))
    else if s[0] == 'b' then Some(('\U{8}', 1))
    else if s[0] == 'f' then Some(('\U{C}', 1))
    else if s[0] == 'n' then Some(('\n', 1))
    else if s[0] == 'r' then Some(('\r', 1))
    else if s[0] == 't' then Some(('\t', 1))
    else if s[0] == 'u' && |s| >= 5 then
      match (HexValue(s[1]), HexValue(s[2]), HexValue(s[3]), HexValue(s[4]))
      case (Some(a), Some(b), Some(c), Some(d)) =>
        var code := ((a * 16 + b) * 16 + c) * 16 + d;
        if 0xD800 <= code < 0xE000 then None else Some((code as char, 5))
      case _ => None
    else None
  }

  /** Reads a string literal's contents up to its closing quote; gives the
      value and the text after the quote. Raw control characters are
      rejected, as `json.loads` does by default. */
  function ParseStringBody(s: string): (r: Option<(string, string)>)
    ensures r.Some? ==> |r.value.1| < |s|
    decreases |s|
  {
    if |s| == 0 then None
    else if s[0] == '"' then Some(("", s[1..]))
    else if s[0] == '\\' then
      match ParseEscape(s[1..])
      case None => None
      case Some((c, n)) =>
        match ParseStringBody(s[1 + n..])
        case None => None
        case Some((v, rest)) => Some(([c] + v, rest))
    else if (s[0] as int) < 0x20 then None
    else
      match ParseStringBody(s[1..])
      case None => None
      case Some((v, rest)) => Some(([s[0]] + v, rest))
  }

  function ParseString(s: string): (r: Option<(string, string)>)
    ensures r.Some? ==> |r.value.1| < |s|
  {
    if |s| > 0 && s[0] == '"' then ParseStringBody(s[1..]) else None
  }

  /** Reading one written character consumes exactly its escape. */
  lemma ParseCharThen(c: char, tail: string)
    ensures ParseStringBody(EscapeChar(c) + tail)
            == match ParseStringBody(tail)
               case None => None
               case Some((v, rest)) => Some(([c] + v, rest))
  {
    var s := EscapeChar(c) + tail;
    if |EscapeChar(c)| == 2 {
      assert s[1..][1..] == tail;
      assert s[2..] == tail;
    } else if |EscapeChar(c)| == 6 {
      var h1 := (c as int) / 16;
      var h2 := (c as int) % 16;
      HexValueOfDigit(0);
      HexValueOfDigit(h1);
      HexValueOfDigit(h2);
      assert s[1..][1] == '0' && s[1..][2] == '0' && s[1..][3] == HexDigit(h1) && s[1..][4] == HexDigit(h2);
      assert ParseEscape(s[1..]) == Some((c, 5));
      assert s[6..] == tail;
    } else {
      assert s[1..] == tail;
    }
  }

  /** The string literal round trip: reading the escaped text of `v`
      followed by a quote gives `v` back and stops after the quote. */
  lemma {:induction false} ParseEscaped(v: string, rest: string)
    ensures ParseStringBody(EscapeString(v) + (['"'] + rest)) == Some((v, rest))
    decreases |v|
  {
    var q := ['"'] + rest;
    if |v| == 0 {
      assert EscapeString(v) + q == q;
      assert q[1..] == rest;
    } else {
      var e := EscapeChar(v[0]);
      var tail := EscapeString(v[1..]) + q;
      ParseEscaped(v[1..], rest);
      ParseCharThen(v[0], tail);
      Reassociate(e, EscapeString(v[1..]), q);
      assert [v[0]] + v[1..] == v;
    }
  }

  lemma Reassociate(a: string, b: string, c: string)
    ensures (a + b) + c == a + (b + c)
  {
  }

  lemma ParseEncodedString(v: string, rest: string)
    ensures ParseString(EncodeString(v) + rest) == Some((v, rest))
  {
    var s := EncodeString(v) + rest;
    assert s[1..] == EscapeString(v) + (['"'] + rest);
    ParseEscaped(v, rest);
  }

  /** The escaped text of a comma-free string is comma-free. */
  lemma {:induction false} EscapeCommaFree(v: string)
    requires ',' !in v
    ensures ',' !in EscapeString(v)
    decreases |v|
  {
    if |v| > 0 {
      EscapeCommaFree(v[1..]);
      assert v[0] != ',';
      var e := EscapeChar(v[0]);
      assert ',' !in e;
    }
  }

  // ---------------------------------------------------------------------
  // Objects
  // ---------------------------------------------------------------------

  /** A member `"key": "value"`. */
  datatype Member = Member(key: string, value: string)

  /** The text after a key, past the colon and its whitespace. */
  function AfterColon(s: string): (r: Option<string>)
    ensures r.Some? ==> |r.value| < |s|
  {
    var t := SkipSpace(s);
    if |t| > 0 && t[0] == ':' then Some(t[1..]) else None
  }

  /** One member after optional whitespace; gives the member and the text
      after its value. */
  function ParseMember(s: string): (r: Option<(Member, string)>)
    ensures r.Some? ==> |r.value.1| < |s|
  {
    match ParseString(SkipSpace(s))
    case None => None
    case Some((k, r1)) =>
      match AfterColon(r1)
      case None => None
      case Some(r2) =>
        match ParseString(SkipSpace(r2))
        case None => None
        case Some((v, r3)) => Some((Member(k, v), r3))
  }

  /** What may follow a member: a comma and another member, or the
      closing brace. */
  datatype Next = More(rest: string) | End(rest: string) | Unexpected

  function AfterMember(s: string): (r: Next)
    ensures !r.Unexpected? ==> |r.rest| < |s|
  {
    var t := SkipSpace(s);
    if |t| > 0 && t[0] == ',' then More(t[1..])
    else if |t| > 0 && t[0] == '}' then End(t[1..])
    else Unexpected
  }

  /** Members separated by commas up to the closing brace; gives them in
      document order and the text after the brace. A comma must be
      followed by another member, so a trailing comma is an error. */
  function ParseMembers(s: string): (r: Option<(seq<Member>, string)>)
    ensures r.Some? ==> |r.value.0| > 0
    decreases |s|
  {
    match ParseMember(s)
    case None => None
    case Some((m, r1)) =>
      match AfterMember(r1)
      case More(r2) =>
        (match ParseMembers(r2)
         case None => None
         case Some((ms, after)) => Some(([m] + ms, after)))
      case End(after) => Some(([m], after))
      case Unexpected => None
  }

  /** `json.loads` on a text holding one flat object of strings, possibly
      surrounded by whitespace; `None` for anything else. */
  function Decode(s: string): Option<seq<Member>> {
    var t := SkipSpace(s);
    if |t| == 0 || t[0] != '{' then None
    else
      var u := SkipSpace(t[1..]);
      if |u| > 0 && u[0] == '}' then
        if AllJsonSpace(u[1..]) then Some([]) else None
      else
        match ParseMembers(t[1..])
        case Some((ms, after)) => if AllJsonSpace(after) then Some(ms) else None
        case None => None
  }

  /** The decoder, like `json.loads`, rejects the empty text and a lone `}`. */
  lemma DecodeRejectsDegenerate()
    ensures OutputParser.RejectsDegenerate(Decode)
  {
    assert SkipSpace("}") == "}";
  }

  /** The value of `key` in the dictionary `json.loads` builds: the last
      member with that key wins. */
  function Get(ms: seq<Member>, key: string): (r: Option<string>)
    ensures r.None? <==> forall i :: 0 <= i < |ms| ==> ms[i].key != key
    ensures r.Some? ==>
              exists i :: 0 <= i < |ms| && ms[i] == Member(key, r.value)
                          && forall j :: i < j < |ms| ==> ms[j].key != key
    decreases |ms|
  {
    if |ms| == 0 then None
    else if ms[|ms| - 1].key == key then Some(ms[|ms| - 1].value)
    else
      var r := Get(ms[..|ms| - 1], key);
      GetStep(ms, key, r);
      r
  }

  /** The last member does not have the key, so what holds of the others
      holds of all of them. */
  lemma GetStep(ms: seq<Member>, key: string, r: Option<string>)
    requires |ms| > 0 && ms[|ms| - 1].key != key
    requires var init := ms[..|ms| - 1];
             && (r.None? <==> forall i :: 0 <= i < |init| ==> init[i].key != key)
             && (r.Some? ==>
                   exists i :: 0 <= i < |init| && init[i] == Member(key, r.value)
                               && forall j :: i < j < |init| ==> init[j].key != key)
    ensures r.None? <==> forall i :: 0 <= i < |ms| ==> ms[i].key != key
    ensures r.Some? ==>
              exists i :: 0 <= i < |ms| && ms[i] == Member(key, r.value)
                          && forall j :: i < j < |ms| ==> ms[j].key != key
  {
    var init := ms[..|ms| - 1];
    assert forall i :: 0 <= i < |init| ==> init[i] == ms[i];
    if r.Some? {
      var k :| 0 <= k < |init| && init[k] == Member(key, r.value)
               && forall j :: k < j < |init| ==> init[j].key != key;
      assert ms[k] == Member(key, r.value);
    }
  }

  // ---------------------------------------------------------------------
  // Writing an object
  // ---------------------------------------------------------------------

  /** The whitespace around one member: before its key, before and after
      its colon, and after its value. */
  datatype Spacing = Spacing(indent: string, beforeColon: string, gap: string, after: string)

  /** How an object is laid out: the spacing of each member in turn,
      whitespace before the closing brace, and whether the last member is
      followed by a comma. */
  datatype Layout = Layout(spacings: seq<Spacing>, close: string, trailingComma: bool)

  predicate ValidSpacing(sp: Spacing) {
    AllJsonSpace(sp.indent) && AllJsonSpace(sp.beforeColon) && AllJsonSpace(sp.gap) && AllJsonSpace(sp.after)
  }

  predicate ValidSpacings(sps: seq<Spacing>) {
    forall i :: 0 <= i < |sps| ==> ValidSpacing(sps[i])
  }

  predicate ValidLayout(l: Layout) {
    ValidSpacings(l.spacings) && AllJsonSpace(l.close)
  }

  /** A written member followed by `tail`. */
  function MemberThen(m: Member, sp: Spacing, tail: string): string {
    sp.indent + (EncodeString(m.key) + (sp.beforeColon + (":" + (sp.gap + (EncodeString(m.value) + (sp.after + tail))))))
  }

  /** Written members, each with its own spacing, separated by commas and
      followed by `tail`. */
  function MembersThen(ms: seq<Member>, sps: seq<Spacing>, tail: string): string
    requires |sps| == |ms|
    decreases |ms|
  {
    if |ms| == 0 then tail
    else if |ms| == 1 then MemberThen(ms[0], sps[0], tail)
    else MemberThen(ms[0], sps[0], "," + MembersThen(ms[1..], sps[1..], tail))
  }

  /** The text of an object written with layout `l`, which gives every
      member its spacing. */
  function Encode(ms: seq<Member>, l: Layout): string
    requires |l.spacings| == |ms|
  {
    "{" + MembersThen(ms, l.spacings, (if l.trailingComma && |ms| > 0 then "," else "") + (l.close + "}"))
  }

  /** A member written on one line: `"key": "value"` after its indent. */
  lemma MemberThenOneLine(m: Member, indent: string, tail: string)
    ensures MemberThen(m, Spacing(indent, "", " ", ""), tail)
            == indent + EncodeString(m.key) + ": " + EncodeString(m.value) + tail
  {
  }

  predicate EndsWith(s: string, t: string) {
    |s| >= |t| && s[|s| - |t|..] == t
  }

  lemma EndsWithPrefixed(a: string, s: string, t: string)
    requires EndsWith(s, t)
    ensures EndsWith(a + s, t)
  {
    assert (a + s)[|a + s| - |t|..] == s[|s| - |t|..];
  }

  lemma MemberThenSuffix(m: Member, sp: Spacing, tail: string)
    ensures EndsWith(MemberThen(m, sp, tail), tail)
  {
    var ev := EncodeString(m.value);
    var s1 := sp.after + tail;
    var s2 := sp.gap + (ev + s1);
    var s3 := sp.beforeColon + (":" + s2);
    assert EndsWith(tail, tail);
    EndsWithPrefixed(sp.after, tail, tail);
    EndsWithPrefixed(ev, s1, tail);
    EndsWithPrefixed(sp.gap, ev + s1, tail);
    EndsWithPrefixed(":", s2, tail);
    EndsWithPrefixed(sp.beforeColon, ":" + s2, tail);
    EndsWithPrefixed(EncodeString(m.key), s3, tail);
    EndsWithPrefixed(sp.indent, EncodeString(m.key) + s3, tail);
  }

  /** Written members end with what follows them. */
  lemma {:induction false} MembersThenSuffix(ms: seq<Member>, sps: seq<Spacing>, tail: string)
    requires |sps| == |ms|
    ensures EndsWith(MembersThen(ms, sps, tail), tail)
    decreases |ms|
  {
    if |ms| == 0 {
      assert EndsWith(tail, tail);
    } else if |ms| == 1 {
      MemberThenSuffix(ms[0], sps[0], tail);
    } else {
      var more := MembersThen(ms[1..], sps[1..], tail);
      MembersThenSuffix(ms[1..], sps[1..], tail);
      EndsWithPrefixed(",", more, tail);
      MemberThenSuffix(ms[0], sps[0], "," + more);
      var t := MemberThen(ms[0], sps[0], "," + more);
      assert t[|t| - |tail|..] == t[|t| - |"," + more|..][|"," + more| - |tail|..];
    }
  }

  /** A written object opens and closes with a brace. */
  lemma EncodeBraces(ms: seq<Member>, l: Layout)
    requires |l.spacings| == |ms|
    ensures var e := Encode(ms, l);
            |e| >= 2 && e[0] == '{' && e[|e| - 1] == '}'
  {
    var tail := (if l.trailingComma && |ms| > 0 then "," else "") + (l.close + "}");
    MembersThenSuffix(ms, l.spacings, tail);
    var t := MembersThen(ms, l.spacings, tail);
    assert t[|t| - 1] == t[|t| - |tail|..][|tail| - 1];
    assert ("{" + t)[|"{" + t| - 1] == t[|t| - 1];
  }

  /** Whitespace in front of a text does not change where its first
      non-blank character is. */
  lemma {:induction false} SkipSpacePrefix(ws: string, rest: string)
    requires AllJsonSpace(ws)
    ensures SkipSpace(ws + rest) == SkipSpace(rest)
    decreases |ws|
  {
    if |ws| == 0 {
      assert ws + rest == rest;
    } else {
      assert (ws + rest)[1..] == ws[1..] + rest;
      SkipSpacePrefix(ws[1..], rest);
    }
  }

  /** Reading a written member gives it back and stops right after its
      value, before the whitespace that follows it. */
  lemma ParseMemberThen(m: Member, sp: Spacing, tail: string)
    requires ValidSpacing(sp)
    ensures ParseMember(MemberThen(m, sp, tail)) == Some((m, sp.after + tail))
  {
    var value := EncodeString(m.value) + (sp.after + tail);
    var afterColon := ":" + (sp.gap + value);
    var afterKey := sp.beforeColon + afterColon;
    var key := EncodeString(m.key) + afterKey;
    SkipSpaceOver(sp.indent, key);
    ParseEncodedString(m.key, afterKey);
    SkipSpaceOver(sp.beforeColon, afterColon);
    assert afterColon[1..] == sp.gap + value;
    SkipSpaceOver(sp.gap, value);
    ParseEncodedString(m.value, sp.after + tail);
  }

  /** A written member starts, after its indent, with a quote. */
  lemma MemberThenStart(m: Member, sp: Spacing, tail: string)
    requires ValidSpacing(sp)
    ensures var u := SkipSpace(MemberThen(m, sp, tail));
            |u| > 0 && u[0] == '"'
  {
    SkipSpaceOver(sp.indent, EncodeString(m.key) + (sp.beforeColon + (":" + (sp.gap + (EncodeString(m.value) + (sp.after + tail))))));
  }

  /** What follows a written member's value: its trailing whitespace and
      then a comma or the closing brace. */
  lemma AfterMemberThen(sp: Spacing, rest: string)
    requires ValidSpacing(sp)
    ensures AfterMember(sp.after + rest) == AfterMember(rest)
  {
    SkipSpacePrefix(sp.after, rest);
  }

  /** One member, a comma, and more members read as all of them. */
  lemma ParseMembersMore(s: string, m: Member, r1: string, r2: string, rest: seq<Member>, after: string)
    requires ParseMember(s) == Some((m, r1)) && AfterMember(r1) == More(r2)
    requires ParseMembers(r2) == Some((rest, after))
    ensures ParseMembers(s) == Some(([m] + rest, after))
  {
  }

  /** One member, a comma, and then no member: nothing can be read. */
  lemma ParseMembersMoreNone(s: string, m: Member, r1: string, r2: string)
    requires ParseMember(s) == Some((m, r1)) && AfterMember(r1) == More(r2)
    requires ParseMembers(r2) == None
    ensures ParseMembers(s) == None
  {
  }

  /** One member and the closing brace. */
  lemma ParseMembersEnd(s: string, m: Member, r1: string, after: string)
    requires ParseMember(s) == Some((m, r1)) && AfterMember(r1) == End(after)
    ensures ParseMembers(s) == Some(([m], after))
  {
  }

  /** A written member and then the closing brace. */
  lemma ParseLastMember(m: Member, sp: Spacing, end: string)
    requires ValidSpacing(sp)
    requires var e := SkipSpace(end); |e| > 0 && e[0] == '}'
    ensures ParseMembers(MemberThen(m, sp, end)) == Some(([m], SkipSpace(end)[1..]))
  {
    ParseMemberThen(m, sp, end);
    AfterMemberThen(sp, end);
    ParseMembersEnd(MemberThen(m, sp, end), m, sp.after + end, SkipSpace(end)[1..]);
  }

  /** A written member, a comma, and text that reads as `rest`. */
  lemma ParseMemberComma(m: Member, sp: Spacing, more: string)
    requires ValidSpacing(sp)
    ensures ParseMembers(MemberThen(m, sp, "," + more))
            == match ParseMembers(more)
               case Some((rest, after)) => Some(([m] + rest, after))
               case None => None
  {
    ParseMemberThen(m, sp, "," + more);
    AfterMemberThen(sp, "," + more);
    assert ("," + more)[1..] == more;
    var x := MemberThen(m, sp, "," + more);
    match ParseMembers(more)
    case Some((rest, after)) =>
      ParseMembersMore(x, m, sp.after + ("," + more), more, rest, after);
    case None =>
      ParseMembersMoreNone(x, m, sp.after + ("," + more), more);
  }

  /** Reading written members followed by the closing brace gives them
      back, in order, and stops after the brace. */
  lemma {:induction false} ParseMembersThen(ms: seq<Member>, sps: seq<Spacing>, end: string)
    requires ValidSpacings(sps) && |sps| == |ms| > 0
    requires var e := SkipSpace(end); |e| > 0 && e[0] == '}'
    ensures ParseMembers(MembersThen(ms, sps, end)) == Some((ms, SkipSpace(end)[1..]))
    decreases |ms|
  {
    if |ms| == 1 {
      assert ValidSpacing(sps[0]);
      ParseLastMember(ms[0], sps[0], end);
      assert ms == [ms[0]];
    } else {
      ParseMembersThen(ms[1..], sps[1..], end);
      ParseMembersThenStep(ms, sps, end, SkipSpace(end)[1..]);
    }
  }

  /** One step: the first member in front of the others read. */
  lemma ParseMembersThenStep(ms: seq<Member>, sps: seq<Spacing>, end: string, after: string)
    requires ValidSpacings(sps) && |sps| == |ms| > 1
    requires ParseMembers(MembersThen(ms[1..], sps[1..], end)) == Some((ms[1..], after))
    ensures ParseMembers(MembersThen(ms, sps, end)) == Some((ms, after))
  {
    assert ValidSpacing(sps[0]);
    ParseMemberComma(ms[0], sps[0], MembersThen(ms[1..], sps[1..], end));
    assert [ms[0]] + ms[1..] == ms;
  }

  /** With a comma after the last member the members cannot be read. */
  lemma {:induction false} ParseMembersTrailingComma(ms: seq<Member>, sps: seq<Spacing>, end: string)
    requires ValidSpacings(sps) && |sps| == |ms| > 0
    requires var e := SkipSpace(end); |e| > 0 && e[0] == '}'
    ensures ParseMembers(MembersThen(ms, sps, "," + end)) == None
    decreases |ms|
  {
    if |ms| == 1 {
      assert ValidSpacing(sps[0]);
      assert ParseMember(end) == None;
      ParseMemberComma(ms[0], sps[0], end);
    } else {
      ParseMembersTrailingComma(ms[1..], sps[1..], end);
      ParseMembersNoneStep(ms, sps, "," + end);
    }
  }

  /** One step: a member in front of text that cannot be read. */
  lemma ParseMembersNoneStep(ms: seq<Member>, sps: seq<Spacing>, end: string)
    requires ValidSpacings(sps) && |sps| == |ms| > 1
    requires ParseMembers(MembersThen(ms[1..], sps[1..], end)) == None
    ensures ParseMembers(MembersThen(ms, sps, end)) == None
  {
    assert ValidSpacing(sps[0]);
    ParseMemberComma(ms[0], sps[0], MembersThen(ms[1..], sps[1..], end));
  }

  /** An object whose text starts with its brace is read from the text
      after the brace. */
  lemma DecodeAfterBrace(x: string)
    ensures var t := SkipSpace("{" + x);
            t == "{" + x && t[1..] == x
  {
    assert ("{" + x)[0] == '{';
  }

  lemma DecodeEmptyObject(close: string)
    requires AllJsonSpace(close)
    ensures Decode("{" + (close + "}")) == Some([])
  {
    DecodeAfterBrace(close + "}");
    SkipSpaceOver(close, "}");
  }

  /** The text after the brace of a written object starts with its first
      member's key. */
  lemma MembersThenStart(ms: seq<Member>, sps: seq<Spacing>, end: string)
    requires ValidSpacings(sps) && |sps| == |ms| > 0
    ensures var u := SkipSpace(MembersThen(ms, sps, end));
            |u| > 0 && u[0] == '"'
  {
    assert ValidSpacing(sps[0]);
    MemberThenStart(ms[0], sps[0], if |ms| == 1 then end else "," + MembersThen(ms[1..], sps[1..], end));
  }

  /** An object whose first member starts right after the brace (past
      whitespace) is read as its members, provided only whitespace
      follows the closing brace. */
  lemma DecodeObject(x: string)
    requires var u := SkipSpace(x); |u| > 0 && u[0] == '"'
    ensures Decode("{" + x) == match ParseMembers(x)
                               case Some((ms, after)) => if AllJsonSpace(after) then Some(ms) else None
                               case None => None
  {
    DecodeAfterBrace(x);
  }

  lemma DecodeMembersThen(ms: seq<Member>, sps: seq<Spacing>, end: string)
    requires ValidSpacings(sps) && |sps| == |ms| > 0 && SkipSpace(end) == "}"
    ensures Decode("{" + MembersThen(ms, sps, end)) == Some(ms)
  {
    var x := MembersThen(ms, sps, end);
    MembersThenStart(ms, sps, end);
    DecodeObject(x);
    ParseMembersThen(ms, sps, end);
    assert SkipSpace(end)[1..] == "";
  }

  lemma DecodeMembersTrailing(ms: seq<Member>, sps: seq<Spacing>, end: string)
    requires ValidSpacings(sps) && |sps| == |ms| > 0 && SkipSpace(end) == "}"
    ensures Decode("{" + MembersThen(ms, sps, "," + end)) == None
  {
    var x := MembersThen(ms, sps, "," + end);
    MembersThenStart(ms, sps, "," + end);
    DecodeObject(x);
    ParseMembersTrailingComma(ms, sps, end);
  }

  /** Decoding a written object gives its members back, in order, whatever
      whitespace surrounds each key, colon, value and the closing brace,
      unless it was written with a trailing comma. */
  lemma DecodeEncode(ms: seq<Member>, l: Layout)
    requires ValidLayout(l) && |l.spacings| == |ms|
    ensures !(l.trailingComma && |ms| > 0) ==> Decode(Encode(ms, l)) == Some(ms)
    ensures l.trailingComma && |ms| > 0 ==> Decode(Encode(ms, l)) == None
  {
    var end := l.close + "}";
    SkipSpaceOver(l.close, "}");
    if |ms| == 0 {
      assert "" + end == end;
      DecodeEmptyObject(l.close);
    } else if l.trailingComma {
      DecodeMembersTrailing(ms, l.spacings, end);
    } else {
      assert "" + end == end;
      DecodeMembersThen(ms, l.spacings, end);
    }
  }

  // ---------------------------------------------------------------------
  // fix_json on written objects
  // ---------------------------------------------------------------------

  /** No comma in any key or value. */
  predicate CommaFree(ms: seq<Member>) {
    forall i :: 0 <= i < |ms| ==> ',' !in ms[i].key && ',' !in ms[i].value
  }

  /** The written form of `v` holds no comma followed only by whitespace
      and a closing bracket, the shape the rewrite deletes. */
  predicate WrittenSafe(v: string) {
    !OutputParser.HasTrailingComma(EncodeString(v), '}') && !OutputParser.HasTrailingComma(EncodeString(v), ']')
  }

  /** Every key and value is written safely. */
  predicate RepairSafe(ms: seq<Member>) {
    forall i :: 0 <= i < |ms| ==> WrittenSafe(ms[i].key) && WrittenSafe(ms[i].value)
  }

  /** A comma-free string is written safely. */
  lemma CommaFreeWrittenSafe(v: string)
    requires ',' !in v
    ensures WrittenSafe(v)
  {
    EscapeCommaFree(v);
    var e := EncodeString(v);
    assert ',' !in e;
    assert forall i :: 0 <= i < |e| ==> e[i] != ',';
  }

  /** Comma-free members are repair-safe. */
  lemma CommaFreeRepairSafe(ms: seq<Member>)
    requires CommaFree(ms)
    ensures RepairSafe(ms)
  {
    forall i | 0 <= i < |ms|
      ensures WrittenSafe(ms[i].key) && WrittenSafe(ms[i].value)
    {
      CommaFreeWrittenSafe(ms[i].key);
      CommaFreeWrittenSafe(ms[i].value);
    }
  }

  /** A written safe string ends in a quote, which the rewrite keeps. */
  lemma WrittenGuarded(v: string, close: char)
    requires WrittenSafe(v) && OutputParser.IsCloser(close)
    ensures var e := EncodeString(v);
            |e| > 0 && !OutputParser.HasTrailingComma(e, close) && OutputParser.Kept(e[|e| - 1]) && e[|e| - 1] != close
  {
  }

  /** The rewrite passes over a written member. */
  lemma StripMemberThen(m: Member, sp: Spacing, tail: string, close: char)
    requires ValidSpacing(sp) && WrittenSafe(m.key) && WrittenSafe(m.value) && OutputParser.IsCloser(close)
    ensures OutputParser.StripPass(MemberThen(m, sp, tail), close) == MemberThen(m, sp, OutputParser.StripPass(tail, close))
  {
    var ek := EncodeString(m.key);
    var ev := EncodeString(m.value);
    WrittenGuarded(m.key, close);
    WrittenGuarded(m.value, close);
    assert ',' !in sp.indent && ',' !in sp.beforeColon && ',' !in sp.gap && ',' !in sp.after;
    var s1 := sp.after + tail;
    var s2 := sp.gap + (ev + s1);
    var s3 := sp.beforeColon + (":" + s2);
    OutputParser.StripPassCommaFreePrefix(sp.after, tail, close);
    OutputParser.StripPassGuardedPrefix(ev, s1, close);
    OutputParser.StripPassCommaFreePrefix(sp.gap, ev + s1, close);
    OutputParser.StripPassCommaFreePrefix(":", s2, close);
    OutputParser.StripPassCommaFreePrefix(sp.beforeColon, ":" + s2, close);
    OutputParser.StripPassGuardedPrefix(ek, s3, close);
    OutputParser.StripPassCommaFreePrefix(sp.indent, ek + s3, close);
  }

  /** The comma between two written members is not a trailing comma. */
  lemma StripSeparator(m: Member, sp: Spacing, tail: string, close: char)
    requires ValidSpacing(sp) && OutputParser.IsCloser(close)
    ensures var x := MemberThen(m, sp, tail);
            OutputParser.StripPass("," + x, close) == "," + OutputParser.StripPass(x, close)
  {
    var rest := EncodeString(m.key) + (sp.beforeColon + (":" + (sp.gap + (EncodeString(m.value) + (sp.after + tail)))));
    var x := sp.indent + rest;
    JsonSpaceIsSpace(sp.indent);
    OutputParser.SeparatorNoMatch(sp.indent, rest, close);
    assert [','] + sp.indent + rest == "," + x;
    OutputParser.StripPassCopyStep("," + x, close);
    assert ("," + x)[1..] == x;
  }

  /** The rewrite leaves written repair-safe members alone: every comma
      outside their strings is a separator followed by whitespace and a
      quote. */
  lemma {:induction false} StripMembersThen(ms: seq<Member>, sps: seq<Spacing>, tail: string, close: char)
    requires ValidSpacings(sps) && |sps| == |ms| && RepairSafe(ms) && OutputParser.IsCloser(close)
    ensures OutputParser.StripPass(MembersThen(ms, sps, tail), close) == MembersThen(ms, sps, OutputParser.StripPass(tail, close))
    decreases |ms|
  {
    if |ms| == 1 {
      StripMemberThen(ms[0], sps[0], tail, close);
    } else if |ms| > 1 {
      var more := MembersThen(ms[1..], sps[1..], tail);
      StripMemberThen(ms[0], sps[0], "," + more, close);
      StripSeparator(ms[1], sps[1], if |ms| == 2 then tail else "," + MembersThen(ms[2..], sps[2..], tail), close);
      StripMembersThen(ms[1..], sps[1..], tail, close);
    }
  }

  /** One pass of the rewrite over a written object touches only what
      follows its members. */
  lemma StripObject(ms: seq<Member>, sps: seq<Spacing>, tail: string, close: char)
    requires ValidSpacings(sps) && |sps| == |ms| && RepairSafe(ms) && OutputParser.IsCloser(close)
    ensures OutputParser.StripPass("{" + MembersThen(ms, sps, tail), close) == "{" + MembersThen(ms, sps, OutputParser.StripPass(tail, close))
  {
    OutputParser.StripPassCommaFreePrefix("{", MembersThen(ms, sps, tail), close);
    StripMembersThen(ms, sps, tail, close);
  }

  /** A trailing comma and the whitespace after it are removed. */
  lemma FixJsonTrailing(ms: seq<Member>, sps: seq<Spacing>, close: string)
    requires ValidSpacings(sps) && |sps| == |ms| && RepairSafe(ms) && AllJsonSpace(close)
    ensures OutputParser.FixJsonText("{" + MembersThen(ms, sps, "," + (close + "}"))) == "{" + MembersThen(ms, sps, "}")
  {
    JsonSpaceIsSpace(close);
    StripObject(ms, sps, "," + (close + "}"), '}');
    OutputParser.StripPassTrailing(close, "", '}');
    assert [','] + close + ['}'] + "" == "," + (close + "}");
    assert ['}'] + "" == "}";
    StripObject(ms, sps, "}", ']');
    OutputParser.CommaFreeUnchanged("}", ']');
  }

  /** Without a trailing comma nothing changes. */
  lemma FixJsonPlain(ms: seq<Member>, sps: seq<Spacing>, close: string)
    requires ValidSpacings(sps) && |sps| == |ms| && RepairSafe(ms) && AllJsonSpace(close)
    ensures OutputParser.FixJsonText("{" + MembersThen(ms, sps, close + "}")) == "{" + MembersThen(ms, sps, close + "}")
  {
    JsonSpaceIsSpace(close);
    OutputParser.SpacesCommaFree(close);
    assert ',' !in close + "}";
    OutputParser.CommaFreeUnchanged(close + "}", '}');
    OutputParser.CommaFreeUnchanged(close + "}", ']');
    StripObject(ms, sps, close + "}", '}');
    StripObject(ms, sps, close + "}", ']');
  }

  /** `fix_json`'s rewrite turns an object written with a trailing comma
      into the same object without it (the whitespace between the comma
      and the brace goes too), provided no written key or value holds a
      comma followed only by whitespace and a closing bracket; an object
      without the trailing comma is then left as it is. */
  lemma FixJsonOnEncoded(ms: seq<Member>, l: Layout)
    requires ValidLayout(l) && |l.spacings| == |ms| && RepairSafe(ms)
    ensures l.trailingComma && |ms| > 0 ==>
              OutputParser.FixJsonText(Encode(ms, l)) == Encode(ms, Layout(l.spacings, "", false))
    ensures !(l.trailingComma && |ms| > 0) ==>
              OutputParser.FixJsonText(Encode(ms, l)) == Encode(ms, l)
  {
    if l.trailingComma && |ms| > 0 {
      FixJsonTrailing(ms, l.spacings, l.close);
      assert "" + ("" + "}") == "}";
    } else {
      assert "" + (l.close + "}") == l.close + "}";
      FixJsonPlain(ms, l.spacings, l.close);
    }
  }

  /** So the repair recovers the members of an object written with a
      trailing comma. */
  lemma RepairRecovers(ms: seq<Member>, l: Layout)
    requires ValidLayout(l) && |l.spacings| == |ms| && RepairSafe(ms)
    ensures Decode(OutputParser.FixJsonText(Encode(ms, l))) == Some(ms)
  {
    FixJsonOnEncoded(ms, l);
    if l.trailingComma && |ms| > 0 {
      DecodeEncode(ms, Layout(l.spacings, "", false));
    } else {
      DecodeEncode(ms, l);
    }
  }
  /** Without that condition the repair is wrong: a value whose text is
      `, }` is written as `", }"`, and the rewrite deletes its comma and
      space along with the real trailing comma, so the repaired object
      reads as a different value. */
  lemma RepairCorruptsUnsafeValue(k: string)
    requires ',' !in k
    ensures var ms := [Member(k, ", }")];
            var l := Layout([Spacing("", "", "", "")], "", true);
            !RepairSafe(ms) && Decode(OutputParser.FixJsonText(Encode(ms, l))) == Some([Member(k, "}")])
  {
    var sp := Spacing("", "", "", "");
    var ms := [Member(k, ", }")];
    var l := Layout([sp], "", true);
    var ek := EncodeString(k);
    EscapeCommaFree(k);
    var head := "{" + ek + ":" + "\"";
    assert ',' !in head;
    var ev := UnsafeWritten();
    assert !WrittenSafe(", }");
    UnsafeEncoded(ms, l, head);
    var fixed := head + "}" + "\"" + "}";
    StripTwoCommas(head);
    OutputParser.CommaFreeUnchanged(fixed, ']');
    var ms2 := [Member(k, "}")];
    var l2 := Layout([sp], "", false);
    CorruptedEncoded(ms2, l2, head);
    assert ValidLayout(l2) by {
      assert AllJsonSpace("");
    }
    DecodeEncode(ms2, l2);
  }

  lemma UnsafeWritten() returns (ev: string)
    ensures ev == EncodeString(", }") && ev == "\", }\""
    ensures OutputParser.HasTrailingComma(ev, '}')
  {
    ev := EncodeString(", }");
    assert EscapeString(", }") == ", }";
    assert ev[1] == ',' && ev[3] == '}' && OutputParser.AllSpace(ev[2..3]);
  }

  lemma UnsafeEncoded(ms: seq<Member>, l: Layout, head: string)
    requires |ms| == 1 && ms[0].value == ", }" && l == Layout([Spacing("", "", "", "")], "", true)
    requires head == "{" + EncodeString(ms[0].key) + ":" + "\""
    ensures Encode(ms, l) == head + ("," + " " + "}") + ("\"" + ("," + "}"))
  {
    var ev := UnsafeWritten();
    EncodeSingle(ms, l);
    Glue(head, ", }\"", ",}");
  }

  lemma CorruptedEncoded(ms: seq<Member>, l: Layout, head: string)
    requires |ms| == 1 && ms[0].value == "}" && l == Layout([Spacing("", "", "", "")], "", false)
    requires head == "{" + EncodeString(ms[0].key) + ":" + "\""
    ensures Encode(ms, l) == head + "}" + "\"" + "}"
  {
    assert EncodeString("}") == "\"}\"" by {
      assert EscapeString("}") == "}";
    }
    EncodeSingle(ms, l);
    Glue(head, "}\"", "}");
  }

  /** One member with no whitespace at all. */
  lemma EncodeSingle(ms: seq<Member>, l: Layout)
    requires |ms| == 1 && l.spacings == [Spacing("", "", "", "")] && l.close == ""
    ensures Encode(ms, l) == "{" + EncodeString(ms[0].key) + ":" + EncodeString(ms[0].value)
                             + (if l.trailingComma then "," else "") + "}"
  {
    var sp := l.spacings[0];
    var tail := (if l.trailingComma then "," else "") + (l.close + "}");
    assert MembersThen(ms, l.spacings, tail) == MemberThen(ms[0], sp, tail);
    assert MemberThen(ms[0], sp, tail) == EncodeString(ms[0].key) + (":" + (EncodeString(ms[0].value) + tail));
    Flatten(EncodeString(ms[0].key), EncodeString(ms[0].value), if l.trailingComma then "," else "");
  }

  lemma Flatten(ek: string, ev: string, comma: string)
    ensures "{" + (ek + (":" + (ev + (comma + ("" + "}"))))) == "{" + ek + ":" + ev + comma + "}"
  {
  }

  lemma Glue(head: string, v: string, end: string)
    ensures head + ("\"" + v) + end == head + "\"" + v + end
  {
  }

  /** The two matches of the pass over the corrupted object. */
  lemma StripTwoCommas(head: string)
    requires ',' !in head
    ensures OutputParser.StripPass(head + ("," + " " + "}") + ("\"" + ("," + "}")), '}') == head + "}" + "\"" + "}"
  {
    var rest := "\"" + ("," + "}");
    assert head + ("," + " " + "}") + rest == head + ([','] + " " + ['}'] + rest);
    OutputParser.StripPassCommaFreePrefix(head, [','] + " " + ['}'] + rest, '}');
    OutputParser.StripPassTrailing(" ", rest, '}');
    assert rest == "\"" + ([','] + "" + ['}'] + "");
    OutputParser.StripPassCommaFreePrefix("\"", [','] + "" + ['}'] + "", '}');
    OutputParser.StripPassTrailing("", "", '}');
  }
}
