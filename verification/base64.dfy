/** `base64.b64encode(...).decode("utf-8")`: the base64 encoding of
    section 4 of RFC 4648, standard alphabet, with `=` padding. It is
    built in layers: bytes to 6-bit values, values to alphabet symbols,
    then padding. The decoder is not used by the service; it is the
    inverse the encoder is proved against. */
module Base64 {
  import opened Wrappers

  type Byte = x: int | 0 <= x < 256

  /** A 6-bit value, one output symbol. */
  type Sextet = x: int | 0 <= x < 64

  /** The value of an alphabet symbol; `None` for anything else. */
  function SymbolValue(c: char): Option<Sextet> {
    if 'A' <= c <= 'Z' then Some((c as int) - ('A' as int))
    else if 'a' <= c <= 'z' then Some((c as int) - ('a' as int) + 26)
    else if '0' <= c <= '9' then Some((c as int) - ('0' as int) + 52)
    else if c == '+' then Some(62)
    else if c == '/' then Some(63)
    else None
  }

  predicate IsSymbol(c: char) {
    SymbolValue(c).Some?
  }

  /** The alphabet of Table 1 of RFC 4648: `A`-`Z`, `a`-`z`, `0`-`9`, `+`,
      `/`; the symbol's value is the one it encodes, and it is never the
      pad character. */
  function Symbol(v: Sextet): (c: char)
    ensures SymbolValue(c) == Some(v)
    ensures c != '='
  {
    if v < 26 then (('A' as int) + v) as char
    else if v < 52 then (('a' as int) + (v - 26)) as char
    else if v < 62 then (('0' as int) + (v - 52)) as char
    else if v == 62 then '+'
    else '/'
  }

  /** Splits 24-bit groups into four 6-bit values; a final group of one
      byte gives two values, of two bytes three (the missing bits are 0). */
  function Sextets(b: seq<Byte>): (r: seq<Sextet>)
    ensures |r| == (4 * |b| + 2) / 3
    decreases |b|
  {
    if |b| == 0 then []
    else if |b| == 1 then [b[0] / 4, (b[0] % 4) * 16]
    else if |b| == 2 then [b[0] / 4, (b[0] % 4) * 16 + b[1] / 16, (b[1] % 16) * 4]
    else [b[0] / 4, (b[0] % 4) * 16 + b[1] / 16, (b[1] % 16) * 4 + b[2] / 64, b[2] % 64] + Sextets(b[3..])
  }

  function Symbols(xs: seq<Sextet>): (r: string)
    ensures |r| == |xs|
  {
    seq(|xs|, i requires 0 <= i < |xs| => Symbol(xs[i]))
  }

  /** The number of `=` that end the encoding of `n` bytes. */
  function Padding(n: nat): (p: nat)
    ensures p <= 2
    ensures p == 0 <==> n % 3 == 0
  {
    if n % 3 == 0 then 0 else 3 - n % 3
  }

  function Pad(n: nat): (r: string)
    ensures |r| == Padding(n)
    ensures forall i :: 0 <= i < |r| ==> r[i] == '='
  {
    seq(Padding(n), _ => '=')
  }

  function Encode(b: seq<Byte>): (r: string)
    ensures |r| == 4 * ((|b| + 2) / 3)
  {
    var k := |b| / 3;
    assert |b| == 3 * k + |b| % 3;
    Symbols(Sextets(b)) + Pad(|b|)
  }

  /** How many `=` end `s`, counting at most two. */
  function TrailingPad(s: string): (p: nat)
    ensures p <= |s| && p <= 2
  {
    if |s| >= 2 && s[|s| - 1] == '=' && s[|s| - 2] == '=' then 2
    else if |s| >= 1 && s[|s| - 1] == '=' then 1
    else 0
  }

  /** The values of a run of symbols; `None` if one is not a symbol. */
  function Values(s: string): (r: Option<seq<Sextet>>)
    ensures r.Some? ==> |r.value| == |s|
    decreases |s|
  {
    if |s| == 0 then Some([])
    else
      match (SymbolValue(s[0]), Values(s[1..]))
      case (Some(x), Some(xs)) => Some([x] + xs)
      case _ => None
  }

  /** Four values back to three bytes. */
  function DecodeGroup(x0: Sextet, x1: Sextet, x2: Sextet, x3: Sextet): seq<Byte> {
    [(x0 as int) * 4 + (x1 as int) / 16, ((x1 as int) % 16) * 16 + (x2 as int) / 4, ((x2 as int) % 4) * 64 + (x3 as int)]
  }

  /** Values back to bytes; a lone trailing value carries no whole byte,
      and the bits of a final short group that fall past the last byte
      must be 0 (section 3.5 of RFC 4648), so every encoding has one
      reading and every reading one encoding. */
  function BytesOf(xs: seq<Sextet>): Option<seq<Byte>>
    decreases |xs|
  {
    if |xs| == 0 then Some([])
    else if |xs| == 1 then None
    else if |xs| == 2 then
      if xs[1] % 16 != 0 then None else Some(DecodeGroup(xs[0], xs[1], 0, 0)[..1])
    else if |xs| == 3 then
      if xs[2] % 4 != 0 then None else Some(DecodeGroup(xs[0], xs[1], xs[2], 0)[..2])
    else
      match BytesOf(xs[4..])
      case Some(rest) => Some(DecodeGroup(xs[0], xs[1], xs[2], xs[3]) + rest)
      case None => None
  }

  /** Decodes padded base64; `None` for text whose length is not a multiple
      of four, that uses a character outside the alphabet, that pads
      anywhere but at the end, or whose last symbol before the padding has
      bits set that no byte uses. */
  function Decode(s: string): Option<seq<Byte>> {
    if |s| % 4 != 0 then None
    else
      match Values(s[..|s| - TrailingPad(s)])
      case Some(xs) => BytesOf(xs)
      case None => None
  }

  lemma GroupRoundTrip(b0: Byte, b1: Byte, b2: Byte)
    ensures DecodeGroup(b0 / 4, (b0 % 4) * 16 + b1 / 16, (b1 % 16) * 4 + b2 / 64, b2 % 64) == [b0, b1, b2]
  {
  }

  /** The arithmetic layer: the values of the bytes give back the bytes. */
  lemma {:induction false} BytesOfSextets(b: seq<Byte>)
    ensures BytesOf(Sextets(b)) == Some(b)
    decreases |b|
  {
    if |b| == 0 {
    } else if |b| == 1 {
      var x1 := (b[0] % 4) * 16;
      assert x1 / 16 == b[0] % 4;
      assert DecodeGroup(b[0] / 4, x1, 0, 0)[..1] == [b[0]] == b;
    } else if |b| == 2 {
      var x1 := (b[0] % 4) * 16 + b[1] / 16;
      var x2 := (b[1] % 16) * 4;
      assert x1 / 16 == b[0] % 4 && x1 % 16 == b[1] / 16 && x2 / 4 == b[1] % 16;
      assert DecodeGroup(b[0] / 4, x1, x2, 0)[..2] == [b[0], b[1]] == b;
    } else {
      var xs := Sextets(b);
      BytesOfSextets(b[3..]);
      GroupRoundTrip(b[0], b[1], b[2]);
      assert xs[4..] == Sextets(b[3..]);
      assert [b[0], b[1], b[2]] + b[3..] == b;
    }
  }

  /** The symbol layer: reading symbols back gives their values. */
  lemma {:induction false} ValuesOfSymbols(xs: seq<Sextet>)
    ensures Values(Symbols(xs)) == Some(xs)
    decreases |xs|
  {
    if |xs| > 0 {
      ValuesOfSymbols(xs[1..]);
      assert Symbols(xs)[1..] == Symbols(xs[1..]);
      assert [xs[0]] + xs[1..] == xs;
    }
  }

  /** The padding layer: the decoder strips exactly the padding. */
  lemma PaddingStripped(b: seq<Byte>)
    ensures var e := Encode(b);
            e[..|e| - TrailingPad(e)] == Symbols(Sextets(b))
  {
    var e := Encode(b);
    var body := Symbols(Sextets(b));
    assert e == body + Pad(|b|);
    if |b| > 0 {
      assert |body| >= 2;
      assert e[|body| - 1] == body[|body| - 1] != '=';
    }
    assert e[..|body|] == body;
  }

  /** Decoding an encoding gives back the bytes. */
  lemma DecodeEncode(b: seq<Byte>)
    ensures Decode(Encode(b)) == Some(b)
  {
    var e := Encode(b);
    var k := (|b| + 2) / 3;
    assert |e| == 4 * k;
    assert |e| % 4 == 0;
    PaddingStripped(b);
    ValuesOfSymbols(Sextets(b));
    BytesOfSextets(b);
  }

  /** The other way round: a text that decodes is the encoding of what it
      decodes to, so no two texts decode to the same bytes. */
  lemma EncodeDecode(s: string)
    ensures Decode(s).Some? ==> Encode(Decode(s).value) == s
  {
    if Decode(s).Some? {
      var p := TrailingPad(s);
      var body := s[..|s| - p];
      var xs := Values(body).value;
      var b := Decode(s).value;
      SymbolsOfValues(body, xs);
      SextetsOfBytes(xs, b);
      PadOfText(s, |b|);
      assert s == body + s[|s| - p..];
    }
  }

  /** "Zh==" sets bits past the one byte it holds, so it is rejected
      rather than read as "f", whose encoding is "Zg==". */
  lemma LeftoverBitsRejected()
    ensures Decode("Zh==") == None
  {
    assert "Zh=="[..2] == "Zh";
    assert "Zh"[0] == 'Z' && "Zh"[1..] == "h";
    assert "h"[0] == 'h' && Values("h"[1..]) == Some([]);
    var h := Values("h");
    assert h.Some? && |h.value| == 1 && h.value[0] == 33;
    var zh := Values("Zh");
    assert zh.Some? && |zh.value| == 2 && zh.value[1] == 33;
  }

  /** Reading symbols and writing the values again gives the symbols. */
  lemma {:induction false} SymbolsOfValues(s: string, xs: seq<Sextet>)
    requires Values(s) == Some(xs)
    ensures Symbols(xs) == s
    decreases |s|
  {
    if |s| > 0 {
      SymbolsOfValues(s[1..], xs[1..]);
      assert Symbol(xs[0]) == s[0] by {
        SymbolOfValue(s[0]);
      }
      assert Symbols(xs) == [Symbol(xs[0])] + Symbols(xs[1..]);
      assert s == [s[0]] + s[1..];
    }
  }

  /** A symbol is the only character with its value. */
  lemma SymbolOfValue(c: char)
    requires SymbolValue(c).Some?
    ensures Symbol(SymbolValue(c).value) == c
  {
  }

  /** Four values that read as three bytes are those bytes' values. */
  lemma GroupInverse(x0: Sextet, x1: Sextet, x2: Sextet, x3: Sextet)
    ensures var g := DecodeGroup(x0, x1, x2, x3);
            && g[0] / 4 == x0 && (g[0] % 4) * 16 + g[1] / 16 == x1
            && (g[1] % 16) * 4 + g[2] / 64 == x2 && g[2] % 64 == x3
  {
  }

  /** Values that read as bytes are the values of those bytes. */
  lemma {:induction false} SextetsOfBytes(xs: seq<Sextet>, b: seq<Byte>)
    requires BytesOf(xs) == Some(b)
    ensures Sextets(b) == xs
    decreases |xs|
  {
    if |xs| == 2 {
      GroupInverse(xs[0], xs[1], 0, 0);
    } else if |xs| == 3 {
      GroupInverse(xs[0], xs[1], xs[2], 0);
    } else if |xs| >= 4 {
      var rest := BytesOf(xs[4..]).value;
      SextetsOfBytes(xs[4..], rest);
      GroupInverse(xs[0], xs[1], xs[2], xs[3]);
      var g := DecodeGroup(xs[0], xs[1], xs[2], xs[3]);
      assert b[3..] == rest && b[..3] == g;
      assert xs == xs[..4] + xs[4..];
    }
  }

  /** The `=` that end a text that decodes to `n` bytes are the padding of
      `n` bytes. */
  lemma PadOfText(s: string, n: nat)
    requires |s| % 4 == 0 && (4 * n + 2) / 3 == |s| - TrailingPad(s)
    ensures s[|s| - TrailingPad(s)..] == Pad(n)
  {
  }

  /** The encoding is alphabet symbols followed by `=` padding, which is
      there exactly when the length is not a multiple of three. */
  lemma EncodeShape(b: seq<Byte>)
    ensures var e := Encode(b);
            && (forall i :: 0 <= i < |e| - Padding(|b|) ==> IsSymbol(e[i]))
            && (forall i :: |e| - Padding(|b|) <= i < |e| ==> e[i] == '=')
            && (|b| % 3 == 0 <==> forall i :: 0 <= i < |e| ==> e[i] != '=')
  {
    var e := Encode(b);
    var body := Symbols(Sextets(b));
    assert e == body + Pad(|b|);
    assert forall i :: 0 <= i < |body| ==> e[i] == body[i];
    if |b| % 3 != 0 {
      assert e[|e| - 1] == '=';
    }
  }

  /** Test vectors of section 10 of RFC 4648: "f" encodes as "Zg==". */
  lemma VectorF()
    ensures Encode([102]) == "Zg=="
  {
    assert Sextets([102]) == [25, 32];
  }

  /** "fo" encodes as "Zm8=". */
  lemma VectorFo()
    ensures Encode([102, 111]) == "Zm8="
  {
    assert Sextets([102, 111]) == [25, 38, 60];
  }

  /** "foobar" encodes as "Zm9vYmFy". */
  lemma VectorFoobar()
    ensures Encode([102, 111, 111, 98, 97, 114]) == "Zm9vYmFy"
  {
    assert Sextets([102, 111, 111, 98, 97, 114]) == [25, 38, 61, 47, 24, 38, 5, 50];
  }
}
