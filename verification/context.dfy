/** `EmojiService.format_docs` in
    langchain_emoji/server/emoji/emoji_service.py: the retrieved fragments
    as the `context` text of the prompt, one
    `<emoji id='i' metadata=FILENAME>CONTENT</emoji>` line per fragment. */
module Context {
  import opened Wrappers
  import opened Text
  import VectorStoreServer

  type Document = VectorStoreServer.Document

  const LineOpen := "<emoji id='"
  const LineMeta := "' metadata="
  const LineClose := "</emoji>"

  /** `doc.metadata.get("filename")` as an f-string shows it: the value, or
      `None` when the key is missing. */
  function FilenameText(d: Document): string {
    if "filename" in d.metadata then d.metadata["filename"] else "None"
  }

  /** The line of the `i`-th document. */
  function DocLine(i: nat, d: Document): string {
    LineOpen + NatToString(i) + LineMeta + FilenameText(d) + ">" + d.pageContent + LineClose
  }

  /** What a reader of line `i` finds in it: the id `i` after the opening
      tag, then at fixed offsets the filename text, `>`, the content, and
      the closing tag at the very end. */
  predicate LineCarries(line: string, i: nat, d: Document) {
    var f := FilenameText(d);
    var o := |LineOpen| + |NatToString(i)| + |LineMeta|;
    var c := o + |f| + 1;
    && LineId(line) == Some(i)
    && |line| == c + |d.pageContent| + |LineClose|
    && line[o..o + |f|] == f
    && line[o + |f|] == '>'
    && line[c..c + |d.pageContent|] == d.pageContent
    && line[c + |d.pageContent|..] == LineClose
  }

  /** The formatted lines, one per fragment and in retrieval order, each
      carrying its position as id together with that fragment's filename
      and content. */
  function Lines(docs: seq<Document>): (r: seq<string>)
    ensures |r| == |docs|
    ensures forall i {:trigger LineCarries(r[i], i, docs[i])} :: 0 <= i < |docs| ==> LineCarries(r[i], i, docs[i])
  {
    LinesCarry(docs);
    seq(|docs|, i requires 0 <= i < |docs| => DocLine(i, docs[i]))
  }

  /** The formatted lines are the rendered lines of the documents. */
  lemma LinesAreDocLines(docs: seq<Document>)
    ensures forall i :: 0 <= i < |docs| ==> Lines(docs)[i] == DocLine(i, docs[i])
  {
  }

  /** Line `i` of the formatted lines carries fragment `i`. */
  lemma LineCarriesAt(docs: seq<Document>, i: nat)
    requires i < |docs|
    ensures LineCarries(Lines(docs)[i], i, docs[i])
  {
  }

  lemma LinesCarry(docs: seq<Document>)
    ensures forall i :: 0 <= i < |docs| ==> LineCarries(DocLine(i, docs[i]), i, docs[i])
  {
    forall i | 0 <= i < |docs|
      ensures LineCarries(DocLine(i, docs[i]), i, docs[i])
    {
      DocLineCarries(i, docs[i]);
    }
  }

  /** Every rendered line reads back as its id, filename and content. */
  lemma DocLineCarries(i: nat, d: Document)
    ensures LineCarries(DocLine(i, d), i, d)
  {
    LineIdOfDocLine(i, d);
    DocLineFields(i, d);
  }

  /** The fields after the id of a rendered line. */
  lemma DocLineFields(i: nat, d: Document)
    ensures var f := FilenameText(d);
            var o := |LineOpen| + |NatToString(i)| + |LineMeta|;
            var c := o + |f| + 1;
            var line := DocLine(i, d);
            && |line| == c + |d.pageContent| + |LineClose|
            && line[o..o + |f|] == f
            && line[o + |f|] == '>'
            && line[c..c + |d.pageContent|] == d.pageContent
            && line[c + |d.pageContent|..] == LineClose
  {
    var front := LineOpen + NatToString(i) + LineMeta;
    assert |front| == |LineOpen| + |NatToString(i)| + |LineMeta|;
    var f := FilenameText(d);
    var t := d.pageContent;
    assert DocLine(i, d) == front + (f + (">" + (t + LineClose)));
    FieldsAt(front, f, t, LineClose);
  }

  /** Where the fields of `front + f + ">" + t + e` lie. */
  lemma FieldsAt(front: string, f: string, t: string, e: string)
    ensures var line := front + (f + (">" + (t + e)));
            var o := |front|;
            var c := o + |f| + 1;
            && |line| == c + |t| + |e|
            && line[o..o + |f|] == f
            && line[o + |f|] == '>'
            && line[c..c + |t|] == t
            && line[c + |t|..] == e
  {
    var rest := f + (">" + (t + e));
    var line := front + rest;
    var o := |front|;
    assert line[o..] == rest;
    assert rest[..|f|] == f;
    var tail := t + e;
    assert rest[|f| + 1..] == tail;
    assert line[o + |f| + 1..] == tail;
    assert tail[..|t|] == t;
  }

  /** `"\n".join(formatted_docs)`. */
  function FormatDocs(docs: seq<Document>): string {
    Join(Lines(docs), "\n")
  }

  /** The `i`-th line, tagged with id `i`, sits at its offset in
      retrieval order, with a newline before it unless it is the first. */
  lemma FormatDocsLineAt(docs: seq<Document>, i: nat)
    requires i < |docs|
    ensures var o := JoinOffset(Lines(docs), "\n", i);
            var line := Lines(docs)[i];
            var text := FormatDocs(docs);
            && o + |line| <= |text|
            && text[o..o + |line|] == line
            && (i > 0 ==> text[o - 1] == '\n')
  {
    JoinPartLine(Lines(docs), i);
  }

  /** A part of a `"\n"`-join is found at its offset, after a newline
      unless it is the first. */
  lemma JoinPartLine(parts: seq<string>, i: nat)
    requires i < |parts|
    ensures var o := JoinOffset(parts, "\n", i);
            var text := Join(parts, "\n");
            && o + |parts[i]| <= |text|
            && text[o..o + |parts[i]|] == parts[i]
            && (i > 0 ==> text[o - 1] == '\n')
  {
    JoinPartAt(parts, "\n", i);
    if i > 0 {
      JoinNewlineBefore(parts, i);
    }
  }

  /** No documents, no context, and only then. */
  lemma FormatDocsEmpty(docs: seq<Document>)
    ensures |docs| == 0 <==> FormatDocs(docs) == ""
  {
    if |docs| > 0 {
      var line := Lines(docs)[0];
      FormatDocsLineAt(docs, 0);
      LinesAreDocLines(docs);
      assert line == DocLine(0, docs[0]);
      assert |line| > 0;
    }
  }

  /** In a `"\n"`-join, the character just before each later part is the
      separator. */
  lemma {:induction false} JoinNewlineBefore(parts: seq<string>, i: nat)
    requires 0 < i < |parts|
    ensures var o := JoinOffset(parts, "\n", i);
            o <= |Join(parts, "\n")| && Join(parts, "\n")[o - 1] == '\n'
    decreases |parts|
  {
    var n := |parts|;
    var init := parts[..n - 1];
    assert Join(parts, "\n") == Join(init, "\n") + "\n" + parts[n - 1];
    JoinOffsetPrefix(parts, init, "\n", i - 1);
    JoinOffsetPrefix(parts, init, "\n", i);
    if i < n - 1 {
      JoinNewlineBefore(init, i);
      JoinPartAt(init, "\n", i);
    } else {
      JoinLength(init, "\n");
    }
  }

  /** The loop of `format_docs`: the text grows one line at a time. */
  method FormatDocsLoop(docs: seq<Document>) returns (out: string)
    ensures out == FormatDocs(docs)
  {
    out := "";
    var i := 0;
    while i < |docs|
      invariant 0 <= i <= |docs|
      invariant out == Join(Lines(docs[..i]), "\n")
    {
      var line := DocLine(i, docs[i]);
      LinesSnoc(docs, i);
      if i == 0 {
        out := line;
      } else {
        JoinAppend(Lines(docs[..i]), line, "\n");
        out := out + "\n" + line;
      }
      i := i + 1;
    }
    assert docs[..i] == docs;
  }

  /** The lines of one more document are the lines before plus its own. */
  lemma LinesSnoc(docs: seq<Document>, i: nat)
    requires i < |docs|
    ensures Lines(docs[..i + 1]) == Lines(docs[..i]) + [DocLine(i, docs[i])]
  {
    var a, b := Lines(docs[..i + 1]), Lines(docs[..i]) + [DocLine(i, docs[i])];
    LinesAreDocLines(docs[..i + 1]);
    LinesAreDocLines(docs[..i]);
    assert |a| == |b|;
    forall k | 0 <= k < |a|
      ensures a[k] == b[k]
    {
      assert docs[..i + 1][k] == docs[k];
    }
  }

  /** Length of the run of digits at the start of `s`. */
  function DigitRun(s: string): (k: nat)
    ensures k <= |s|
    ensures forall j :: 0 <= j < k ==> IsDigit(s[j])
    ensures k < |s| ==> !IsDigit(s[k])
    decreases |s|
  {
    if |s| > 0 && IsDigit(s[0]) then 1 + DigitRun(s[1..]) else 0
  }

  /** Reads the id back out of a rendered line. */
  function LineId(line: string): Option<nat> {
    if |line| < |LineOpen| || line[..|LineOpen|] != LineOpen then None
    else
      var rest := line[|LineOpen|..];
      var k := DigitRun(rest);
      if k == 0 then None else Some(StringToNat(rest[..k]))
  }

  lemma {:induction false} DigitRunOfDigits(ds: string, rest: string)
    requires forall j :: 0 <= j < |ds| ==> IsDigit(ds[j])
    requires |rest| > 0 && !IsDigit(rest[0])
    ensures DigitRun(ds + rest) == |ds|
    decreases |ds|
  {
    if |ds| > 0 {
      assert (ds + rest)[1..] == ds[1..] + rest;
      DigitRunOfDigits(ds[1..], rest);
    }
  }

  /** Each line carries its own position as id, and it reads back. */
  lemma LineIdOfDocLine(i: nat, d: Document)
    ensures LineId(DocLine(i, d)) == Some(i)
  {
    var digits := NatToString(i);
    var after := LineMeta + FilenameText(d) + ">" + d.pageContent + LineClose;
    assert DocLine(i, d) == LineOpen + (digits + after);
    assert after[0] == '\'';
    LineIdOfParts(digits, after);
    NatToStringRoundTrip(i);
  }

  lemma LineIdOfParts(digits: string, after: string)
    requires |digits| > 0 && forall j :: 0 <= j < |digits| ==> IsDigit(digits[j])
    requires |after| > 0 && !IsDigit(after[0])
    ensures LineId(LineOpen + (digits + after)) == Some(StringToNat(digits))
  {
    var line := LineOpen + (digits + after);
    assert line[..|LineOpen|] == LineOpen;
    assert line[|LineOpen|..] == digits + after;
    DigitRunOfDigits(digits, after);
    assert (digits + after)[..|digits|] == digits;
  }

  /** The ids of two different lines differ. */
  lemma LineIdsDistinct(docs: seq<Document>, i: nat, j: nat)
    requires i < |docs| && j < |docs| && i != j
    ensures LineId(Lines(docs)[i]) != LineId(Lines(docs)[j])
  {
    LineCarriesAt(docs, i);
    LineCarriesAt(docs, j);
  }

  /** A fragment whose filename is missing renders exactly like one whose
      filename is the text `None`. */
  lemma MissingFilenameLooksLikeNone(i: nat, content: string)
    ensures DocLine(i, VectorStoreServer.Document(content, map[]))
            == DocLine(i, VectorStoreServer.Document(content, map["filename" := "None"]))
  {
  }
}
