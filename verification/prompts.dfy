/** The two prompt templates of
    langchain_emoji/server/emoji/emoji_prompt.py as `str.format` strings,
    and the provider branch of `EmojiService.create_chain` that picks one.
    A template is a sequence of pieces: literal characters and named
    fields. Its source text doubles every literal brace; rendering
    substitutes the fields and writes the literal braces once. */
module Prompts {
  import opened Wrappers
  import opened Text
  import FlatJson
  import OutputParser

  // ---------------------------------------------------------------------
  // Format strings
  // ---------------------------------------------------------------------

  /** A piece of a format string: one literal character or a `{name}`
      replacement field. */
  datatype Piece = Char(c: char) | Field(name: string)

  /** Characters that may appear in the plain field names modelled here;
      the others introduce format specs, conversions, attribute or index
      lookups, or nested fields. */
  predicate NameChar(c: char) {
    c != '{' && c != '}' && c != ':' && c != '!' && c != '[' && c != '.'
  }

  predicate ValidName(n: string) {
    |n| > 0 && forall i :: 0 <= i < |n| ==> NameChar(n[i])
  }

  predicate ValidPieces(ps: seq<Piece>) {
    forall i :: 0 <= i < |ps| ==> (ps[i].Field? ==> ValidName(ps[i].name))
  }

  /** How a piece is written in the template's source text. */
  function PieceSource(p: Piece): string {
    match p
    case Char(c) => if c == '{' || c == '}' then [c, c] else [c]
    case Field(n) => "{" + n + "}"
  }

  function Source(ps: seq<Piece>): string
    decreases |ps|
  {
    if |ps| == 0 then "" else PieceSource(ps[0]) + Source(ps[1..])
  }

  /** The `ValueError`s of `str.format` on a malformed template, an
      unsupported field, and the `KeyError` of a field without a value. */
  datatype FormatError =
    | SingleClose
    | SingleOpen
    | UnclosedField
    | UnsupportedField(text: string)
    | MissingKey(name: string)

  function Cons(p: Piece, r: Result<seq<Piece>, FormatError>): Result<seq<Piece>, FormatError> {
    match r
    case Success(ps) => Success([p] + ps)
    case Failure(e) => Failure(e)
  }

  /** How `str.format` reads a template: `{{` and `}}` are literal braces,
      `{name}` is a field, a `}` on its own and a `{` that is never closed
      are errors. */
  function Parse(s: string): Result<seq<Piece>, FormatError>
    decreases |s|
  {
    if |s| == 0 then Success([])
    else if s[0] == '{' then
      if |s| > 1 && s[1] == '{' then Cons(Char('{'), Parse(s[2..]))
      else
        var j := Find(s[1..], '}');
        if j == -1 then Failure(if |s| == 1 then SingleOpen else UnclosedField)
        else
          var name := s[1..1 + j];
          if ValidName(name) then Cons(Field(name), Parse(s[j + 2..]))
          else Failure(UnsupportedField(name))
    else if s[0] == '}' then
      if |s| > 1 && s[1] == '}' then Cons(Char('}'), Parse(s[2..]))
      else Failure(SingleClose)
    else Cons(Char(s[0]), Parse(s[1..]))
  }

  lemma SourceCons(p: Piece, ps: seq<Piece>)
    ensures Source([p] + ps) == PieceSource(p) + Source(ps)
  {
    assert ([p] + ps)[1..] == ps;
  }

  /** Reading the source of one piece gives that piece and continues
      after it. */
  lemma ParsePieceThen(p: Piece, rest: string)
    requires p.Field? ==> ValidName(p.name)
    ensures Parse(PieceSource(p) + rest) == Cons(p, Parse(rest))
  {
    match p
    case Char(c) =>
      if c == '{' || c == '}' {
        ParseBraceThen(c, rest);
      } else {
        var s := PieceSource(p) + rest;
        assert s[1..] == rest;
      }
    case Field(n) =>
      ParseFieldThen(n, rest);
  }

  lemma ParseBraceThen(c: char, rest: string)
    requires c == '{' || c == '}'
    ensures Parse([c, c] + rest) == Cons(Char(c), Parse(rest))
  {
    var s := [c, c] + rest;
    assert s[0] == c && s[1] == c;
    assert s[2..] == rest;
  }

  lemma ParseFieldThen(n: string, rest: string)
    requires ValidName(n)
    ensures Parse("{" + n + "}" + rest) == Cons(Field(n), Parse(rest))
  {
    var s := "{" + n + "}" + rest;
    var t := s[1..];
    assert t == n + ("}" + rest);
    assert t[..|n|] == n;
    assert t[|n|] == '}';
    assert '}' !in n by {
      forall i | 0 <= i < |n| ensures n[i] != '}' {
        assert NameChar(n[i]);
      }
    }
    FindFirst(t, '}', |n|);
    assert s[0] == '{' && s[1] == n[0] && NameChar(n[0]);
    assert s[1..1 + |n|] == n;
    assert s[|n| + 2..] == rest;
  }

  /** The source text of valid pieces reads back as those pieces. */
  lemma {:induction false} ParseSource(ps: seq<Piece>)
    requires ValidPieces(ps)
    ensures Parse(Source(ps)) == Success(ps)
    decreases |ps|
  {
    if |ps| == 0 {
    } else {
      var rest := Source(ps[1..]);
      assert ValidPieces(ps[1..]) by {
        assert forall i :: 0 <= i < |ps| - 1 ==> ps[1..][i] == ps[i + 1];
      }
      ParseSource(ps[1..]);
      assert ps[0].Field? ==> ValidName(ps[0].name);
      ParsePieceThen(ps[0], rest);
      assert Source(ps) == PieceSource(ps[0]) + rest;
      assert [ps[0]] + ps[1..] == ps;
    }
  }

  /** The first piece `Parse` reads, and the text after it. */
  lemma ParseFirst(s: string) returns (p: Piece, rest: string)
    requires Parse(s).Success? && |s| > 0
    ensures s == PieceSource(p) + rest && |rest| < |s|
    ensures p.Field? ==> ValidName(p.name)
    ensures Parse(s) == Cons(p, Parse(rest))
  {
    if s[0] == '{' && |s| > 1 && s[1] == '{' {
      p, rest := ParseFirstBrace(s);
    } else if s[0] == '{' {
      p, rest := ParseFirstField(s);
    } else if s[0] == '}' {
      p, rest := ParseFirstBrace(s);
    } else {
      p, rest := Char(s[0]), s[1..];
      assert s == PieceSource(p) + rest;
    }
  }

  lemma ParseFirstBrace(s: string) returns (p: Piece, rest: string)
    requires Parse(s).Success? && |s| > 1 && (s[0] == '{' || s[0] == '}') && s[1] == s[0]
    ensures s == PieceSource(p) + rest && |rest| < |s|
    ensures !p.Field?
    ensures Parse(s) == Cons(p, Parse(rest))
  {
    p, rest := Char(s[0]), s[2..];
    assert s == [s[0], s[0]] + rest;
  }

  lemma ParseFirstField(s: string) returns (p: Piece, rest: string)
    requires Parse(s).Success? && |s| > 0 && s[0] == '{' && !(|s| > 1 && s[1] == '{')
    ensures s == PieceSource(p) + rest && |rest| < |s|
    ensures p.Field? && ValidName(p.name)
    ensures Parse(s) == Cons(p, Parse(rest))
  {
    var j := Find(s[1..], '}');
    p, rest := Field(s[1..1 + j]), s[j + 2..];
    assert s == "{" + p.name + "}" + rest;
  }

  /** Conversely, every template that reads successfully is the source
      text of what it reads as, and its fields are valid. */
  lemma {:induction false} SourceParse(s: string)
    requires Parse(s).Success?
    ensures Source(Parse(s).value) == s && ValidPieces(Parse(s).value)
    decreases |s|
  {
    if |s| > 0 {
      var p, rest := ParseFirst(s);
      SourceParse(rest);
      var ps := Parse(rest).value;
      SourceCons(p, ps);
      assert forall i :: 1 <= i < |ps| + 1 ==> ([p] + ps)[i] == ps[i - 1];
    }
  }

  /** The names of the fields, in order. */
  function Fields(ps: seq<Piece>): seq<string>
    decreases |ps|
  {
    if |ps| == 0 then []
    else if ps[0].Field? then [ps[0].name] + Fields(ps[1..])
    else Fields(ps[1..])
  }

  lemma {:induction false} FieldsConcat(a: seq<Piece>, b: seq<Piece>)
    ensures Fields(a + b) == Fields(a) + Fields(b)
    decreases |a|
  {
    if |a| == 0 {
      assert a + b == b;
    } else {
      assert (a + b)[1..] == a[1..] + b;
      FieldsConcat(a[1..], b);
    }
  }

  /** Literal text as pieces: no fields. */
  function Lit(s: string): (r: seq<Piece>)
    ensures |r| == |s|
    ensures forall i :: 0 <= i < |s| ==> r[i] == Char(s[i])
  {
    seq(|s|, i requires 0 <= i < |s| => Char(s[i]))
  }

  lemma {:induction false} FieldsOfLit(s: string)
    ensures Fields(Lit(s)) == []
    decreases |s|
  {
    if |s| > 0 {
      assert Lit(s)[1..] == Lit(s[1..]);
      FieldsOfLit(s[1..]);
    }
  }

  function Append(t: string, r: Result<string, FormatError>): Result<string, FormatError> {
    match r
    case Success(x) => Success(t + x)
    case Failure(e) => Failure(e)
  }

  /** `str.format(**env)`: literal characters are copied, each field is
      replaced by its value; the first field without a value is a
      `KeyError`. */
  function Render(ps: seq<Piece>, env: map<string, string>): (r: Result<string, FormatError>)
    ensures r.Success? <==> forall i :: 0 <= i < |ps| && ps[i].Field? ==> ps[i].name in env
    decreases |ps|
  {
    if |ps| == 0 then Success("")
    else
      var r := match ps[0]
        case Char(c) => Append([c], Render(ps[1..], env))
        case Field(n) => if n in env then Append(env[n], Render(ps[1..], env)) else Failure(MissingKey(n));
      assert forall i :: 1 <= i < |ps| ==> ps[i] == ps[1..][i - 1];
      r
  }

  /** Rendering literal text gives it back, single braces included. */
  lemma {:induction false} RenderLit(s: string, env: map<string, string>)
    ensures Render(Lit(s), env) == Success(s)
    decreases |s|
  {
    if |s| > 0 {
      assert Lit(s)[1..] == Lit(s[1..]);
      RenderLit(s[1..], env);
      assert [s[0]] + s[1..] == s;
    }
  }

  /** Rendering a concatenation renders the two parts in turn. */
  lemma {:induction false} RenderConcat(a: seq<Piece>, b: seq<Piece>, env: map<string, string>)
    ensures Render(a + b, env)
            == match Render(a, env)
               case Failure(e) => Failure(e)
               case Success(x) => Append(x, Render(b, env))
    decreases |a|
  {
    if |a| == 0 {
      assert a + b == b;
      match Render(b, env) {
        case Success(y) => assert "" + y == y;
        case Failure(_) =>
      }
    } else {
      assert (a + b)[0] == a[0];
      assert (a + b)[1..] == a[1..] + b;
      RenderConcat(a[1..], b, env);
      match Render(a[1..], env) {
        case Failure(_) =>
        case Success(x) =>
          match Render(b, env) {
            case Failure(_) =>
            case Success(y) =>
              if a[0].Char? {
                assert [a[0].c] + (x + y) == ([a[0].c] + x) + y;
              } else if a[0].name in env {
                assert env[a[0].name] + (x + y) == (env[a[0].name] + x) + y;
              }
          }
      }
    }
  }

  // ---------------------------------------------------------------------
  // The two templates
  // ---------------------------------------------------------------------

  /** A template with the shape both templates share: prose, the
      retrieved `{context}`, prose, the user's `{prompt}`, prose. */
  function Shaped(head: string, middle: string, tail: string): seq<Piece> {
    Lit(head) + [Field("context")] + Lit(middle) + [Field("prompt")] + Lit(tail)
  }

  /** Such a template has exactly the two fields, `context` first. */
  lemma ShapedFields(head: string, middle: string, tail: string)
    ensures Fields(Shaped(head, middle, tail)) == ["context", "prompt"]
  {
    FieldsOfLit(head);
    FieldsOfLit(middle);
    FieldsOfLit(tail);
    var a := Lit(head) + [Field("context")];
    var b := a + Lit(middle);
    var c := b + [Field("prompt")];
    FieldsConcat(Lit(head), [Field("context")]);
    FieldsConcat(a, Lit(middle));
    FieldsConcat(b, [Field("prompt")]);
    FieldsConcat(c, Lit(tail));
    assert [Field("context")][1..] == [];
    assert [Field("prompt")][1..] == [];
  }

  /** Its source text reads back as the template. */
  lemma ShapedParses(head: string, middle: string, tail: string)
    ensures Parse(Source(Shaped(head, middle, tail))) == Success(Shaped(head, middle, tail))
  {
    var ps := Shaped(head, middle, tail);
    assert ValidName("context") && ValidName("prompt");
    forall i | 0 <= i < |ps| && ps[i].Field?
      ensures ValidName(ps[i].name)
    {
      var k1 := |head|;
      var k2 := |head| + 1 + |middle|;
      assert i == k1 || i == k2;
    }
    ParseSource(ps);
  }

  /** Rendering it with both values puts them between the prose parts. */
  lemma ShapedRender(head: string, middle: string, tail: string, env: map<string, string>)
    requires "context" in env && "prompt" in env
    ensures Render(Shaped(head, middle, tail), env)
            == Success(head + env["context"] + middle + env["prompt"] + tail)
  {
    var a := Lit(head) + [Field("context")];
    var b := a + Lit(middle);
    var c := b + [Field("prompt")];
    RenderLit(head, env);
    RenderLit(middle, env);
    RenderLit(tail, env);
    assert Render([Field("context")], env) == Success(env["context"] + "");
    assert Render([Field("prompt")], env) == Success(env["prompt"] + "");
    RenderConcat(Lit(head), [Field("context")], env);
    RenderConcat(a, Lit(middle), env);
    RenderConcat(b, [Field("prompt")], env);
    RenderConcat(c, Lit(tail), env);
    assert env["context"] + "" == env["context"];
    assert env["prompt"] + "" == env["prompt"];
  }

  /** The object of the "for the schema" example, with its trailing
      commas, and the object of the output example. */
  const SchemaMembers := [FlatJson.Member("filename", ""), FlatJson.Member("content", "")]
  const SchemaSpacing := FlatJson.Spacing("\n   ", "", "", "")
  const SchemaLayout := FlatJson.Layout([SchemaSpacing, SchemaSpacing], "\n", true)
  const ExampleMembers := [FlatJson.Member("filename", ExampleFilename), FlatJson.Member("content", ExampleContent)]
  const ExampleSpacing := FlatJson.Spacing("\n    ", "", " ", "")
  const ExampleLayout := FlatJson.Layout([ExampleSpacing, ExampleSpacing], "\n", false)

  function SchemaExample(): string {
    FlatJson.Encode(SchemaMembers, SchemaLayout)
  }

  function OutputExample(): string {
    FlatJson.Encode(ExampleMembers, ExampleLayout)
  }

  /** The prose of `RESPONSE_TEMPLATE` before `{context}`. */
  const StructuredHead := "# Role: 一个表情包专家，擅长根据用户描述为用户选取最合适表情包\n\n## Language: 中文\n\n## Workflow\n1. 学习 ##EmojiList 中给出表情包列表中每一个表情包的含义。其filename属性记录了表情包文件名`filename`，内容则是表情包的含义表示。\n2. 根据 ##UserInput,选取一个最符合的表情包并返回, 一定不要自己构造数据,按照指定的JSON格式结构输出结果, 包含以下2个关键输出字段: `filename`、`content`。\n\n## EmojiList\n<div>\n    "

  /** Between `{context}` and `{prompt}`. */
  const StructuredMiddle := "\n</div>\n\n## UserInput\n<div>\n    "

  /** After `{prompt}`, up to the schema example. */
  const StructuredFormatIntro := "\n</div>\n\n## Output format\n<div>\nThe output should be formatted as a JSON instance that conforms to the JSON schema below.\nfilename: str\ncontent: str\nAs an example, for the schema\n"

  /** Between the schema example and the output example. */
  const StructuredExampleIntro := "\n\n输出示例：\n```json\n"

  /** After the output example. */
  const StructuredEnd := "\n```\n</div>\n\n## Start\n作为一个 #Role, 你默认使用的是##Language，你不需要介绍自己，请根据##Workflow开始工作，你必须严格遵守输出格式##Output format,输出格式指定的JSON格式要求。\n"

  /** The file name in the output example both templates show. */
  const ExampleFilename := "5a122755-9316-4d05-81f4-26da5396c04e.jpg"

  /** The description in that example. */
  const ExampleContent := "这个表情包中的内容和笑点在于它展示了许多带有悲伤或不满情绪的表情符号，这些表情符号的脸部表情看起来都非常忧郁或不高兴。图片下方的文字“我的世界一片灰色”可能意味着这个表情包的使用者感到沮丧或情绪低落，就像世界失去了颜色一样。这种夸张的表达方式和文字与表情符号的结合，使得这个表情包在传达负面情绪的同时，也带有一定的幽默感。"

  /** The prose of `ZHIPUAI_RESPONSE_TEMPLATE` before `{context}`. */
  const ZhipuHead := "\n表情包列表:\n"

  /** Between `{context}` and `{prompt}`. */
  const ZhipuMiddle := "\n\n用户描述：\n"

  /** After `{prompt}`, up to the output example; the format sketch
      in it is not JSON (`string` is unquoted), so it is plain prose here. */
  const ZhipuInstructions := "\n\n请根据以下要求，根据用户描述为用户选取最合适表情包:\n\n1. 学习`表情包列表`中每一个表情包的含义, 其中metadata属性记录了表情包文件名，内容则是表情包的含义表示\n\n2. 根据`用户描述`,选取一个最符合的表情包,一定不要自己构造数据，请按照指定的JSON格式结构输出结果, 包含以下2个关键输出字段: `filename`、`content`,具体格式如下：\n```json\n{\n  \"filename\": string,\n  \"content\": string\n}\n```\n输出示例：\n```json\n"

  /** After the output example. */
  const ZhipuEnd := "\n```\n\n请严格按照上述要求进行信息提取、格式输出,并遵守输出格式指定的JSON格式要求。\n"

  /** The templates as prose around the two fields. */
  datatype TemplateId = Structured | Zhipu

  function Head(id: TemplateId): string {
    match id
    case Structured => StructuredHead
    case Zhipu => ZhipuHead
  }

  function Middle(id: TemplateId): string {
    match id
    case Structured => StructuredMiddle
    case Zhipu => ZhipuMiddle
  }

  function Tail(id: TemplateId): string {
    match id
    case Structured =>
      StructuredFormatIntro + SchemaExample() + StructuredExampleIntro + OutputExample() + StructuredEnd
    case Zhipu => ZhipuInstructions + OutputExample() + ZhipuEnd
  }

  /** `RESPONSE_TEMPLATE` and `ZHIPUAI_RESPONSE_TEMPLATE`. */
  function Template(id: TemplateId): seq<Piece> {
    Shaped(Head(id), Middle(id), Tail(id))
  }

  /** Both templates have the fields `context` and `prompt`, in this
      order and no others; every other brace is a doubled literal, so the
      source reads back as the template. */
  lemma TemplateWellFormed(id: TemplateId)
    ensures Fields(Template(id)) == ["context", "prompt"]
    ensures Parse(Source(Template(id))) == Success(Template(id))
  {
    ShapedFields(Head(id), Middle(id), Tail(id));
    ShapedParses(Head(id), Middle(id), Tail(id));
  }

  /** The `RunnableBranch` of `create_chain`: the structured template for
      `"openai"` and `"deepseek"`, the Zhipu template for every other
      provider id. */
  function PromptFor(llm: string): TemplateId {
    if llm == "openai" || llm == "deepseek" then Structured else Zhipu
  }

  /** A template of that shape rendered with the two values. */
  function RenderShaped(head: string, middle: string, tail: string, context: string, prompt: string): (r: string)
    ensures Render(Shaped(head, middle, tail), map["context" := context, "prompt" := prompt]) == Success(r)
    ensures r == head + context + middle + prompt + tail
  {
    var env := map["context" := context, "prompt" := prompt];
    ShapedRender(head, middle, tail, env);
    Render(Shaped(head, middle, tail), env).value
  }

  /** The prompt text the model receives: the chosen template rendered
      with the formatted documents and the user's text. */
  function PromptText(llm: string, context: string, prompt: string): (r: string)
    ensures var id := PromptFor(llm);
            && Render(Template(id), map["context" := context, "prompt" := prompt]) == Success(r)
            && r == Head(id) + context + Middle(id) + prompt + Tail(id)
  {
    var id := PromptFor(llm);
    RenderShaped(Head(id), Middle(id), Tail(id), context, prompt)
  }

  /** The structured template goes to `"openai"` and `"deepseek"` only. */
  lemma ProviderChoice(llm: string)
    ensures PromptFor(llm) == Structured <==> llm == "openai" || llm == "deepseek"
  {
  }

  // ---------------------------------------------------------------------
  // The examples the templates show
  // ---------------------------------------------------------------------

  lemma SchemaLayoutValid()
    ensures FlatJson.ValidLayout(SchemaLayout)
  {
    assert FlatJson.AllJsonSpace("\n   ");
  }

  lemma SchemaCommaFree()
    ensures FlatJson.CommaFree(SchemaMembers)
  {
    assert ',' !in "filename" && ',' !in "content";
  }

  /** The schema example is the trailing-comma shape `fix_json` exists
      for: `json.loads` rejects it, and after the rewrite it reads as an
      object with the two keys and empty values. */
  lemma SchemaExampleNeedsRepair()
    ensures FlatJson.Decode(SchemaExample()) == None
    ensures FlatJson.Decode(OutputParser.FixJsonText(SchemaExample())) == Some(SchemaMembers)
  {
    SchemaLayoutValid();
    SchemaCommaFree();
    FlatJson.CommaFreeRepairSafe(SchemaMembers);
    FlatJson.DecodeEncode(SchemaMembers, SchemaLayout);
    FlatJson.RepairRecovers(SchemaMembers, SchemaLayout);
  }

  lemma ExampleLayoutValid()
    ensures FlatJson.ValidLayout(ExampleLayout)
  {
    assert FlatJson.AllJsonSpace("\n    ");
  }

  /** The output example is well-formed and reads as the two keys with
      the example's file name and description. */
  lemma OutputExampleDecodes()
    ensures FlatJson.Decode(OutputExample()) == Some(ExampleMembers)
  {
    ExampleLayoutValid();
    FlatJson.DecodeEncode(ExampleMembers, ExampleLayout);
  }
}
