/** `EmojiService.get_emoji` in langchain_emoji/server/emoji/emoji_service.py:
    one request through the chain (retrieve fragments, format them, render
    the provider's prompt, ask the model, extract and decode its reply) and
    the response assembled from the decoded object. The retriever, the
    model, the callback events and counters, and the storage are
    parameters. */
module EmojiService {
  import opened Wrappers
  import Text
  import OutputParser
  import FlatJson
  import Prompts
  import Context
  import RunTracer
  import Tokens
  import Assets

  /** `EmojiRequest`. */
  datatype EmojiRequest = EmojiRequest(prompt: string, reqId: string, llm: string)

  /** `EmojiInfo`: the two keys the templates ask the model for. */
  datatype EmojiInfo = EmojiInfo(filename: string, content: string)

  /** `EmojiResponse`. */
  datatype EmojiResponse = EmojiResponse(
    runId: RunTracer.Uuid,
    info: EmojiInfo,
    detail: Assets.EmojiDetail,
    tokens: Tokens.TokenInfo)

  /** The two calls of the chain: the retriever on the user's text, and
      the model configured for a provider id, which replies to a prompt
      text. */
  datatype Chain = Chain(
    retrieve: string -> seq<Context.Document>,
    complete: (string, string) -> string)

  /** The rest of what one call depends on: the callback events of the
      run, the usage counters of each callback kind, the embedding
      component's running token count, and where pictures are stored. */
  datatype Env = Env(
    events: seq<RunTracer.Event>,
    totals: Tokens.TokenCallback -> Tokens.CallbackTotals,
    embedTokens: int,
    storage: Assets.Storage,
    dataset: Assets.DatasetSettings)

  /** The exceptions `get_emoji` lets through: the decode error of
      `output_handle`, pydantic rejecting `EmojiInfo` or `EmojiResponse`
      (a required field missing or `None`), and the errors of
      `get_file_desc`. */
  datatype ServiceError =
    | ReplyNotJson(decodeError: OutputParser.DecodeError)
    | InfoInvalid(filenameMissing: bool, contentMissing: bool)
    | AssetFailed(assetError: Assets.AssetError)
    | ResponseInvalid(runIdMissing: bool, detailMissing: bool)

  /** `EmojiInfo(**result)`: both keys are required; other keys are
      ignored. */
  function InfoOf(ms: seq<FlatJson.Member>): (r: Result<EmojiInfo, ServiceError>)
    ensures r.Success? <==> (exists i :: 0 <= i < |ms| && ms[i].key == "filename")
                            && (exists i :: 0 <= i < |ms| && ms[i].key == "content")
    ensures r.Success? ==> FlatJson.Get(ms, "filename") == Some(r.value.filename)
                           && FlatJson.Get(ms, "content") == Some(r.value.content)
  {
    var filename := FlatJson.Get(ms, "filename");
    var content := FlatJson.Get(ms, "content");
    if filename.Some? && content.Some? then Success(EmojiInfo(filename.value, content.value))
    else Failure(InfoInvalid(filename.None?, content.None?))
  }

  /** The model's raw reply: the retrieved fragments become the context
      of the provider's template, rendered with the user's text. */
  function Reply(c: Chain, req: EmojiRequest): string {
    var context := Context.FormatDocs(c.retrieve(req.prompt));
    c.complete(req.llm, Prompts.PromptText(req.llm, context, req.prompt))
  }

  /** What `get_emoji` does with the reply. */
  function Respond(env: Env, req: EmojiRequest, reply: string): (r: Result<EmojiResponse, ServiceError>)
    ensures var handled := OutputParser.OutputHandle(FlatJson.Decode, reply);
            r.Success? <==>
              && handled.Success?
              && InfoOf(handled.value).Success?
              && Assets.GetFileDesc(env.storage, env.dataset, InfoOf(handled.value).value.filename).Success?
              && Assets.GetFileDesc(env.storage, env.dataset, InfoOf(handled.value).value.filename).value.Some?
              && RunTracer.FirstChainStart(env.events).Some?
    ensures var handled := OutputParser.OutputHandle(FlatJson.Decode, reply);
            handled.Failure? ==> r == Failure(ReplyNotJson(handled.error))
    ensures var handled := OutputParser.OutputHandle(FlatJson.Decode, reply);
            handled.Success? && InfoOf(handled.value).Failure? ==>
              r.Failure? && r.error.InfoInvalid? && r == Failure(InfoOf(handled.value).error)
    ensures var handled := OutputParser.OutputHandle(FlatJson.Decode, reply);
            handled.Success? && InfoOf(handled.value).Success? ==>
              var desc := Assets.GetFileDesc(env.storage, env.dataset, InfoOf(handled.value).value.filename);
              && (desc.Failure? ==> r == Failure(AssetFailed(desc.error)))
              && (desc == Success(None) ==>
                    r == Failure(ResponseInvalid(RunTracer.FirstChainStart(env.events).None?, true)))
              && (desc.Success? && desc.value.Some? && RunTracer.FirstChainStart(env.events).None? ==>
                    r == Failure(ResponseInvalid(true, false)))
    ensures r.Success? ==>
              && OutputParser.OutputHandle(FlatJson.Decode, reply).Success?
              && InfoOf(OutputParser.OutputHandle(FlatJson.Decode, reply).value) == Success(r.value.info)
    ensures r.Success? ==> RunTracer.FirstChainStart(env.events) == Some(r.value.runId)
    ensures r.Success? ==> Assets.GetFileDesc(env.storage, env.dataset, r.value.info.filename) == Success(Some(r.value.detail))
    ensures r.Success? ==> r.value.tokens == Tokens.MakeTokenInfo(req.llm, env.totals(Tokens.CallbackFor(req.llm)), env.embedTokens)
    ensures RunTracer.FirstChainStart(env.events).None? ==> r.Failure?
    ensures env.dataset.mode != "local" && env.dataset.mode != "minio" ==> r.Failure?
  {
    RunTracer.ObserveRecordsFirstChainStart(env.events);
    match OutputParser.OutputHandle(FlatJson.Decode, reply)
    case Failure(e) => Failure(ReplyNotJson(e))
    case Success(ms) =>
      match InfoOf(ms)
      case Failure(e) => Failure(e)
      case Success(info) =>
        var tokens := Tokens.MakeTokenInfo(req.llm, env.totals(Tokens.CallbackFor(req.llm)), env.embedTokens);
        match Assets.GetFileDesc(env.storage, env.dataset, info.filename)
        case Failure(e) => Failure(AssetFailed(e))
        case Success(detail) =>
          var runId := RunTracer.GetRunId(RunTracer.Observe(RunTracer.Initial, env.events));
          if runId.None? || detail.None? then Failure(ResponseInvalid(runId.None?, detail.None?))
          else Success(EmojiResponse(runId.value, info, detail.value, tokens))
  }

  /** `get_emoji`. */
  function GetEmoji(c: Chain, env: Env, req: EmojiRequest): Result<EmojiResponse, ServiceError> {
    Respond(env, req, Reply(c, req))
  }

  /** A reply holding one object, with prose before it that has no `{`
      and prose after it that has no `}` (a fenced code block, say), is
      read as that object's members: directly when it is well formed,
      after the repair when the model added a trailing comma. The repair
      is only safe when no written key or value holds a comma followed
      only by whitespace and a closing bracket (`FlatJson.RepairSafe`). */
  lemma HandleWrappedObject(pre: string, ms: seq<FlatJson.Member>, l: FlatJson.Layout, post: string)
    requires '{' !in pre && '}' !in post
    requires FlatJson.ValidLayout(l) && |l.spacings| == |ms| && (l.trailingComma ==> FlatJson.RepairSafe(ms))
    ensures OutputParser.OutputHandle(FlatJson.Decode, pre + FlatJson.Encode(ms, l) + post) == Success(ms)
  {
    var e := FlatJson.Encode(ms, l);
    var x := pre + e + post;
    FlatJson.EncodeBraces(ms, l);
    assert x[|pre|] == '{' && x[..|pre|] == pre;
    Text.FindFirst(x, '{', |pre|);
    var j := |pre| + |e| - 1;
    assert x[j] == '}' && x[j + 1..] == post;
    Text.RFindLast(x, '}', j);
    OutputParser.ExtractSpanBraces(x);
    assert x[|pre|..j + 1] == e;
    FlatJson.DecodeEncode(ms, l);
    if l.trailingComma && |ms| > 0 {
      FlatJson.RepairRecovers(ms, l);
    }
  }

  /** A reply without any `{` fails with the decode error. */
  lemma NoObjectReply(env: Env, req: EmojiRequest, reply: string)
    requires '{' !in reply
    ensures Respond(env, req, reply).Failure? && Respond(env, req, reply).error.ReplyNotJson?
  {
    FlatJson.DecodeRejectsDegenerate();
    OutputParser.NoObjectFails(FlatJson.Decode, reply);
  }

  /** A model that repeats the schema example of the structured template,
      trailing commas and all, gets through `output_handle` (after the
      repair) with an empty file name and an empty description. */
  lemma SchemaEchoAccepted()
    ensures OutputParser.OutputHandle(FlatJson.Decode, Prompts.SchemaExample()) == Success(Prompts.SchemaMembers)
  {
    Prompts.SchemaLayoutValid();
    Prompts.SchemaCommaFree();
    FlatJson.CommaFreeRepairSafe(Prompts.SchemaMembers);
    HandleObject(Prompts.SchemaMembers, Prompts.SchemaLayout);
  }

  /** The bare object, with nothing around it. */
  lemma HandleObject(ms: seq<FlatJson.Member>, l: FlatJson.Layout)
    requires FlatJson.ValidLayout(l) && |l.spacings| == |ms| && (l.trailingComma ==> FlatJson.RepairSafe(ms))
    ensures OutputParser.OutputHandle(FlatJson.Decode, FlatJson.Encode(ms, l)) == Success(ms)
  {
    var e := FlatJson.Encode(ms, l);
    assert "" + e + "" == e;
    HandleWrappedObject("", ms, l, "");
  }

  /** A reply on one line, `{"k1": "v1", "k2": "v2"}` with or without a
      comma before the brace, is read as its two members, as models
      typically write the file name and the description. With the comma,
      no written key or value may hold a comma followed only by whitespace
      and a closing bracket, or the repair would delete it too. */
  lemma OneLineReplyHandled(k1: string, v1: string, k2: string, v2: string, trailingComma: bool)
    requires trailingComma ==> FlatJson.WrittenSafe(k1) && FlatJson.WrittenSafe(v1) && FlatJson.WrittenSafe(k2) && FlatJson.WrittenSafe(v2)
    ensures var reply := "{" + FlatJson.EncodeString(k1) + ": " + FlatJson.EncodeString(v1) + ", "
                         + FlatJson.EncodeString(k2) + ": " + FlatJson.EncodeString(v2)
                         + (if trailingComma then "," else "") + "}";
            OutputParser.OutputHandle(FlatJson.Decode, reply) == Success([FlatJson.Member(k1, v1), FlatJson.Member(k2, v2)])
  {
    var ms := [FlatJson.Member(k1, v1), FlatJson.Member(k2, v2)];
    var first := FlatJson.Spacing("", "", " ", "");
    var next := FlatJson.Spacing(" ", "", " ", "");
    var l := FlatJson.Layout([first, next], "", trailingComma);
    var tail := (if trailingComma then "," else "") + ("" + "}");
    FlatJson.MemberThenOneLine(ms[1], " ", tail);
    var second := FlatJson.MemberThen(ms[1], next, tail);
    FlatJson.MemberThenOneLine(ms[0], "", "," + second);
    assert ms[1..] == [ms[1]] && l.spacings[1..] == [next];
    assert FlatJson.MembersThen(ms[1..], l.spacings[1..], tail) == second;
    assert FlatJson.Encode(ms, l) == "{" + FlatJson.MemberThen(ms[0], first, "," + second);
    var comma := if trailingComma then "," else "";
    OneLineText(FlatJson.EncodeString(k1), FlatJson.EncodeString(v1), FlatJson.EncodeString(k2), FlatJson.EncodeString(v2), comma);
    assert FlatJson.AllJsonSpace(" ");
    HandleObject(ms, l);
  }

  lemma OneLineText(a: string, b: string, c: string, d: string, comma: string)
    ensures "{" + ("" + a + ": " + b + ("," + (" " + c + ": " + d + (comma + ("" + "}")))))
            == "{" + a + ": " + b + ", " + c + ": " + d + comma + "}"
  {
  }

  lemma SchemaEchoInfo()
    ensures InfoOf(Prompts.SchemaMembers) == Success(EmojiInfo("", ""))
  {
    assert Prompts.SchemaMembers[0].key == "filename";
    assert Prompts.SchemaMembers[1].key == "content";
  }

  /** A reply that gets through every step gives exactly this response:
      the run id of the first chain start, the decoded info, the picture's
      detail and the token counts of the provider's callback. */
  lemma RespondAnswers(env: Env, req: EmojiRequest, reply: string, info: EmojiInfo, d: Assets.EmojiDetail, id: RunTracer.Uuid)
    requires OutputParser.OutputHandle(FlatJson.Decode, reply).Success?
    requires InfoOf(OutputParser.OutputHandle(FlatJson.Decode, reply).value) == Success(info)
    requires Assets.GetFileDesc(env.storage, env.dataset, info.filename) == Success(Some(d))
    requires RunTracer.FirstChainStart(env.events) == Some(id)
    ensures Respond(env, req, reply)
            == Success(EmojiResponse(id, info, d, Tokens.MakeTokenInfo(req.llm, env.totals(Tokens.CallbackFor(req.llm)), env.embedTokens)))
  {
    RunTracer.ObserveRecordsFirstChainStart(env.events);
  }

  /** A model that answers with one object holding a `filename` and a
      `content`, wrapped in prose or a code fence and possibly with a
      trailing comma, gets its picture back when the storage has it and
      the run was traced. With a trailing comma, no written key or value
      may hold a comma followed only by whitespace and a closing bracket. */
  lemma WrappedReplyAnswered(env: Env, req: EmojiRequest, pre: string, ms: seq<FlatJson.Member>,
                             l: FlatJson.Layout, post: string, info: EmojiInfo, d: Assets.EmojiDetail, id: RunTracer.Uuid)
    requires '{' !in pre && '}' !in post
    requires FlatJson.ValidLayout(l) && |l.spacings| == |ms| && (l.trailingComma ==> FlatJson.RepairSafe(ms))
    requires InfoOf(ms) == Success(info)
    requires Assets.GetFileDesc(env.storage, env.dataset, info.filename) == Success(Some(d))
    requires RunTracer.FirstChainStart(env.events) == Some(id)
    ensures Respond(env, req, pre + FlatJson.Encode(ms, l) + post)
            == Success(EmojiResponse(id, info, d, Tokens.MakeTokenInfo(req.llm, env.totals(Tokens.CallbackFor(req.llm)), env.embedTokens)))
  {
    HandleWrappedObject(pre, ms, l, post);
    RespondAnswers(env, req, pre + FlatJson.Encode(ms, l) + post, info, d, id);
  }

  /** Each retrieved fragment reaches the model as its own line of the
      prompt. `Prompts.PromptText` renders either template as head,
      context, middle, user text and tail; in that text, line `i`, which
      carries id `i`, the fragment's filename and its content, sits right
      after the head, at the offset of that line in the joined context. */
  lemma RetrievedLinesInPrompt(head: string, middle: string, tail: string, docs: seq<Context.Document>, prompt: string, i: nat)
    requires i < |docs|
    ensures Context.LineCarries(Context.Lines(docs)[i], i, docs[i])
    ensures Within(head + Context.FormatDocs(docs) + middle + prompt + tail,
                   |head| + Text.JoinOffset(Context.Lines(docs), "\n", i), Context.Lines(docs)[i])
  {
    PartInPrompt(head, middle, tail, Context.Lines(docs), prompt, i);
    Context.LineCarriesAt(docs, i);
  }

  /** The same for any list of lines joined by newlines. */
  lemma PartInPrompt(head: string, middle: string, tail: string, parts: seq<string>, prompt: string, i: nat)
    requires i < |parts|
    ensures Within(head + Text.Join(parts, "\n") + middle + prompt + tail,
                   |head| + Text.JoinOffset(parts, "\n", i), parts[i])
  {
    Text.JoinPartAt(parts, "\n", i);
    InsideSecond(head, Text.Join(parts, "\n"), middle, prompt, tail, Text.JoinOffset(parts, "\n", i), |parts[i]|);
  }

  /** `part` occurs in `text` starting at offset `o`. */
  predicate Within(text: string, o: int, part: string) {
    0 <= o && o + |part| <= |text| && text[o..o + |part|] == part
  }

  /** A slice of the second part of `h + x + m + p + t` is that slice of `x`. */
  lemma InsideSecond(h: string, x: string, m: string, p: string, t: string, o: nat, n: nat)
    requires o + n <= |x|
    ensures |h| + o + n <= |h + x + m + p + t|
    ensures (h + x + m + p + t)[|h| + o..|h| + o + n] == x[o..o + n]
  {
    var w := h + x + m + p + t;
    assert w == (h + x) + (m + p + t);
    assert (h + x)[|h|..] == x;
  }

  /** `"deepseek"` gets the structured template but its tokens are
      counted by the Zhipu callback; `"openai"` is the only id that gets
      both OpenAI choices. */
  lemma ProviderMix(llm: string)
    ensures Prompts.PromptFor(llm) == Prompts.Structured && Tokens.CallbackFor(llm) == Tokens.ZhipuAICallback
            <==> llm == "deepseek"
    ensures Prompts.PromptFor(llm) == Prompts.Structured && Tokens.CallbackFor(llm) == Tokens.OpenAICallback
            <==> llm == "openai"
  {
  }
}
