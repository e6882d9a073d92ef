/** Token accounting of `get_emoji` in
    langchain_emoji/server/emoji/emoji_service.py: the usage callback is
    chosen from the request's provider id, and the embedding component's
    running token count is folded into the totals with a /10 discount. */
module Tokens {

  /** The usage callback context managers the service can open. */
  datatype TokenCallback = OpenAICallback | ZhipuAICallback

  /** What the callback has accumulated when the chain returns. The cost
      is a Python float that is only copied, so it is carried as an
      uninterpreted number. */
  datatype CallbackTotals = CallbackTotals(
    totalTokens: int,
    promptTokens: int,
    completionTokens: int,
    successfulRequests: int,
    totalCost: real)

  /** `TokenInfo`. */
  datatype TokenInfo = TokenInfo(
    model: string,
    totalTokens: int,
    promptTokens: int,
    completionTokens: int,
    embeddingTokens: int,
    successfulRequests: int,
    totalCost: real)

  /** `get_openai_callback if body.llm == "openai" else get_zhipuai_callback`. */
  function CallbackFor(llm: string): TokenCallback {
    if llm == "openai" then OpenAICallback else ZhipuAICallback
  }

  /** The OpenAI callback is used for `"openai"` only; every other id,
      `"deepseek"` included, is counted by the Zhipu callback. */
  lemma CallbackChoice(llm: string)
    ensures CallbackFor(llm) == OpenAICallback <==> llm == "openai"
    ensures llm != "openai" ==> CallbackFor(llm) == ZhipuAICallback
  {
  }

  /** Python's `int(x / 10)`: true division, then truncation toward zero
      (Dafny's own `/` rounds toward negative infinity for negative `x`). */
  function TruncDiv10(x: int): (r: int)
    ensures x >= 0 ==> 10 * r <= x < 10 * r + 10
    ensures x < 0 ==> 10 * r - 10 < x <= 10 * r
    ensures (x >= 0 ==> r >= 0) && (x <= 0 ==> r <= 0)
  {
    if x >= 0 then x / 10 else -((-x) / 10)
  }

  /** The `TokenInfo` built after the chain returns. */
  function MakeTokenInfo(llm: string, cb: CallbackTotals, embedTokens: int): (t: TokenInfo)
    ensures t.model == llm
    ensures t.promptTokens == cb.promptTokens
    ensures t.completionTokens == cb.completionTokens
    ensures t.successfulRequests == cb.successfulRequests
    ensures t.totalCost == cb.totalCost
    ensures embedTokens >= 0 ==> 10 * t.embeddingTokens <= embedTokens < 10 * t.embeddingTokens + 10
    ensures t.totalTokens - t.embeddingTokens == cb.totalTokens
  {
    var embedding := TruncDiv10(embedTokens);
    TokenInfo(
      model := llm,
      totalTokens := cb.totalTokens + embedding,
      promptTokens := cb.promptTokens,
      completionTokens := cb.completionTokens,
      embeddingTokens := embedding,
      successfulRequests := cb.successfulRequests,
      totalCost := cb.totalCost)
  }

  /** When the callback's own total is prompt plus completion, the reported
      total is prompt + completion + floor(embedding / 10). */
  lemma TotalIsSumOfParts(llm: string, cb: CallbackTotals, embedTokens: nat)
    requires cb.totalTokens == cb.promptTokens + cb.completionTokens
    ensures var t := MakeTokenInfo(llm, cb, embedTokens);
            t.totalTokens == t.promptTokens + t.completionTokens + t.embeddingTokens
            && t.embeddingTokens == embedTokens / 10
  {
  }

  /** `TokenInfo.clear()`: resets every counter and the cost, but not
      `embedding_tokens`, and keeps the model name. */
  function Clear(t: TokenInfo): (r: TokenInfo)
    ensures r.model == t.model && r.embeddingTokens == t.embeddingTokens
    ensures r.totalTokens == 0 && r.promptTokens == 0 && r.completionTokens == 0
    ensures r.successfulRequests == 0 && r.totalCost == 0.0
  {
    t.(totalTokens := 0, promptTokens := 0, completionTokens := 0,
       successfulRequests := 0, totalCost := 0.0)
  }
}
