# LangChain-Emoji core in Dafny

A model of the string and sequence logic behind the LangChain-Emoji
service. The service chooses an emoji picture for a user's text: it
retrieves emoji descriptions from a vector store, renders a prompt for a
language model, extracts and repairs the JSON object in the model's reply,
and then resolves the chosen file to a base64 picture. The retriever, the
model, the callback events, the storage and the vector database are
parameters: functions or values the caller supplies. Everything around
them is modelled as pure functions over strings, sequences and small
datatypes.

Modules (one per file):

- `Wrappers`: `Option` and `Result`.
- `Text`: the Python `str` primitives the service relies on.
  - `find`/`rfind` with their -1 result.
  - Slicing, where a negative bound counts from the end and out-of-range bounds are clamped.
  - `"\n".join`.
  - The `\s` class of `re`.
  - `str(int)`.
- `Seqs`: the subsequence relation, used for "only deletes" and "keeps order" properties.
- `OutputParser`: `output_handle` and `fix_json`.
  - Each `re.sub(r",\s*}", ...)` is one left-to-right, non-overlapping pass.
  - Extraction runs from the first `{` to the last `}`.
  - The decoder is a parameter, so the "repair once, then fail" control flow is proved for any `json.loads`.
- `FlatJson`: the part of `json.loads` that the replies use, namely objects whose members all have string values.
  - It comes with a writer that can add whitespace and a trailing comma, the way a language model might.
- `Prompts`: the two templates of `emoji_prompt.py` as `str.format` strings.
  - It covers parsing (`{{`/`}}` escapes, `{name}` fields, the `ValueError` cases), rendering, and the provider branch of `create_chain`.
- `Context`: `format_docs`.
- `RunTracer`: `ReadRunIdAsyncHandler`.
- `Tokens`: the token accounting of `get_emoji` and `TokenInfo.clear`.
- `Paths`: `paths.py` over a model of `pathlib.PurePosixPath`.
- `Base64`: `base64.b64encode`, following section 4 of RFC 4648, with a decoder that it is proved against.
- `Assets`: `get_file_desc`.
- `EmojiService`: `get_emoji` end to end, as `Respond(env, req, Reply(chain, req))`.
- `Chroma`: the filter, intersection and metadata logic of `EmojiChroma`.
- `VectorStoreServer`: `VectorStoreService`.
- `VectorStoreComponent`: the backend dispatch.

Behaviour of the code that the model keeps, although a reader might expect otherwise:

- `EmojiDetail.base64` is a required `str`. When the MinIO lookup of the picture returns `None`, pydantic therefore rejects the detail, and the request fails (`Assets.AssetError.MissingBase64`). It does not succeed with a null picture.
  - Only the download link is best-effort.
- `EmojiResponse.run_id` is a required `UUID`. When no chain start was seen, building the response fails (`EmojiService.ServiceError.ResponseInvalid`). The id is not reported as absent.
- A storage mode other than `"local"` or `"minio"` makes `get_file_desc` return `None`. The response then fails validation too.
- The schema example in `RESPONSE_TEMPLATE` has trailing commas. It is the very shape `fix_json` repairs, and `json.loads` rejects it (`Prompts.SchemaExampleNeedsRepair`).

## Model

| member | source | states |
|---|---|---|
| Text.Find | langchain_emoji/server/emoji/emoji_service.py:196 | `find` gives -1 exactly when the character is absent, and otherwise the position of its first occurrence |
| Text.RFind | langchain_emoji/server/emoji/emoji_service.py:197 | `rfind` gives -1 exactly when the character is absent, and otherwise the position of its last occurrence |
| Text.Slice | langchain_emoji/server/emoji/emoji_service.py:198 | `s[i:j]` resolves negative bounds from the end and clamps both bounds; it is empty when the start is not below the stop |
| OutputParser.StripPassDeletesOnly | langchain_emoji/server/emoji/emoji_service.py:155-156 | one pass of the comma rewrite only deletes characters: the result is a subsequence of the input |
| OutputParser.StripPassKeepsOthers | langchain_emoji/server/emoji/emoji_service.py:155-156 | every character other than a comma or whitespace survives a pass, in order |
| OutputParser.StripPassIdentityIff | langchain_emoji/server/emoji/emoji_service.py:155-156 | a pass changes the text exactly when it has a comma followed only by whitespace up to the bracket |
| OutputParser.CommaFreeUnchanged | langchain_emoji/server/emoji/emoji_service.py:155-156 | comma-free text passes through unchanged |
| OutputParser.DoubleCommaKeepsOne | langchain_emoji/server/emoji/emoji_service.py:155 | matches do not overlap and are not re-scanned: `,,}` becomes `,}` |
| OutputParser.FixJsonDeletesOnly | langchain_emoji/server/emoji/emoji_service.py:153-156 | the two passes of `fix_json` together only delete characters |
| OutputParser.FixJsonKeepsOthers | langchain_emoji/server/emoji/emoji_service.py:153-156 | `fix_json` keeps every non-comma, non-space character in order |
| OutputParser.FixJsonIdentityIff | langchain_emoji/server/emoji/emoji_service.py:153-156 | `fix_json` changes the text exactly when a `}` or a `]` is preceded by a trailing comma |
| OutputParser.ExtractSpanBraces | langchain_emoji/server/emoji/emoji_service.py:196-198 | with a `{` at or before the last `}`, the span runs from the first `{` through the last `}` inclusive |
| OutputParser.ExtractSpanDegenerate | langchain_emoji/server/emoji/emoji_service.py:196-198 | otherwise the span is empty or a lone `}`; it is `}` exactly when there is no `{` and the reply ends with `}` (start index -1) |
| OutputParser.OutputHandleAttempts | langchain_emoji/server/emoji/emoji_service.py:193-204 | the outcome is the decode of the span if that succeeds, else the decode of the span repaired once, else the decode error |
| OutputParser.RepairedAtMostOnce | langchain_emoji/server/emoji/emoji_service.py:193-204 | only the span and the span repaired once are ever decoded: decoders agreeing on those two give the same outcome |
| OutputParser.NoObjectFails | langchain_emoji/server/emoji/emoji_service.py:196-204 | a reply with no `{`, no `}`, or its last `}` before its first `{` always ends in the decode error |
| OutputParser.WellFormedNotRepaired | langchain_emoji/server/emoji/emoji_service.py:199-201 | a span the decoder accepts is returned without any rewrite |
| FlatJson.ParseEncodedString | langchain_emoji/server/emoji/emoji_service.py:201 | a string literal, with its escapes, reads back as the original string and stops right after the closing quote |
| FlatJson.DecodeRejectsDegenerate | langchain_emoji/server/emoji/emoji_service.py:201 | the decoder rejects the empty text and a lone `}` |
| FlatJson.DecodeEncode | langchain_emoji/server/emoji/emoji_service.py:201 | an object written with any JSON whitespace, chosen member by member, before each key, on either side of each colon, after each value and before the closing brace, reads back as its members in order; with a trailing comma after the last member it is rejected |
| FlatJson.Get | langchain_emoji/server/emoji/emoji_service.py:225 | a key maps to the value of its last member (the dictionary `json.loads` builds), and is absent exactly when no member has it |
| FlatJson.FixJsonOnEncoded | langchain_emoji/server/emoji/emoji_service.py:153-156 | on a written object none of whose written keys or values holds a comma followed only by whitespace and a closing bracket, the rewrite removes exactly the trailing comma and the whitespace after it, and leaves a well-formed one unchanged |
| FlatJson.RepairRecovers | langchain_emoji/server/emoji/emoji_service.py:153-159 | under the same condition, decoding the repaired text of a written object gives its members, trailing comma or not |
| FlatJson.CommaFreeRepairSafe | langchain_emoji/server/emoji/emoji_service.py:155-156 | keys and values without commas always meet that condition |
| FlatJson.RepairCorruptsUnsafeValue | langchain_emoji/server/emoji/emoji_service.py:155-159 | the condition is needed: the value `, }`, written with a trailing comma after it, is repaired into the value `}` |
| Prompts.ParseSource | langchain_emoji/server/emoji/emoji_prompt.py:26-36 | text written with doubled literal braces and `{name}` fields reads back as exactly those pieces |
| Prompts.SourceParse | langchain_emoji/server/emoji/emoji_prompt.py:1-42 | conversely, every template that `str.format` accepts is the written form of the pieces it reads |
| Prompts.Render | langchain_emoji/server/emoji/emoji_prompt.py:12-17 | rendering succeeds exactly when every field of the template has a value |
| Prompts.RenderLit | langchain_emoji/server/emoji/emoji_prompt.py:26-29 | literal text, single braces included, renders to itself |
| Prompts.TemplateWellFormed | langchain_emoji/server/emoji/emoji_prompt.py:1-73 | both templates have exactly the fields `context` then `prompt`, and their source text reads back as the template |
| Prompts.PromptText | langchain_emoji/server/emoji/emoji_service.py:308-328 | the prompt is the chosen template rendered with the context and the user's text, which sit between its prose parts |
| Prompts.ProviderChoice | langchain_emoji/server/emoji/emoji_service.py:310-326 | the structured template is chosen exactly for `"openai"` and `"deepseek"` |
| Prompts.SchemaExampleNeedsRepair | langchain_emoji/server/emoji/emoji_prompt.py:26-29 | the rendered schema example is rejected by `json.loads`; after `fix_json` it reads as `filename` and `content` with empty values |
| Prompts.OutputExampleDecodes | langchain_emoji/server/emoji/emoji_prompt.py:33-36 | the rendered output example reads as the two keys with the example's file name and description |
| Context.Lines | langchain_emoji/server/emoji/emoji_service.py:280-286 | one line per document, in retrieval order; line i reads back id i, and after the id it holds, at fixed offsets, that document's filename text, `>`, its content, and `</emoji>` at the very end |
| Context.DocLineCarries | langchain_emoji/server/emoji/emoji_service.py:282-285 | a line rendered from position i and a document reads back as exactly that id, filename and content |
| Context.DocLineFields | langchain_emoji/server/emoji/emoji_service.py:284 | where the filename, the `>`, the content and the closing tag lie in a rendered line |
| Context.LineCarriesAt | langchain_emoji/server/emoji/emoji_service.py:281-286 | the i-th formatted line carries the i-th document |
| Context.FormatDocsLineAt | langchain_emoji/server/emoji/emoji_service.py:279-287 | each line appears in the text at its offset, in retrieval order, after a newline unless it is the first |
| Context.FormatDocsEmpty | langchain_emoji/server/emoji/emoji_service.py:287 | the context is empty exactly when no document was retrieved |
| Context.FormatDocsLoop | langchain_emoji/server/emoji/emoji_service.py:279-287 | the loop's accumulated lines joined by newlines equal the reference join |
| Context.LineIdOfDocLine | langchain_emoji/server/emoji/emoji_service.py:284 | the id written into a line reads back as the document's position |
| Context.LineIdsDistinct | langchain_emoji/server/emoji/emoji_service.py:281-284 | two lines never carry the same id |
| Context.MissingFilenameLooksLikeNone | langchain_emoji/server/emoji/emoji_service.py:282-284 | a missing filename is rendered as `None`, the same text as a filename that is literally `None` |
| RunTracer.Step | langchain_emoji/server/emoji/emoji_service.py:109-147 | only a chain start writes the id, and only while none is recorded; the other events change nothing |
| RunTracer.RecordedIdSticks | langchain_emoji/server/emoji/emoji_service.py:121-122 | once recorded, the id survives every later event |
| RunTracer.ObserveRecordsFirstChainStart | langchain_emoji/server/emoji/emoji_service.py:104-150 | from a fresh handler, `get_runid` is the id of the first chain start among the events |
| RunTracer.UnsetIffNoChainStart | langchain_emoji/server/emoji/emoji_service.py:106-122 | the id stays `None` exactly when no chain start was seen |
| RunTracer.LaterEventsIgnored | langchain_emoji/server/emoji/emoji_service.py:121-147 | events after the id is recorded, in any number and order, never change it |
| Tokens.CallbackChoice | langchain_emoji/server/emoji/emoji_service.py:208-210 | the OpenAI callback is used exactly for `"openai"`, and the Zhipu callback for every other id |
| Tokens.TruncDiv10 | langchain_emoji/server/emoji/emoji_service.py:230-233 | `int(x / 10)` truncates toward zero for either sign |
| Tokens.MakeTokenInfo | langchain_emoji/server/emoji/emoji_service.py:227-236 | the model is the request's id; prompt, completion, request count and cost are copied; the embedding share is a tenth of the embedding count, truncated, and is the only thing added to the callback's total |
| Tokens.TotalIsSumOfParts | langchain_emoji/server/emoji/emoji_service.py:228-236 | when the callback's total is prompt plus completion, the reported total is prompt + completion + embedding share |
| Tokens.Clear | langchain_emoji/server/emoji/emoji_service.py:62-67 | `clear` zeroes every counter and the cost, but keeps the model and `embedding_tokens` |
| Base64.Symbol | langchain_emoji/server/emoji/emoji_service.py:253 | each 6-bit value is written as the alphabet symbol that reads back as that value, never as `=` |
| Base64.Encode | langchain_emoji/server/emoji/emoji_service.py:253-254 | the encoding of n bytes has 4 * ceil(n/3) characters |
| Base64.DecodeEncode | langchain_emoji/server/emoji/emoji_service.py:253-254 | decoding the encoding gives back the bytes |
| Base64.EncodeDecode | langchain_emoji/server/emoji/emoji_service.py:253-254 | conversely, a text that decodes is the encoding of the bytes it decodes to, so each byte string has exactly one encoding the decoder accepts |
| Base64.LeftoverBitsRejected | langchain_emoji/server/emoji/emoji_service.py:253 | "Zh==", whose last symbol sets bits no byte uses, is rejected rather than read as "f" |
| Base64.EncodeShape | langchain_emoji/server/emoji/emoji_service.py:253-254 | the encoding is alphabet symbols followed by `=` padding, and the padding is there exactly when n is not a multiple of 3 |
| Base64.VectorF | langchain_emoji/server/emoji/emoji_service.py:253 | the test vector of section 10 of RFC 4648: "f" encodes as "Zg==" |
| Base64.VectorFo | langchain_emoji/server/emoji/emoji_service.py:253 | "fo" encodes as "Zm8=" |
| Base64.VectorFoobar | langchain_emoji/server/emoji/emoji_service.py:253 | "foobar" encodes as "Zm9vYmFy" |
| Assets.GetFileDesc | langchain_emoji/server/emoji/emoji_service.py:246-259 | local mode: the file at `<data>/<dataset>/emo/<filename>`, base64 encoded, no link, or the read error. MinIO mode: the object encoded and the presigned link, or a failure when the object is missing. Any other mode: `None` |
| Assets.MinioLinkIndependent | langchain_emoji/server/emoji/emoji_service.py:256-259 | the link lookup affects neither the success of the request nor the picture |
| Assets.LocalFileUnderDataset | langchain_emoji/server/emoji/emoji_service.py:249-251 | the components of a relative file name are appended after the data folder, the dataset name and `emo`, in this order |
| Assets.DotDotKept | langchain_emoji/server/emoji/emoji_service.py:249-251 | a `..` component is kept and not resolved: `../x` ends in `emo`, `..`, `x`, so a relative name can still leave `emo` |
| Assets.AbsoluteFilenameEscapes | langchain_emoji/server/emoji/emoji_service.py:249-251 | a file name starting with `/` replaces the whole path |
| Paths.SplitSlash | langchain_emoji/paths.py:9-10 | splitting at every `/` gives at least one piece, and no piece holds a `/` |
| Paths.SplitSlashJoinsBack | langchain_emoji/paths.py:9-10 | the pieces joined by `/` give back the text |
| Paths.SplitSlashJoin | langchain_emoji/paths.py:9-10 | conversely, slash-free pieces joined by `/` split back into those pieces |
| Paths.KeepPartsOfParts | langchain_emoji/paths.py:9-10 | components that are non-empty, not `.` and slash-free all survive parsing, in order |
| Paths.ParsePath | langchain_emoji/paths.py:8-10 | a path is absolute exactly when its text starts with `/`; its components are non-empty, are not `.` and contain no `/` |
| Paths.ParsePathOfParts | langchain_emoji/paths.py:8-10 | round trip: components joined by `/` parse back as exactly those components, relative without a leading `/` and absolute with one |
| Paths.SplitSlashRooted | langchain_emoji/paths.py:8-9 | a leading `/` adds only an empty piece, which parsing drops |
| Paths.Join | langchain_emoji/paths.py:10 | `p / q` is `q` when `q` is absolute, and otherwise appends `q`'s components to `p`'s |
| Paths.AbsoluteOrFromProjectRoot | langchain_emoji/paths.py:7-17 | a text starting with `/` is taken as it is; any other text is appended under the project root; `local_data_path` is this rule applied to the configured data folder |
| Paths.AbsoluteOrFromProjectRootIsJoin | langchain_emoji/paths.py:7-10 | the explicit `/` test agrees with `pathlib`'s own join rule, so the result is always `root / path` |
| Paths.LeadingSlashOnlyDecides | langchain_emoji/paths.py:8-10 | `./x` and `~/x` are both relative to the root, and `~` is not expanded |
| Paths.DocsPath | langchain_emoji/paths.py:13 | `docs_path` is the root with one more component, `docs` |
| Paths.LocalDataPath | langchain_emoji/paths.py:15-17 | `local_data_path` is `PROJECT_ROOT_PATH / local_data_folder`, absolute exactly when the root is or the folder starts with `/` |
| VectorStoreComponent.Create | langchain_emoji/components/vector_store/vector_store_component.py:17-33 | a store is built exactly for `"tcvectordb"`, from the configured url, key, database and collection; any other name fails with the message `Vectorstore database <name> not supported` |
| Chroma.FilterFor | langchain_emoji/components/vector_store/chroma/chroma.py:29-31 | there is no filter exactly when the filename list is empty; otherwise the filter is `$in` over exactly that list |
| Chroma.SimilaritySearchByFilenames | langchain_emoji/components/vector_store/chroma/chroma.py:26-33 | the query and `k` are passed through unchanged, together with that filter |
| Chroma.SearchContract | langchain_emoji/components/vector_store/chroma/chroma.py:26-33 | against a store, results are at most `k`, in relevance order, and with filenames given each one carries one of them |
| Chroma.Intersect | langchain_emoji/components/vector_store/chroma/chroma.py:49 | an id is kept exactly when it is both looked up and listed by the caller, with the lookup's multiplicity |
| Chroma.IntersectIsSubsequence | langchain_emoji/components/vector_store/chroma/chroma.py:49 | the kept ids follow the lookup's order |
| Chroma.DeleteTextsWithFilenames | langchain_emoji/components/vector_store/chroma/chroma.py:35-53 | without filenames the caller's ids are deleted; with filenames, the lookup intersected with them; never an id the caller did not list |
| Chroma.DeleteRemovesIntersection | langchain_emoji/components/vector_store/chroma/chroma.py:43-53 | against a store with unique ids, a record is deleted exactly when its id is listed and, if filenames are given, its filename is among them |
| Chroma.AddOriginalTextsAsWritten | langchain_emoji/components/vector_store/chroma/chroma.py:17-24 | supplied metadata is passed through unchanged; falsy metadata becomes the bare dict `{"filename": filename}` |
| Chroma.AddWithoutMetadataPassesBareDict | langchain_emoji/components/vector_store/chroma/chroma.py:17-20 | without metadata, `add_texts` gets a dict where a list is expected |
| Chroma.AddOriginalTextsWithFilename | langchain_emoji/components/vector_store/chroma/chroma.py:17-24 | corrected fallback: one `{"filename": filename}` per text; supplied metadata passes through unchanged |
| VectorStoreServer.ToFragment | langchain_emoji/server/vector_store/vector_store_server.py:41-43 | the fragment's content is the page content and its filename comes from the metadata or is the default -1; metadata with its own `content` key fails |
| VectorStoreServer.ToFragments | langchain_emoji/server/vector_store/vector_store_server.py:40-45 | one fragment per document, in order, or the first document that fails |
| VectorStoreServer.RagEmoji | langchain_emoji/server/vector_store/vector_store_server.py:36-45 | the search asks for k = 3 with the caller's query and filename filter, and its documents are mapped to fragments |
| VectorStoreServer.RagEmojiDefaultUnfiltered | langchain_emoji/server/vector_store/vector_store_server.py:36-39 | with the default filename list the search is unfiltered |
| VectorStoreServer.AddEmoji | langchain_emoji/server/vector_store/vector_store_server.py:24-34 | one text, the content, with one metadata `{"filename": filename}` |
| VectorStoreServer.AddEmojiOnChroma | langchain_emoji/server/vector_store/vector_store_server.py:24-34 | on `EmojiChroma` the request reaches `add_texts` with its own one-entry metadata list |
| VectorStoreServer.DelEmoji | langchain_emoji/server/vector_store/vector_store_server.py:47-50 | the ids and filenames are forwarded unchanged |
| VectorStoreServer.DelEmojiOnChroma | langchain_emoji/server/vector_store/vector_store_server.py:47-50 | on `EmojiChroma`, no id outside the caller's list is deleted, and exactly the listed ids are deleted when no filename is given |
| EmojiService.InfoOf | langchain_emoji/server/emoji/emoji_service.py:225 | `EmojiInfo(**result)` succeeds exactly when both keys are present, and takes their values |
| EmojiService.Respond | langchain_emoji/server/emoji/emoji_service.py:206-244 | the request succeeds exactly when the reply decodes, holds both keys, the picture resolves to a detail and a chain start was seen; each failing step gives its own error (the decode error, the missing keys, the asset error, the missing detail or run id); a response carries the decoded info, the first chain start's id, the resolved picture and the token info |
| EmojiService.HandleWrappedObject | langchain_emoji/server/emoji/emoji_service.py:193-204 | an object written with any layout (whitespace chosen member by member, trailing comma or not), surrounded by prose with no stray braces, reads as its members, directly or after repairing the trailing comma; with the trailing comma, no written key or value may hold a comma followed only by whitespace and a closing bracket |
| EmojiService.HandleObject | langchain_emoji/server/emoji/emoji_service.py:193-204 | the same for a bare object |
| EmojiService.OneLineReplyHandled | langchain_emoji/server/emoji/emoji_service.py:193-204 | a one-line reply `{"k1": "v1", "k2": "v2"}`, with or without a comma before the closing brace, reads as its two members; with the comma, no written key or value may hold a comma followed only by whitespace and a closing bracket |
| EmojiService.NoObjectReply | langchain_emoji/server/emoji/emoji_service.py:196-204 | a reply without `{` fails with the decode error |
| EmojiService.SchemaEchoAccepted | langchain_emoji/server/emoji/emoji_prompt.py:26-29 | a model that repeats the schema example is accepted after the repair |
| EmojiService.SchemaEchoInfo | langchain_emoji/server/emoji/emoji_prompt.py:26-29 | and it yields an empty file name and an empty description |
| EmojiService.RespondAnswers | langchain_emoji/server/emoji/emoji_service.py:225-244 | when every step succeeds the response is exactly the first chain start's id, the decoded info, the picture's detail and the token info of the provider's callback |
| EmojiService.WrappedReplyAnswered | langchain_emoji/server/emoji/emoji_service.py:193-244 | end to end: an object with both keys, wrapped in prose or a code fence and possibly with a trailing comma (then with no written key or value holding a comma followed only by whitespace and a closing bracket), yields that response |
| EmojiService.RetrievedLinesInPrompt | langchain_emoji/server/emoji/emoji_service.py:279-299 | in the rendered prompt, line i of the context sits right after the template's head at its join offset, and carries id i with the i-th retrieved document's filename and content |
| EmojiService.PartInPrompt | langchain_emoji/server/emoji/emoji_service.py:287 | any part of a newline join is found in a prompt of that shape at the head's length plus its join offset |
| EmojiService.ProviderMix | langchain_emoji/server/emoji/emoji_service.py:208-210 | `"deepseek"` gets the structured template but the Zhipu callback; only `"openai"` gets both OpenAI choices |

## Left out

- The language model, the retriever, the embedding component and the LangChain runnables that compose them are parameters: `Chain.complete`, `Chain.retrieve` and `Env.embedTokens`. So are the callback events the runtime sends to the handler (`Env.events`).
- The full JSON grammar of `json.loads` is not modelled: numbers, literals, nested values, arrays, and text outside the BMP written as surrogate `\u` pairs. `FlatJson.Decode` rejects them. `json.loads` accepts them, and pydantic then rejects a non-string `filename` or `content` but ignores other keys, so a reply with an extra non-string member fails here and succeeds in the service. `OutputParser` itself is proved for any decoder.
- Format specs, conversions, and attribute or index fields of `str.format` are reported as `UnsupportedField`. The templates use none of them.
- `num_tokens_from_string` calls the `tiktoken` tokenizer, which is foreign code.
- `total_cost` is a float that is only copied, so it is carried as an uninterpreted `real`.
- The MinIO client (`get_file_base64`, `get_download_link`) and the file system are parameters of `Assets.Storage`.
- Tokens.TruncDiv10: the model truncates the exact quotient, while `int(x / 10)` truncates the float `x / 10`. The two agree whenever |x| < 2^53, far beyond any realistic token count. Above it the float rounding can move the result: for x = 10^17 + 19 Python gives 10^16 + 2 and the model 10^16 + 1. `Tokens.MakeTokenInfo` inherits this for the embedding share.
- `pathlib` is modelled for POSIX paths. A leading `//`, which `pathlib` keeps as a distinct root, is treated like `/`.
- Logging, the `print` in `delete_texts_with_filenames`, and the `timeout`, `batch_size` and `expr` arguments have no effect on the results and are not modelled.
- `EmojiChroma`'s base class is represented by a small reference store, in `Chroma.Search`, `Chroma.LookupIds` and `Chroma.DeleteIds`. The Tencent vector database is a parameter of `VectorStoreServer`.
- Chroma.DeleteIds: the reference store takes `delete(ids=[])` to delete nothing. That is the library's behaviour, not something `chroma.py` decides; when no stored id matches, `delete_texts_with_filenames` passes such an empty list.
- The download tools, the frontend, the routers and the launcher are I/O and wiring, and are not part of this model.

## Findings

| source | as written | input that shows it | evidently intended | confidence | as-written member | corrected member |
|---|---|---|---|---|---|---|
| langchain_emoji/components/vector_store/chroma/chroma.py:17-20 | falsy `metadatas` is replaced by the single dict `{"filename": filename}` | `add_original_texts_with_filename("a.jpg", ["a caption"])` hands `add_texts` a dict where a list of one dict per text is expected | one `{"filename": filename}` per text | medium, not executed | Chroma.AddWithoutMetadataPassesBareDict | Chroma.AddOriginalTextsWithFilename |
