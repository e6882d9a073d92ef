/** `VectorStoreService` in
    langchain_emoji/server/vector_store/vector_store_server.py: the thin
    mapping between the HTTP service and the vector store client. The
    client's own behaviour is a parameter, except where it is `EmojiChroma`,
    whose request shaping is modelled in module `Chroma`. */
module VectorStoreServer {
  import opened Wrappers
  import Chroma

  /** A retrieved document: its text and its metadata. */
  datatype Document = Document(pageContent: string, metadata: Chroma.Metadata)

  /** `EmojiFragment.filename`: the metadata's filename, or the field
      default `-1` (an int, which pydantic does not validate) when the
      metadata has none. */
  datatype FragmentFilename = Named(name: string) | DefaultMinusOne

  datatype EmojiFragment = EmojiFragment(content: string, filename: FragmentFilename)

  /** `EmojiFragment(content=..., **metadata)` raises `TypeError` when the
      metadata itself has a `content` key (the keyword is given twice). */
  datatype FragmentError = DuplicateContentKeyword(index: nat)

  /** `EmojiFragment(content=doc.page_content, **doc.metadata)`; keys
      other than `filename` are ignored by the model class. */
  function ToFragment(doc: Document): (r: Option<EmojiFragment>)
    ensures r.None? <==> "content" in doc.metadata
    ensures r.Some? ==> r.value.content == doc.pageContent
    ensures r.Some? && "filename" in doc.metadata ==> r.value.filename == Named(doc.metadata["filename"])
    ensures r.Some? && "filename" !in doc.metadata ==> r.value.filename == DefaultMinusOne
  {
    if "content" in doc.metadata then None
    else if "filename" in doc.metadata then Some(EmojiFragment(doc.pageContent, Named(doc.metadata["filename"])))
    else Some(EmojiFragment(doc.pageContent, DefaultMinusOne))
  }

  /** The loop of `rag_emoji`: one fragment per document, in order, or the
      first document whose metadata clashes. */
  function ToFragments(docs: seq<Document>): (r: Result<seq<EmojiFragment>, FragmentError>)
    ensures r.Success? <==> forall i :: 0 <= i < |docs| ==> ToFragment(docs[i]).Some?
    ensures r.Success? ==>
              && |r.value| == |docs|
              && forall i :: 0 <= i < |docs| ==> r.value[i] == ToFragment(docs[i]).value
    ensures r.Failure? ==>
              && r.error.index < |docs|
              && ToFragment(docs[r.error.index]).None?
              && forall i :: 0 <= i < r.error.index ==> ToFragment(docs[i]).Some?
    decreases |docs|
  {
    if |docs| == 0 then Success([])
    else
      match ToFragment(docs[0])
      case None => Failure(DuplicateContentKeyword(0))
      case Some(f) =>
        match ToFragments(docs[1..])
        case Failure(DuplicateContentKeyword(i)) => Failure(DuplicateContentKeyword(i + 1))
        case Success(fs) => Success([f] + fs)
  }

  /** `rag_emoji(prompt, filenames=[])`: the search call it makes and the
      fragments it returns. `search` stands for the client's search. */
  function RagEmoji(search: Chroma.SearchCall -> seq<Document>, prompt: string, filenames: seq<string> := []):
    (r: (Chroma.SearchCall, Result<seq<EmojiFragment>, FragmentError>))
    ensures r.0.query == prompt && r.0.k == 3
    ensures r.0.filter == Chroma.FilterFor(filenames)
    ensures r.1 == ToFragments(search(r.0))
  {
    var call := Chroma.SimilaritySearchByFilenames(prompt, filenames, 3);
    (call, ToFragments(search(call)))
  }

  /** Without a filename list the recall search is unfiltered. */
  lemma RagEmojiDefaultUnfiltered(search: Chroma.SearchCall -> seq<Document>, prompt: string)
    ensures RagEmoji(search, prompt).0 == Chroma.SearchCall(prompt, 3, Chroma.NoFilter)
  {
  }

  /** The call `add_original_texts_with_filename(filename=..., texts=[content],
      metadatas=[{"filename": filename}])`. */
  datatype AddRequest = AddRequest(filename: string, texts: seq<string>, metadatas: seq<Chroma.Metadata>)

  function AddEmoji(content: string, filename: string): (r: AddRequest)
    ensures r.filename == filename && r.texts == [content]
    ensures r.metadatas == [map["filename" := filename]]
  {
    AddRequest(filename := filename, texts := [content], metadatas := [map["filename" := filename]])
  }

  /** On `EmojiChroma`, an `add_emoji` request reaches `add_texts` with one
      text and its own one-entry metadata list, so the faulty fallback of
      `add_original_texts_with_filename` is never taken from here. */
  lemma AddEmojiOnChroma(content: string, filename: string)
    ensures var q := AddEmoji(content, filename);
            Chroma.AddOriginalTextsAsWritten(q.filename, q.texts, Some(q.metadatas))
              == Chroma.AddCall([content], Chroma.MetadataList([map["filename" := filename]]))
  {
  }

  /** The call `delete_texts_with_filenames(document_ids=vdb_ids, filenames=filenames)`. */
  datatype DeleteRequest = DeleteRequest(documentIds: seq<string>, filenames: seq<string>)

  function DelEmoji(vdbIds: seq<string>, filenames: seq<string> := []): (r: DeleteRequest)
    ensures r.documentIds == vdbIds && r.filenames == filenames
  {
    DeleteRequest(documentIds := vdbIds, filenames := filenames)
  }

  /** On `EmojiChroma`, `del_emoji` never deletes an id the caller did not
      list, and deletes exactly the listed ids when no filename is given. */
  lemma DelEmojiOnChroma(vdbIds: seq<string>, filenames: seq<string>, lookup: Chroma.Filter -> seq<string>)
    ensures var q := DelEmoji(vdbIds, filenames);
            var ids := Chroma.DeleteTextsWithFilenames(q.documentIds, q.filenames, lookup);
            (forall v :: v in ids ==> v in vdbIds) && (|filenames| == 0 ==> ids == vdbIds)
  {
  }
}
