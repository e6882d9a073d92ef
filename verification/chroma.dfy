/** `EmojiChroma` in langchain_emoji/components/vector_store/chroma/chroma.py:
    the filename filter built for search and delete, the id intersection
    done before a delete, and the metadata defaulting done before an add.

    Chroma itself is represented by a small reference store: a list of
    records in relevance order for a search, or in storage order for a
    lookup. */
module Chroma {
  import opened Wrappers
  import opened Seqs

  /** A document's metadata; the service only ever stores strings in it. */
  type Metadata = map<string, string>

  /** The `where` argument: `None`, or `{"filename": {"$in": filenames}}`. */
  datatype Filter = NoFilter | FilenameIn(filenames: seq<string>)

  /** The filter both search and delete build from a filename list. */
  function FilterFor(filenames: seq<string>): (f: Filter)
    ensures f.NoFilter? <==> |filenames| == 0
    ensures f.FilenameIn? ==> f.filenames == filenames
  {
    if |filenames| > 0 then FilenameIn(filenames) else NoFilter
  }

  /** The call `self.similarity_search(query, k=k, filter=where)`. */
  datatype SearchCall = SearchCall(query: string, k: int, filter: Filter)

  /** `similarity_search_by_filenames(query, filenames, k=4)`. */
  function SimilaritySearchByFilenames(query: string, filenames: seq<string>, k: int := 4): (c: SearchCall)
    ensures c.query == query && c.k == k
    ensures c.filter.NoFilter? <==> |filenames| == 0
    ensures c.filter.FilenameIn? ==> c.filter.filenames == filenames
  {
    SearchCall(query, k, FilterFor(filenames))
  }

  // ---------------------------------------------------------------------
  // Reference store
  // ---------------------------------------------------------------------

  datatype Record = Record(id: string, text: string, metadata: Metadata)

  /** Does a record's metadata pass the filter? */
  predicate Admits(f: Filter, m: Metadata) {
    match f
    case NoFilter => true
    case FilenameIn(names) => "filename" in m && m["filename"] in names
  }

  /** The records that pass the filter, in their original order. */
  function Admitted(records: seq<Record>, f: Filter): (r: seq<Record>)
    ensures forall x :: x in r <==> x in records && Admits(f, x.metadata)
    decreases |records|
  {
    if |records| == 0 then []
    else
      var rest := Admitted(records[1..], f);
      assert forall x :: x in records <==> x == records[0] || x in records[1..];
      if Admits(f, records[0].metadata) then [records[0]] + rest else rest
  }

  lemma {:induction false} AdmittedIsSubsequence(records: seq<Record>, f: Filter)
    ensures IsSubsequence(Admitted(records, f), records)
    decreases |records|
  {
    if |records| > 0 {
      AdmittedIsSubsequence(records[1..], f);
      var rest := Admitted(records[1..], f);
      if Admits(f, records[0].metadata) {
        assert ([records[0]] + rest)[1..] == rest;
      } else {
        SubsequenceSkip(rest, records[1..], records[0]);
        assert [records[0]] + records[1..] == records;
      }
    }
  }

  /** A store answering a search: the first `k` records, in relevance
      order, among those the filter admits. */
  function Search(ranked: seq<Record>, call: SearchCall): seq<Record> {
    var hits := Admitted(ranked, call.filter);
    if call.k <= 0 then [] else if call.k < |hits| then hits[..call.k] else hits
  }

  /** Search results: at most `k` of them, all admitted by the filter, in
      relevance order; so with a non-empty filename list no result has a
      filename outside it. */
  lemma SearchContract(ranked: seq<Record>, query: string, filenames: seq<string>, k: int)
    ensures var r := Search(ranked, SimilaritySearchByFilenames(query, filenames, k));
            && |r| <= (if k < 0 then 0 else k)
            && IsSubsequence(r, ranked)
            && (forall x :: x in r ==> x in ranked)
            && (|filenames| > 0 ==>
                  forall x :: x in r ==> "filename" in x.metadata && x.metadata["filename"] in filenames)
  {
    var call := SimilaritySearchByFilenames(query, filenames, k);
    var hits := Admitted(ranked, call.filter);
    AdmittedIsSubsequence(ranked, call.filter);
    if 0 < k < |hits| {
      PrefixIsSubsequence(hits, k);
      SubsequenceTrans(hits[..k], hits, ranked);
      assert forall x :: x in hits[..k] ==> x in hits;
    } else if k <= 0 {
      var none: seq<Record> := [];
      assert IsSubsequence(none, ranked);
    }
    var r := Search(ranked, call);
    SubsequenceMembers(r, ranked);
  }

  lemma {:induction false} PrefixIsSubsequence<T>(s: seq<T>, k: nat)
    requires k <= |s|
    ensures IsSubsequence(s[..k], s)
    decreases k
  {
    if k > 0 {
      PrefixIsSubsequence(s[1..], k - 1);
      assert s[..k][1..] == s[1..][..k - 1];
    }
  }

  lemma {:induction false} SubsequenceMembers<T>(a: seq<T>, b: seq<T>)
    requires IsSubsequence(a, b)
    ensures forall x :: x in a ==> x in b
    decreases |b|
  {
    if |a| > 0 {
      if a[0] == b[0] {
        SubsequenceMembers(a[1..], b[1..]);
        assert forall x :: x in a ==> x == a[0] || x in a[1..];
      } else {
        SubsequenceMembers(a, b[1..]);
      }
    }
  }

  /** `self._collection.get(where=...)["ids"]`: ids of the admitted
      records, in storage order. */
  function LookupIds(store: seq<Record>, f: Filter): (ids: seq<string>)
    ensures |ids| == |Admitted(store, f)|
    ensures forall i :: 0 <= i < |ids| ==> ids[i] == Admitted(store, f)[i].id
  {
    var hits := Admitted(store, f);
    seq(|hits|, i requires 0 <= i < |hits| => hits[i].id)
  }

  /** `self.delete(ids=...)`: drops every record whose id is listed. */
  function DeleteIds(store: seq<Record>, ids: seq<string>): (r: seq<Record>)
    ensures forall x :: x in r <==> x in store && x.id !in ids
    decreases |store|
  {
    if |store| == 0 then []
    else
      var rest := DeleteIds(store[1..], ids);
      assert forall x :: x in store <==> x == store[0] || x in store[1..];
      if store[0].id in ids then rest else [store[0]] + rest
  }

  // ---------------------------------------------------------------------
  // delete_texts_with_filenames
  // ---------------------------------------------------------------------

  /** `[value for value in result.get("ids") if value in document_ids]`:
      the looked-up ids that are also in the caller's list, in lookup
      order and with lookup multiplicity. */
  function Intersect(lookupIds: seq<string>, documentIds: seq<string>): (r: seq<string>)
    ensures forall v :: v in r <==> v in lookupIds && v in documentIds
    ensures forall v :: multiset(r)[v] == (if v in documentIds then multiset(lookupIds)[v] else 0)
    decreases |lookupIds|
  {
    if |lookupIds| == 0 then []
    else
      var rest := Intersect(lookupIds[1..], documentIds);
      assert lookupIds == [lookupIds[0]] + lookupIds[1..];
      if lookupIds[0] in documentIds then [lookupIds[0]] + rest else rest
  }

  lemma {:induction false} IntersectIsSubsequence(lookupIds: seq<string>, documentIds: seq<string>)
    ensures IsSubsequence(Intersect(lookupIds, documentIds), lookupIds)
    decreases |lookupIds|
  {
    if |lookupIds| > 0 {
      IntersectIsSubsequence(lookupIds[1..], documentIds);
      var rest := Intersect(lookupIds[1..], documentIds);
      if lookupIds[0] in documentIds {
        assert ([lookupIds[0]] + rest)[1..] == rest;
      } else {
        SubsequenceSkip(rest, lookupIds[1..], lookupIds[0]);
        assert [lookupIds[0]] + lookupIds[1..] == lookupIds;
      }
    }
  }

  /** The ids handed to `self.delete`: the caller's ids when no filename is
      given, otherwise the looked-up ids of those filenames that the
      caller also listed. `lookup` stands for `self._collection.get`. */
  function DeleteTextsWithFilenames(
    documentIds: seq<string>, filenames: seq<string>, lookup: Filter -> seq<string>): (ids: seq<string>)
    ensures |filenames| == 0 ==> ids == documentIds
    ensures |filenames| > 0 ==> ids == Intersect(lookup(FilenameIn(filenames)), documentIds)
    ensures forall v :: v in ids ==> v in documentIds
  {
    if |filenames| > 0 then Intersect(lookup(FilterFor(filenames)), documentIds) else documentIds
  }

  /** Record ids are the store's keys. */
  predicate UniqueIds(store: seq<Record>) {
    forall i, j :: 0 <= i < |store| && 0 <= j < |store| && store[i].id == store[j].id ==> i == j
  }

  /** With unique ids, a record's id is looked up exactly when the record
      passes the filter. */
  lemma LookupIdsOfRecord(store: seq<Record>, f: Filter, x: Record)
    requires UniqueIds(store) && x in store
    ensures x.id in LookupIds(store, f) <==> Admits(f, x.metadata)
  {
    var looked := LookupIds(store, f);
    var hits := Admitted(store, f);
    if x.id in looked {
      var i :| 0 <= i < |looked| && looked[i] == x.id;
      assert hits[i] in hits;
      var a :| 0 <= a < |store| && store[a] == hits[i];
      var b :| 0 <= b < |store| && store[b] == x;
    }
    if Admits(f, x.metadata) {
      var i :| 0 <= i < |hits| && hits[i] == x;
      assert looked[i] == x.id;
    }
  }

  /** Against a store, the delete removes exactly the records whose id the
      caller listed and, when filenames are given, whose filename is among
      them: an intersection of the two criteria, never a union. */
  lemma DeleteRemovesIntersection(store: seq<Record>, documentIds: seq<string>, filenames: seq<string>, x: Record)
    requires UniqueIds(store) && x in store
    ensures var ids := DeleteTextsWithFilenames(documentIds, filenames, f => LookupIds(store, f));
            x !in DeleteIds(store, ids) <==>
              x.id in documentIds && (|filenames| == 0 || Admits(FilenameIn(filenames), x.metadata))
  {
    var ids := DeleteTextsWithFilenames(documentIds, filenames, f => LookupIds(store, f));
    assert x !in DeleteIds(store, ids) <==> x.id in ids;
    if |filenames| > 0 {
      LookupIdsOfRecord(store, FilenameIn(filenames), x);
    }
  }

  // ---------------------------------------------------------------------
  // add_original_texts_with_filename
  // ---------------------------------------------------------------------

  /** The `metadatas` argument handed to `add_texts`: normally a list with
      one dict per text, but the fallback below hands over a bare dict. */
  datatype MetadatasArg = MetadataList(items: seq<Metadata>) | BareMetadata(item: Metadata)

  /** The call `self.add_texts(texts=texts, metadatas=metadatas)`. */
  datatype AddCall = AddCall(texts: seq<string>, metadatas: MetadatasArg)

  /** `not metadatas` for `Optional[List[dict]]`: `None` or the empty list. */
  predicate Falsy(metadatas: Option<seq<Metadata>>) {
    metadatas.None? || |metadatas.value| == 0
  }

  /** The method as written: a falsy `metadatas` becomes the single dict
      `{"filename": filename}`, not a list. */
  function AddOriginalTextsAsWritten(filename: string, texts: seq<string>, metadatas: Option<seq<Metadata>>): (c: AddCall)
    ensures c.texts == texts
    ensures !Falsy(metadatas) ==> c.metadatas == MetadataList(metadatas.value)
    ensures Falsy(metadatas) ==> c.metadatas == BareMetadata(map["filename" := filename])
  {
    if Falsy(metadatas) then AddCall(texts, BareMetadata(map["filename" := filename]))
    else AddCall(texts, MetadataList(metadatas.value))
  }

  /** With no metadata, a one-text add hands `add_texts` a dict where a
      list of one dict per text is expected. */
  lemma AddWithoutMetadataPassesBareDict()
    ensures !AddOriginalTextsAsWritten("a.jpg", ["a caption"], None).metadatas.MetadataList?
  {
  }

  /** The evidently intended fallback: one `{"filename": filename}` per
      text; supplied metadata is still passed through unchanged and the
      `filename` argument then ignored. */
  function AddOriginalTextsWithFilename(filename: string, texts: seq<string>, metadatas: Option<seq<Metadata>>): (c: AddCall)
    ensures c.texts == texts && c.metadatas.MetadataList?
    ensures !Falsy(metadatas) ==> c.metadatas.items == metadatas.value
    ensures Falsy(metadatas) ==>
              |c.metadatas.items| == |texts|
              && forall i :: 0 <= i < |texts| ==> c.metadatas.items[i] == map["filename" := filename]
  {
    if Falsy(metadatas) then AddCall(texts, MetadataList(seq(|texts|, _ => map["filename" := filename])))
    else AddCall(texts, MetadataList(metadatas.value))
  }
}
