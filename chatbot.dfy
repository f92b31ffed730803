/**
 * The chatbot's `RAGSystem`: it holds the vector-store client and the
 * (never assigned) fingerprint file, catalogues a folder into the collection
 * on demand, and answers a search with the keyword-boosted reranking of the
 * store's nearest hits.
 */
module Chatbot {
  import opened Wrappers
  import opened Corpus
  import opened Catalogue
  import opened Fingerprint
  import opened Store
  import opened Keywords
  import opened Retriever

  /** The collections once `get_or_create_collection` has run. */
  function Opened(m: map<string, seq<Fragment>>): map<string, seq<Fragment>> {
    if CollectionName in m then m else m[CollectionName := []]
  }

  /** The fragments `process_documents` catalogues: only names whose suffix is ".txt" are read. */
  function ProcessedFragments(folder: Option<seq<DocFile>>): (cat: seq<Fragment>)
    ensures |cat| == if folder.None? then 0 else TotalCount(GlobTxt(folder.value), true)
  {
    match folder
    case None => []
    case Some(entries) => Catalogue.Catalogue(GlobTxt(entries), true)
  }

  /** The chatbot's batch never repeats an id: the file ".txt" has suffix "" and is not read. */
  lemma ProcessedIdsDistinct(entries: seq<DocFile>)
    requires DistinctNames(entries)
    ensures DistinctIds(ProcessedFragments(Some(entries)))
    ensures |ProcessedFragments(Some(entries))| == TotalCount(GlobTxt(entries), true)
  {
    GlobTxtDistinct(entries);
    GlobTxtMembers(entries);
    CatalogueIdsDistinct(GlobTxt(entries), true);
    CatalogueSize(GlobTxt(entries), true);
  }

  /** `RAGSystem`. */
  class RAGSystem {
    /** The cached store client and its collections. */
    const store: VectorStore
    /** `self.doc_hash_file`: `__init__` never assigns it. */
    var docHashFile: HashFile?

    constructor (store: VectorStore)
      ensures this.store == store && docHashFile == null
    {
      this.store := store;
      docHashFile := null;
    }

    /**
     * `documents_changed`. Without a fingerprint file (the only state
     * `__init__` leaves) the attribute lookup raises and the answer is True;
     * with one, the check-and-update against the current fingerprint, where
     * `readFails`/`writeFails` say whether opening the file raises.
     */
    method DocumentsChanged(folder: Option<seq<DocFile>>, md5: string -> string, readFails: bool, writeFails: bool)
      returns (changed: bool)
      modifies docHashFile
      ensures docHashFile == null ==> changed
      ensures docHashFile != null ==>
        CheckResult(changed, docHashFile.content)
          == GuardedCheck(CorpusFingerprint(folder, md5), old(docHashFile.content), readFails, writeFails)
    {
      var currentHash := DocumentsHash(folder, md5);
      if docHashFile == null {
        return true;
      }
      changed := CheckAndUpdate(docHashFile, currentHash, readFails, writeFails);
    }

    /**
     * `process_documents`: open the collection, catalogue the folder's text
     * files and add the batch. A refused batch is caught and reported as 0;
     * otherwise the result is the number of fragments handed to the store.
     */
    method ProcessDocuments(folder: Option<seq<DocFile>>, accepted: bool) returns (count: nat)
      modifies store
      ensures var cat := ProcessedFragments(folder);
        var ready := Opened(old(store.collections));
        var stored := cat != [] && accepted && DistinctIds(cat);
        && count == (if stored then |cat| else 0)
        && store.collections == (if stored then ready[CollectionName := ready[CollectionName]
                                   + Fresh(ready[CollectionName], cat)] else ready)
    {
      store.GetOrCreateCollection(CollectionName);
      if folder.None? {
        return 0;
      }
      var files := GlobTxt(folder.value);
      if files == [] {
        return 0;
      }
      var documents, metadatas, ids := IndexBatch(files, true);
      if documents != [] {
        var ok := store.Add(CollectionName, documents, metadatas, ids, accepted);
        if !ok {
          return 0;
        }
      }
      count := |documents|;
    }

    /**
     * `search`. `reply` is the keyword reply of the LLM (None when the call
     * or reading its reply raises); `vectorQuery` stands for `collection.query`
     * on the collection's fragments, None when it raises, which the search
     * reports as None.
     */
    method Search(query: string, n: nat, reply: Option<string>,
                  vectorQuery: (seq<Fragment>, string, nat) -> Option<seq<Candidate>>)
      returns (results: Option<SearchResults>)
      modifies store
      ensures store.collections == Opened(old(store.collections))
      ensures var hits := vectorQuery(store.collections[CollectionName], query, 5 * n);
        && (hits.None? <==> results.None?)
        && (hits.Some? ==> results.value == Pack(Reranked(hits.value, ExtractKeywords(query, reply), n)))
    {
      store.GetOrCreateCollection(CollectionName);
      var keywords := ExtractKeywords(query, reply);
      var initialResults := vectorQuery(store.collections[CollectionName], query, n * 5);
      if initialResults.None? {
        return None;
      }
      var r := Rerank(initialResults.value, keywords, n);
      results := Some(r);
    }
  }
}
