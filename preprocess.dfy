/**
 * The offline indexer `preprocess_embeddings`: rebuild the collection from
 * scratch, catalogue every listed text file, hand the batch to the store and,
 * after the batch is stored, persist the corpus fingerprint.
 */
module Preprocess {
  import opened Wrappers
  import opened Corpus
  import opened Catalogue
  import opened Fingerprint
  import opened Store

  /** The fragments the indexer hands to the store for a folder listing. */
  function IndexedFragments(folder: Option<seq<DocFile>>): (cat: seq<Fragment>)
    ensures |cat| == if folder.None? then 0 else TotalCount(GlobTxt(folder.value), false)
  {
    match folder
    case None => []
    case Some(entries) => Catalogue.Catalogue(GlobTxt(entries), false)
  }

  /** `delete_collection` (errors ignored) followed by `create_collection`: the collection is empty. */
  method RebuildCollection(store: VectorStore)
    modifies store
    ensures store.collections == old(store.collections)[CollectionName := []]
  {
    ghost var before := store.collections;
    var _ := store.DeleteCollection(CollectionName);
    var _ := store.CreateCollection(CollectionName);
    RemoveThenSet(before, CollectionName, []);
  }

  /** Adding a whole batch to an empty collection leaves exactly that batch in it. */
  method AddToEmpty(store: VectorStore, documents: seq<string>, metadatas: seq<Metadata>, ids: seq<string>, accepted: bool)
    returns (ok: bool)
    requires CollectionName in store.collections && store.collections[CollectionName] == []
    requires |documents| == |metadatas| == |ids|
    modifies store
    ensures ok <==> accepted && AllDistinct(ids)
    ensures ok ==> store.collections == old(store.collections)[CollectionName := Zip(documents, metadatas, ids)]
    ensures !ok ==> store.collections == old(store.collections)
  {
    FreshInEmpty(Zip(documents, metadatas, ids));
    assert store.collections[CollectionName] + Fresh([], Zip(documents, metadatas, ids)) == Zip(documents, metadatas, ids);
    ok := store.Add(CollectionName, documents, metadatas, ids, accepted);
  }

  /**
   * The part of `preprocess_embeddings` after the listing: catalogue the files,
   * add the batch when it is not empty, then save the fingerprint. None when
   * `collection.add` raises.
   */
  method StoreFiles(store: VectorStore, hashFile: HashFile, files: seq<DocFile>, fingerprint: Option<string>, accepted: bool)
    returns (count: Option<nat>)
    requires CollectionName in store.collections && store.collections[CollectionName] == []
    modifies store, hashFile
    ensures var cat := Catalogue.Catalogue(files, false);
      && (count.None? <==> cat != [] && !(accepted && DistinctIds(cat)))
      && (count.Some? ==> count.value == |cat|)
      && store.collections == old(store.collections)[CollectionName := if count.Some? then cat else []]
      && hashFile.content == (if count.Some? && cat != [] && Truthy(fingerprint) then fingerprint else old(hashFile.content))
  {
    var documents, metadatas, ids := IndexBatch(files, false);
    if documents == [] {
      return Some(0);
    }
    var ok := AddToEmpty(store, documents, metadatas, ids, accepted);
    if !ok {
      return None;
    }
    if Truthy(fingerprint) {
      hashFile.content := fingerprint;
    }
    count := Some(|documents|);
  }

  /**
   * `preprocess_embeddings`. The result is the number of fragments stored, or
   * None when `collection.add` raises (the script does not catch it). The
   * collection is always rebuilt empty first; the fingerprint is written only
   * after a successful add, and only when it is truthy.
   */
  method PreprocessEmbeddings(store: VectorStore, hashFile: HashFile, folder: Option<seq<DocFile>>,
                              md5: string -> string, accepted: bool)
    returns (count: Option<nat>)
    modifies store, hashFile
    ensures var cat := IndexedFragments(folder);
      && (count.None? <==> cat != [] && !(accepted && DistinctIds(cat)))
      && (count.Some? ==> count.value == |cat|)
      && store.collections == old(store.collections)[CollectionName := if count.Some? then cat else []]
      && hashFile.content == (if count.Some? && cat != [] && Truthy(CorpusFingerprint(folder, md5))
                              then CorpusFingerprint(folder, md5) else old(hashFile.content))
  {
    ghost var before := store.collections;
    RebuildCollection(store);
    if folder.None? {
      return Some(0);
    }
    var files := GlobTxt(folder.value);
    if files == [] {
      return Some(0);
    }
    var currentHash := DocumentsHash(folder, md5);
    count := StoreFiles(store, hashFile, files, currentHash, accepted);
    SetTwice(before, CollectionName, [], if count.Some? then Catalogue.Catalogue(files, false) else []);
  }

  /**
   * In a folder with distinct names and no file called ".txt", the ids are
   * distinct, so the batch fails only when the store cannot embed it, and the
   * count is the sum of the per-file chunk counts.
   */
  lemma IndexedIdsDistinct(entries: seq<DocFile>)
    requires DistinctNames(entries)
    requires forall f :: f in entries ==> f.name != ".txt"
    ensures DistinctIds(IndexedFragments(Some(entries)))
    ensures |IndexedFragments(Some(entries))| == TotalCount(GlobTxt(entries), false)
  {
    GlobTxtDistinct(entries);
    GlobTxtMembers(entries);
    CatalogueIdsDistinct(GlobTxt(entries), false);
    CatalogueSize(GlobTxt(entries), false);
  }

  /** A folder holding both ".txt" and ".txt.txt" makes the indexer's batch fail. */
  lemma DotTxtBatchFails()
    ensures !DistinctIds(IndexedFragments(Some([DocFile(".txt", None, Some("a")), DocFile(".txt.txt", None, Some("b"))])))
  {
    var entries := [DocFile(".txt", None, Some("a")), DocFile(".txt.txt", None, Some("b"))];
    assert GlobTxt(entries) == entries by {
      assert EndsWith(".txt", ".txt") && EndsWith(".txt.txt", ".txt");
      assert entries[1..][1..] == [];
    }
    DotTxtClash();
  }
}
