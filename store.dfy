/**
 * The vector store as the chatbot and the indexer use it: collections by
 * name, each holding fragments. Embeddings and nearest-neighbour search
 * belong to the store and are outside this model; whether the store
 * accepts a batch (embedding succeeds) is an input.
 */
module Store {
  import opened Corpus
  import opened Catalogue

  /** The one collection both the chatbot and the offline indexer use. */
  const CollectionName: string := "documentos_curso"

  predicate AllDistinct(ids: seq<string>) {
    forall i, j :: 0 <= i < j < |ids| ==> ids[i] != ids[j]
  }

  /** The fragments of three parallel lists. */
  function Zip(documents: seq<string>, metadatas: seq<Metadata>, ids: seq<string>): (r: seq<Fragment>)
    requires |documents| == |metadatas| == |ids|
    ensures |r| == |ids|
    ensures forall k :: 0 <= k < |r| ==> r[k] == Fragment(ids[k], documents[k], metadatas[k])
  {
    seq(|ids|, (k: int) requires 0 <= k < |ids| => Fragment(ids[k], documents[k], metadatas[k]))
  }

  /** Whether some stored fragment already has id `id`. */
  predicate HasId(stored: seq<Fragment>, id: string) {
    exists k :: 0 <= k < |stored| && stored[k].id == id
  }

  /** The fragments of a batch whose id is not stored yet, in order. */
  function Fresh(stored: seq<Fragment>, batch: seq<Fragment>): (r: seq<Fragment>)
    ensures |r| <= |batch|
  {
    if batch == [] then []
    else (if HasId(stored, batch[0].id) then [] else [batch[0]]) + Fresh(stored, batch[1..])
  }

  /** A fragment is added exactly when it is in the batch and its id is not stored yet. */
  lemma {:induction false} FreshMembers(stored: seq<Fragment>, batch: seq<Fragment>)
    ensures forall x :: x in Fresh(stored, batch) <==> x in batch && !HasId(stored, x.id)
  {
    if batch != [] {
      FreshMembers(stored, batch[1..]);
      assert forall x :: x in batch <==> x == batch[0] || x in batch[1..];
    }
  }

  /** Into an empty collection the whole batch is new. */
  lemma {:induction false} FreshInEmpty(batch: seq<Fragment>)
    ensures Fresh([], batch) == batch
  {
    if batch != [] {
      FreshInEmpty(batch[1..]);
      assert batch == [batch[0]] + batch[1..];
    }
  }

  /** Adding the same batch a second time adds nothing. */
  lemma {:induction false} FreshAgain(stored: seq<Fragment>, batch: seq<Fragment>)
    ensures Fresh(stored + Fresh(stored, batch), batch) == []
  {
    var s2 := stored + Fresh(stored, batch);
    FreshMembers(stored, batch);
    forall x | x in batch ensures HasId(s2, x.id) {
      if HasId(stored, x.id) {
        var k :| 0 <= k < |stored| && stored[k].id == x.id;
        assert s2[k] == stored[k];
      } else {
        assert x in Fresh(stored, batch);
        var k :| 0 <= k < |Fresh(stored, batch)| && Fresh(stored, batch)[k] == x;
        assert s2[|stored| + k] == x;
      }
    }
    FreshNone(s2, batch);
  }

  lemma {:induction false} FreshNone(stored: seq<Fragment>, batch: seq<Fragment>)
    requires forall x :: x in batch ==> HasId(stored, x.id)
    ensures Fresh(stored, batch) == []
  {
    if batch != [] {
      assert batch[0] in batch;
      assert forall x :: x in batch[1..] ==> x in batch;
      FreshNone(stored, batch[1..]);
    }
  }

  /** The three parallel lists spell out exactly the catalogue. */
  lemma ZipCatalogue(cat: seq<Fragment>, documents: seq<string>, metadatas: seq<Metadata>, ids: seq<string>)
    requires |documents| == |metadatas| == |ids| == |cat|
    requires forall k :: 0 <= k < |ids| ==> cat[k] == Fragment(ids[k], documents[k], metadatas[k])
    ensures Zip(documents, metadatas, ids) == cat
    ensures AllDistinct(ids) <==> DistinctIds(cat)
  {
    assert forall k :: 0 <= k < |ids| ==> ids[k] == cat[k].id;
  }

  /** The lists built for a folder's files, as one batch. */
  method IndexBatch(files: seq<DocFile>, checkSuffix: bool) returns (documents: seq<string>, metadatas: seq<Metadata>, ids: seq<string>)
    ensures |documents| == |metadatas| == |ids| == |Catalogue.Catalogue(files, checkSuffix)|
    ensures Zip(documents, metadatas, ids) == Catalogue.Catalogue(files, checkSuffix)
    ensures AllDistinct(ids) <==> DistinctIds(Catalogue.Catalogue(files, checkSuffix))
  {
    documents, metadatas, ids := BuildCatalogue(files, checkSuffix);
    ZipCatalogue(Catalogue.Catalogue(files, checkSuffix), documents, metadatas, ids);
  }

  /** Deleting a key and then setting it is the same as setting it. */
  lemma RemoveThenSet<K, V>(m: map<K, V>, k: K, v: V)
    ensures (m - {k})[k := v] == m[k := v]
  {}

  /** Setting a key twice keeps the second value. */
  lemma SetTwice<K, V>(m: map<K, V>, k: K, v: V, w: V)
    ensures m[k := v][k := w] == m[k := w]
  {}

  class VectorStore {
    var collections: map<string, seq<Fragment>>

    constructor (collections: map<string, seq<Fragment>>)
      ensures this.collections == collections
    {
      this.collections := collections;
    }

    /** `delete_collection`: removes the collection; a missing one raises, which both callers ignore. */
    method DeleteCollection(name: string) returns (ok: bool)
      modifies this
      ensures ok <==> name in old(collections)
      ensures collections == old(collections) - {name}
    {
      ok := name in collections;
      collections := collections - {name};
    }

    /** `create_collection`: a new empty collection; raises (ok false) when the name is taken. */
    method CreateCollection(name: string) returns (ok: bool)
      modifies this
      ensures ok <==> name !in old(collections)
      ensures ok ==> collections == old(collections)[name := []]
      ensures !ok ==> collections == old(collections)
    {
      ok := name !in collections;
      if ok {
        collections := collections[name := []];
      }
    }

    /** `get_or_create_collection`: the existing collection, or a new empty one. */
    method GetOrCreateCollection(name: string)
      modifies this
      ensures name in old(collections) ==> collections == old(collections)
      ensures name !in old(collections) ==> collections == old(collections)[name := []]
    {
      if name !in collections {
        collections := collections[name := []];
      }
    }

    /**
     * `collection.add`. The whole batch is refused when the lists differ in
     * length, an id repeats inside the batch, or the store fails to embed it
     * (`accepted` false); otherwise fragments whose id is already stored are
     * skipped and the others are appended.
     */
    method Add(name: string, documents: seq<string>, metadatas: seq<Metadata>, ids: seq<string>, accepted: bool)
      returns (ok: bool)
      modifies this
      ensures ok <==> accepted && name in old(collections) && |documents| == |metadatas| == |ids| && AllDistinct(ids)
      ensures ok ==> collections == old(collections)[name := old(collections)[name]
        + Fresh(old(collections)[name], Zip(documents, metadatas, ids))]
      ensures !ok ==> collections == old(collections)
    {
      ok := accepted && name in collections && |documents| == |metadatas| == |ids| && AllDistinct(ids);
      if ok {
        var stored := collections[name];
        collections := collections[name := stored + Fresh(stored, Zip(documents, metadatas, ids))];
      }
    }
  }
}
