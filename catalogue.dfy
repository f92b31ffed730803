/**
 * The fragment catalogue: the loop of `process_documents` and
 * `preprocess_embeddings` that turns the text files of the folder into the
 * three parallel lists handed to the vector store (`documents`,
 * `metadatas`, `ids`).
 */
module Catalogue {
  import opened Wrappers
  import opened Text
  import opened Chunker
  import opened Corpus

  /** The metadata stored with a fragment: its file, its position and the file's fragment count. */
  datatype Metadata = Metadata(source: string, chunk: nat, totalChunks: nat)

  datatype Fragment = Fragment(id: string, text: string, metadata: Metadata)

  /** The id of fragment `i` of a file: the stem, an underscore and the index. */
  function FragmentId(stem: string, i: nat): (id: string)
    ensures |id| > |stem| + 1 && id[..|stem|] == stem && id[|stem|] == '_'
  {
    stem + "_" + NatToString(i)
  }

  /** Reads an id back: the stem before the last underscore and the index after it. */
  function ParseFragmentId(id: string): Option<(string, nat)> {
    var u := RFind(id, '_');
    if u >= 0 && IsDigits(id[u + 1..]) then Some((id[..u], ParseNat(id[u + 1..]))) else None
  }

  /** The index has no underscore, so the last underscore of an id is the one after the stem. */
  lemma LastUnderscore(stem: string, i: nat)
    ensures RFind(FragmentId(stem, i), '_') == |stem|
  {
    var x := FragmentId(stem, i);
    var d := NatToString(i);
    assert x[|stem|] == '_';
    assert forall k :: |stem| < k < |x| ==> x[k] == d[k - |stem| - 1];
  }

  /** Parsing an id gives back the stem and the index it was built from. */
  lemma ParseFragmentIdInverse(stem: string, i: nat)
    ensures ParseFragmentId(FragmentId(stem, i)) == Some((stem, i))
  {
    var x := FragmentId(stem, i);
    LastUnderscore(stem, i);
    assert x[..|stem|] == stem;
    assert x[|stem| + 1..] == NatToString(i);
    ParseNatToString(i);
  }

  /** Ids built from different stems or different indices differ. */
  lemma FragmentIdsDiffer(s1: string, i1: nat, s2: string, i2: nat)
    requires s1 != s2 || i1 != i2
    ensures FragmentId(s1, i1) != FragmentId(s2, i2)
  {
    ParseFragmentIdInverse(s1, i1);
    ParseFragmentIdInverse(s2, i2);
  }

  /**
   * The fragments of one file: one per chunk of its content, none when the
   * content could not be read or is empty.
   */
  function FileFragments(f: DocFile): (r: seq<Fragment>)
    ensures f.content.None? || f.content.value == [] ==> r == []
    ensures f.content.Some? ==> |r| == ChunkCount(|f.content.value|)
  {
    match f.content
    case None => []
    case Some(c) =>
      if c == [] then []
      else
        var cs := Chunks(c);
        seq(|cs|, (i: int) requires 0 <= i < |cs| =>
          Fragment(FragmentId(Stem(f.name), i), cs[i], Metadata(f.name, i, |cs|)))
  }

  /**
   * Whether the loop reads the file: the chatbot also checks that the
   * lower-cased suffix is ".txt"; the offline indexer reads every listed file.
   */
  predicate Loaded(f: DocFile, checkSuffix: bool) {
    !checkSuffix || Lower(Suffix(f.name)) == ".txt"
  }

  /** The fragments of `files`, file by file, in order. */
  function Catalogue(files: seq<DocFile>, checkSuffix: bool): (cat: seq<Fragment>)
    ensures files == [] ==> cat == []
    ensures |cat| == TotalCount(files, checkSuffix)
  {
    if files == [] then []
    else
      var last := files[|files| - 1];
      Catalogue(files[..|files| - 1], checkSuffix) + (if Loaded(last, checkSuffix) then FileFragments(last) else [])
  }

  /** The fragment count a file contributes: ceil(len / 800) when it is read and has content. */
  function FileCount(f: DocFile, checkSuffix: bool): nat {
    if Loaded(f, checkSuffix) && f.content.Some? then ChunkCount(|f.content.value|) else 0
  }

  function TotalCount(files: seq<DocFile>, checkSuffix: bool): nat {
    if files == [] then 0
    else TotalCount(files[..|files| - 1], checkSuffix) + FileCount(files[|files| - 1], checkSuffix)
  }

  /** The catalogue holds exactly the sum of the per-file chunk counts. */
  lemma {:induction false} CatalogueSize(files: seq<DocFile>, checkSuffix: bool)
    ensures |Catalogue(files, checkSuffix)| == TotalCount(files, checkSuffix)
    decreases |files|
  {
    if files != [] {
      CatalogueSize(files[..|files| - 1], checkSuffix);
    }
  }

  /**
   * Every fragment is chunk `chunk` of a file that was read: its text is that
   * chunk, its source the file's name, `chunk < total_chunks` where the total
   * is the file's chunk count, and its id is the file's stem and the index.
   */
  lemma {:induction false} CatalogueOrigin(files: seq<DocFile>, checkSuffix: bool, k: nat)
    requires k < |Catalogue(files, checkSuffix)|
    ensures exists j :: 0 <= j < |files| && FragmentOf(Catalogue(files, checkSuffix)[k], files[j], checkSuffix)
    decreases |files|
  {
    var init := files[..|files| - 1];
    var last := files[|files| - 1];
    if k < |Catalogue(init, checkSuffix)| {
      CatalogueOrigin(init, checkSuffix, k);
      var j :| 0 <= j < |init| && FragmentOf(Catalogue(init, checkSuffix)[k], init[j], checkSuffix);
      assert init[j] == files[j];
    } else {
      assert FragmentOf(Catalogue(files, checkSuffix)[k], files[|files| - 1], checkSuffix);
    }
  }

  /** Fragment `x` is one of the fragments file `f` contributes. */
  ghost predicate FragmentOf(x: Fragment, f: DocFile, checkSuffix: bool) {
    Loaded(f, checkSuffix) && f.content.Some? && f.content.value != [] &&
    var cs := Chunks(f.content.value);
    x.metadata.source == f.name && x.metadata.totalChunks == |cs| && x.metadata.chunk < |cs| &&
    x.text == cs[x.metadata.chunk] && x.id == FragmentId(Stem(f.name), x.metadata.chunk)
  }

  ghost predicate DistinctIds(cat: seq<Fragment>) {
    forall i, j :: 0 <= i < j < |cat| ==> cat[i].id != cat[j].id
  }

  /** The chatbot's suffix check skips the hidden file ".txt", whose stem would clash. */
  lemma LoadedNotDotTxt(f: DocFile)
    requires Loaded(f, true)
    ensures f.name != ".txt"
  {
    DotTxtSuffix();
    assert |Lower(Suffix(".txt"))| == 0;
  }

  /** Fragments of two different files of the folder have different ids. */
  lemma FileIdsDiffer(f: DocFile, g: DocFile, checkSuffix: bool, x: Fragment, y: Fragment)
    requires FragmentOf(x, f, checkSuffix) && FragmentOf(y, g, checkSuffix)
    requires EndsWith(f.name, ".txt") && EndsWith(g.name, ".txt") && f.name != g.name
    requires checkSuffix || (f.name != ".txt" && g.name != ".txt")
    ensures x.id != y.id
  {
    if checkSuffix {
      LoadedNotDotTxt(f);
      LoadedNotDotTxt(g);
    }
    StemOfTxt(f.name);
    StemOfTxt(g.name);
    FragmentIdsDiffer(Stem(f.name), x.metadata.chunk, Stem(g.name), y.metadata.chunk);
  }

  /** Every fragment of one file is what FragmentOf describes, at its own index. */
  lemma FileFragmentsOf(f: DocFile, checkSuffix: bool, n: nat)
    requires Loaded(f, checkSuffix) && n < |FileFragments(f)|
    ensures FragmentOf(FileFragments(f)[n], f, checkSuffix)
    ensures FileFragments(f)[n].metadata.chunk == n
  {}

  /** A fragment of an earlier file and one of the last file have different ids. */
  lemma CrossIdsDiffer(files: seq<DocFile>, checkSuffix: bool, a: nat, n: nat)
    requires files != [] && DistinctNames(files)
    requires forall f :: f in files ==> EndsWith(f.name, ".txt")
    requires checkSuffix || forall f :: f in files ==> f.name != ".txt"
    requires Loaded(files[|files| - 1], checkSuffix)
    requires a < |Catalogue(files[..|files| - 1], checkSuffix)|
    requires n < |FileFragments(files[|files| - 1])|
    ensures Catalogue(files[..|files| - 1], checkSuffix)[a].id != FileFragments(files[|files| - 1])[n].id
  {
    var init, last := files[..|files| - 1], files[|files| - 1];
    CatalogueOrigin(init, checkSuffix, a);
    var j :| 0 <= j < |init| && FragmentOf(Catalogue(init, checkSuffix)[a], init[j], checkSuffix);
    FileFragmentsOf(last, checkSuffix, n);
    assert init[j] == files[j] && files[j] in files && last in files;
    FileIdsDiffer(init[j], last, checkSuffix, Catalogue(init, checkSuffix)[a], FileFragments(last)[n]);
  }

  lemma AppendDistinctIds(head: seq<Fragment>, tail: seq<Fragment>)
    requires DistinctIds(head) && DistinctIds(tail)
    requires forall a, n :: 0 <= a < |head| && 0 <= n < |tail| ==> head[a].id != tail[n].id
    ensures DistinctIds(head + tail)
  {
    var cat := head + tail;
    forall a, b | 0 <= a < b < |cat| ensures cat[a].id != cat[b].id {
      if b < |head| {
        assert cat[a] == head[a] && cat[b] == head[b];
      } else if a < |head| {
        assert cat[a] == head[a] && cat[b] == tail[b - |head|];
      } else {
        assert cat[a] == tail[a - |head|] && cat[b] == tail[b - |head|];
      }
    }
  }

  /** Within one file, ids differ by their index. */
  lemma FileIdsDistinct(f: DocFile)
    ensures DistinctIds(FileFragments(f))
  {
    var ff := FileFragments(f);
    forall a, b | 0 <= a < b < |ff| ensures ff[a].id != ff[b].id {
      FragmentIdsDiffer(Stem(f.name), a, Stem(f.name), b);
    }
  }

  /**
   * Ids are pairwise distinct when the folder's names are distinct, as long
   * as ".txt" itself is skipped (the chatbot) or absent (the offline indexer).
   */
  lemma {:induction false} CatalogueIdsDistinct(files: seq<DocFile>, checkSuffix: bool)
    requires DistinctNames(files)
    requires forall f :: f in files ==> EndsWith(f.name, ".txt")
    requires checkSuffix || forall f :: f in files ==> f.name != ".txt"
    ensures DistinctIds(Catalogue(files, checkSuffix))
    decreases |files|
  {
    if files != [] {
      var init := files[..|files| - 1];
      var last := files[|files| - 1];
      var head := Catalogue(init, checkSuffix);
      assert forall f :: f in init ==> f in files;
      CatalogueIdsDistinct(init, checkSuffix);
      if Loaded(last, checkSuffix) {
        var tail := FileFragments(last);
        FileIdsDistinct(last);
        forall a, n | 0 <= a < |head| && 0 <= n < |tail| ensures head[a].id != tail[n].id {
          CrossIdsDiffer(files, checkSuffix, a, n);
        }
        AppendDistinctIds(head, tail);
      } else {
        assert Catalogue(files, checkSuffix) == head + [];
      }
    }
  }

  /** With both ".txt" and ".txt.txt" in the folder, the offline indexer hands the store two fragments with one id. */
  lemma DotTxtClash()
    ensures var cat := Catalogue([DocFile(".txt", None, Some("a")), DocFile(".txt.txt", None, Some("b"))], false);
      |cat| == 2 && cat[0].id == cat[1].id
  {
    StemClash();
    var f1, f2 := DocFile(".txt", None, Some("a")), DocFile(".txt.txt", None, Some("b"));
    assert Chunks("a") == ["a"] && Chunks("b") == ["b"];
    assert [f1, f2][..1] == [f1];
    assert [f1][..0] == [];
  }

  /** The three parallel lists spell out the fragments `cat`, position by position. */
  predicate Lists(cat: seq<Fragment>, documents: seq<string>, metadatas: seq<Metadata>, ids: seq<string>) {
    |documents| == |metadatas| == |ids| == |cat|
    && forall k :: 0 <= k < |ids| ==> cat[k] == Fragment(ids[k], documents[k], metadatas[k])
  }

  /** Appending the next fragment of a file to the lists. */
  lemma ListsExtend(done: seq<Fragment>, mine: seq<Fragment>, j: nat,
                    documents: seq<string>, metadatas: seq<Metadata>, ids: seq<string>)
    requires j < |mine|
    requires Lists(done + mine[..j], documents, metadatas, ids)
    ensures Lists(done + mine[..j + 1], documents + [mine[j].text], metadatas + [mine[j].metadata], ids + [mine[j].id])
  {
    assert done + mine[..j + 1] == (done + mine[..j]) + [mine[j]];
  }

  /** One more file extends the catalogue by its own fragments. */
  lemma CatalogueStep(files: seq<DocFile>, checkSuffix: bool, i: nat)
    requires i < |files|
    ensures Catalogue(files[..i + 1], checkSuffix) ==
      Catalogue(files[..i], checkSuffix) + (if Loaded(files[i], checkSuffix) then FileFragments(files[i]) else [])
  {
    assert files[..i + 1][..i] == files[..i];
  }

  /** The catalogue loop, filling the three parallel lists. */
  method BuildCatalogue(files: seq<DocFile>, checkSuffix: bool)
    returns (documents: seq<string>, metadatas: seq<Metadata>, ids: seq<string>)
    ensures |documents| == |metadatas| == |ids| == |Catalogue(files, checkSuffix)|
    ensures forall k :: 0 <= k < |ids| ==>
      Catalogue(files, checkSuffix)[k] == Fragment(ids[k], documents[k], metadatas[k])
  {
    documents, metadatas, ids := [], [], [];
    for i := 0 to |files|
      invariant Lists(Catalogue(files[..i], checkSuffix), documents, metadatas, ids)
    {
      var f := files[i];
      CatalogueStep(files, checkSuffix, i);
      ghost var done := Catalogue(files[..i], checkSuffix);
      if Loaded(f, checkSuffix) && f.content.Some? && f.content.value != [] {
        documents, metadatas, ids := AddFileFragments(f, done, documents, metadatas, ids);
      } else {
        assert done + [] == done;
      }
    }
    assert files[..|files|] == files;
  }

  /** The inner loop over one file's chunks, appending each chunk, its metadata and its identifier. */
  method AddFileFragments(f: DocFile, ghost done: seq<Fragment>,
                          documents: seq<string>, metadatas: seq<Metadata>, ids: seq<string>)
    returns (documentsAfter: seq<string>, metadatasAfter: seq<Metadata>, idsAfter: seq<string>)
    requires f.content.Some? && f.content.value != []
    requires Lists(done, documents, metadatas, ids)
    ensures Lists(done + FileFragments(f), documentsAfter, metadatasAfter, idsAfter)
  {
    documentsAfter, metadatasAfter, idsAfter := documents, metadatas, ids;
    var chunks := ChunkText(f.content.value);
    ghost var mine := FileFragments(f);
    assert done + mine[..0] == done;
    for j := 0 to |chunks|
      invariant Lists(done + mine[..j], documentsAfter, metadatasAfter, idsAfter)
    {
      assert mine[j] == Fragment(FragmentId(Stem(f.name), j), chunks[j], Metadata(f.name, j, |chunks|));
      ListsExtend(done, mine, j, documentsAfter, metadatasAfter, idsAfter);
      documentsAfter := documentsAfter + [chunks[j]];
      metadatasAfter := metadatasAfter + [Metadata(f.name, j, |chunks|)];
      idsAfter := idsAfter + [FragmentId(Stem(f.name), j)];
    }
    assert mine[..|chunks|] == mine;
  }
}
