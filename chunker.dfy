/**
 * The sliding-window chunker shared by the chatbot (`RAGSystem.chunk_text`)
 * and the offline indexer (`chunk_text`): windows of 1000 characters whose
 * start moves on by 800, so consecutive windows share 200 characters.
 */
module Chunker {
  import opened Text

  const ChunkSize: nat := 1000
  const Overlap: nat := 200
  /** How far the window start advances: `chunk_size - overlap`. */
  const Step: nat := 800

  /** ceil(len / 800): one chunk per window start below `len`. */
  function ChunkCount(len: nat): nat {
    (len + Step - 1) / Step
  }

  lemma ChunkCountBound(len: nat, i: nat)
    ensures i < ChunkCount(len) <==> Step * i < len
  {}

  /** The closed form: chunk i is `text[800*i : 800*i + 1000]`. */
  function Chunks(text: string): (cs: seq<string>)
    ensures |cs| == ChunkCount(|text|)
  {
    seq(ChunkCount(|text|), (i: int) requires 0 <= i => PySlice(text, Step * i, Step * i + ChunkSize))
  }

  /** `chunk_text`: the `while start < len(text)` loop. */
  method ChunkText(text: string) returns (chunks: seq<string>)
    ensures chunks == Chunks(text)
  {
    chunks := [];
    var start := 0;
    var textLength := |text|;
    while start < textLength
      invariant start == Step * |chunks|
      invariant |chunks| <= ChunkCount(|text|)
      invariant chunks == Chunks(text)[..|chunks|]
    {
      ChunkCountBound(|text|, |chunks|);
      var end := start + ChunkSize;
      var chunk := PySlice(text, start, end);
      chunks := chunks + [chunk];
      start := start + (ChunkSize - Overlap);
    }
    ChunkCountBound(|text|, |chunks|);
  }

  /** Every chunk is non-empty and at most 1000 characters; all but the last exceed 800. */
  lemma ChunkShape(text: string)
    ensures forall i :: 0 <= i < |Chunks(text)| ==> 0 < |Chunks(text)[i]| <= ChunkSize
    ensures forall i :: 0 <= i < |Chunks(text)| - 1 ==> |Chunks(text)[i]| > Step
    ensures text == [] <==> Chunks(text) == []
  {
    var cs := Chunks(text);
    forall i | 0 <= i < |cs| ensures 0 < |cs[i]| <= ChunkSize {
      ChunkCountBound(|text|, i);
    }
    forall i | 0 <= i < |cs| - 1 ensures |cs[i]| > Step {
      ChunkCountBound(|text|, i + 1);
    }
  }

  /** Consecutive chunks overlap: what follows offset 800 in one chunk opens the next. */
  lemma ChunkOverlap(text: string, i: nat)
    requires i + 1 < |Chunks(text)|
    ensures Step <= |Chunks(text)[i]|
    ensures Chunks(text)[i][Step..] == PySlice(Chunks(text)[i + 1], 0, Overlap)
  {
    ChunkCountBound(|text|, i + 1);
    var a := Step * i;
    var b := Min(a + ChunkSize, |text|);
    assert Chunks(text)[i] == text[a..b];
    var c := Min(a + Step + ChunkSize, |text|);
    assert Chunks(text)[i + 1] == text[a + Step..c];
    assert text[a..b][Step..] == text[a + Step..b];
  }

  /** Removing the first 800 characters shifts the chunks by one. */
  lemma ChunksTail(text: string)
    requires |text| > Step
    ensures Chunks(text) == [PySlice(text, 0, ChunkSize)] + Chunks(text[Step..])
  {
    var cs, rest := Chunks(text), Chunks(text[Step..]);
    assert |cs| == |rest| + 1;
    forall i | 0 <= i < |rest| ensures cs[i + 1] == rest[i] {
      ChunkCountBound(|text| - Step, i);
      var lo := Step * i;
      var hi := Min(lo + ChunkSize, |text| - Step);
      assert rest[i] == text[Step..][lo..hi];
      assert cs[i + 1] == text[Step + lo..Step + hi];
    }
  }

  /** Keeps the first 800 characters of every chunk but the last, then the whole last chunk. */
  function Reassemble(cs: seq<string>): string {
    if |cs| == 0 then []
    else if |cs| == 1 then cs[0]
    else PySlice(cs[0], 0, Step) + Reassemble(cs[1..])
  }

  /** The chunks rebuild the text exactly. */
  lemma {:induction false} ReassembleChunks(text: string)
    ensures Reassemble(Chunks(text)) == text
    decreases |text|
  {
    if |text| == 0 {
    } else if |text| <= Step {
      assert Chunks(text) == [text];
    } else {
      ChunksTail(text);
      ReassembleChunks(text[Step..]);
      var cs := Chunks(text);
      assert cs[1..] == Chunks(text[Step..]);
      assert |cs| >= 2;
      assert PySlice(cs[0], 0, Step) == text[..Step];
      assert text == text[..Step] + text[Step..];
    }
  }

  /** The last chunk adds nothing: it is exactly the overlap tail of its predecessor. */
  predicate RedundantLastChunk(cs: seq<string>) {
    |cs| >= 2 && Step <= |cs[|cs| - 2]| && cs[|cs| - 1] == cs[|cs| - 2][Step..]
  }

  /** The last chunk lies wholly inside its predecessor exactly when len > 800 and 0 < len % 800 <= 200. */
  lemma RedundantLastChunkIff(text: string)
    ensures RedundantLastChunk(Chunks(text)) <==> |text| > Step && 0 < |text| % Step <= Overlap
  {
    var cs := Chunks(text);
    var n := |cs|;
    if n >= 2 {
      ChunkOverlap(text, n - 2);
      ChunkCountBound(|text|, n - 1);
      ChunkCountBound(|text|, n);
      var last := Step * (n - 1);
      assert cs[n - 1] == text[last..];
      assert |cs[n - 2][Step..]| == Min(Overlap, |text| - last);
      assert |text| - last == (if |text| % Step == 0 then Step else |text| % Step);
    } else {
      ChunkCountBound(|text|, 1);
    }
  }
}
