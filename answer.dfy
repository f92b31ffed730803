/**
 * Answer assembly: the context handed to the LLM is the retrieved fragments
 * joined by blank lines, the user message wraps context and question, and
 * the streamed reply is the concatenation of the chunks that carry text.
 */
module Answer {
  import opened Wrappers
  import opened Text

  /** What separates two fragments in the context. */
  const ContextSeparator: string := "\n\n"

  /** `"\n\n".join(context_docs)`. */
  function ContextOf(docs: seq<string>): (context: string)
    ensures |context| == if docs == [] then 0 else TotalLength(docs) + 2 * (|docs| - 1)
  {
    JoinLength(docs, ContextSeparator);
    Join(docs, ContextSeparator)
  }

  /** Every retrieved fragment appears in the context, followed by a blank line unless it is the last. */
  lemma ContextHoldsFragments(docs: seq<string>, i: nat)
    requires i < |docs|
    ensures Contains(ContextOf(docs), docs[i])
    ensures i + 1 < |docs| ==> Contains(ContextOf(docs), docs[i] + ContextSeparator)
  {
    JoinHolds(docs, ContextSeparator, i);
  }

  /** One more fragment extends the context by a blank line and that fragment. */
  lemma ContextOfAppend(docs: seq<string>, d: string)
    requires docs != []
    ensures ContextOf(docs + [d]) == ContextOf(docs) + ContextSeparator + d
  {
    JoinAppend(docs, d, ContextSeparator);
  }

  const ContextHeader: string := "\n[CONTEXTO]\n"
  const QuestionHeader: string := "\n\n[PREGUNTA]\n"

  /** The user message of `generate_response`: the context section, then the question section. */
  function UserContent(context: string, query: string): (u: string)
    ensures |u| == |ContextHeader| + |context| + |QuestionHeader| + |query| + 1
    ensures u[..|ContextHeader|] == ContextHeader
    ensures u[|ContextHeader|..|ContextHeader| + |context|] == context
    ensures u[|u| - 1 - |query|..] == query + "\n"
  {
    var u := ContextHeader + context + QuestionHeader + query + "\n";
    assert u[|u| - 1 - |query|..] == query + "\n";
    u
  }

  /** The message quotes the context and the question. */
  lemma UserContentQuotes(context: string, query: string)
    ensures Contains(UserContent(context, query), context)
    ensures Contains(UserContent(context, query), query)
  {
    var u := UserContent(context, query);
    ContainsAt(u, context, |ContextHeader|);
    var o := |u| - 1 - |query|;
    assert u[o..o + |query|] == (query + "\n")[..|query|];
    ContainsAt(u, query, o);
  }

  /** What one streamed chunk adds to the reply: its `delta.content`, when truthy. */
  function Piece(delta: Option<string>): string {
    if delta.Some? && delta.value != [] then delta.value else []
  }

  /** The reply built from a whole stream of chunk deltas. */
  function StreamText(deltas: seq<Option<string>>): (text: string)
    ensures deltas != [] && deltas[0].Some? ==> deltas[0].value <= text
  {
    if deltas == [] then [] else Piece(deltas[0]) + StreamText(deltas[1..])
  }

  lemma {:induction false} StreamTextAppend(a: seq<Option<string>>, b: seq<Option<string>>)
    ensures StreamText(a + b) == StreamText(a) + StreamText(b)
  {
    if a == [] {
      assert a + b == b;
    } else {
      assert (a + b)[1..] == a[1..] + b;
      StreamTextAppend(a[1..], b);
    }
  }

  lemma StreamTextSingle(d: Option<string>)
    ensures StreamText([d]) == Piece(d)
  {
    assert [d][1..] == [];
  }

  /** Chunks without text leave the reply unchanged. */
  lemma StreamTextSkipsEmpty(a: seq<Option<string>>, b: seq<Option<string>>, d: Option<string>)
    requires d.None? || d.value == []
    ensures StreamText(a + [d] + b) == StreamText(a + b)
  {
    var ad := a + [d];
    StreamTextSingle(d);
    StreamTextAppend(a, [d]);
    assert StreamText(ad) == StreamText(a);
    StreamTextAppend(ad, b);
    StreamTextAppend(a, b);
  }

  /** A stream whose every chunk carries a string gives the plain concatenation of those strings. */
  lemma {:induction false} StreamTextOfParts(parts: seq<string>)
    ensures StreamText(seq(|parts|, (k: int) requires 0 <= k < |parts| => Some(parts[k]))) == Concat(parts)
  {
    var ds := seq(|parts|, (k: int) requires 0 <= k < |parts| => Some(parts[k]));
    if parts != [] {
      var tail := seq(|parts| - 1, (k: int) requires 0 <= k < |parts| - 1 => Some(parts[1..][k]));
      assert ds[1..] == tail;
      StreamTextOfParts(parts[1..]);
    }
  }

  /**
   * One event of iterating the streamed response: a chunk with its
   * `delta.content`, or the iteration raising (a dropped connection, an API
   * error) before the stream is complete.
   */
  datatype StreamEvent = Chunk(delta: Option<string>) | Failure

  /** The deltas of a stream that completes. */
  function Deltas(events: seq<StreamEvent>): (ds: seq<Option<string>>)
    requires Failure !in events
    ensures |ds| == |events|
    ensures forall k :: 0 <= k < |events| ==> events[k] == Chunk(ds[k])
  {
    var ds := seq(|events|, (k: int) requires 0 <= k < |events| => events[k].delta);
    forall k | 0 <= k < |events| ensures events[k] == Chunk(ds[k]) {
      assert events[k] in events;
    }
    ds
  }

  /**
   * The loop over the streamed response, `full_response += delta` for each
   * truthy delta. The result is what the chat history gains: no response
   * (the request failed) gives the empty reply, and a stream that raises
   * part-way gives None, since the `except` around the loop skips the append.
   */
  method AccumulateStream(response: Option<seq<StreamEvent>>) returns (reply: Option<string>)
    ensures response.None? ==> reply == Some([])
    ensures response.Some? ==> (reply.None? <==> Failure in response.value)
    ensures response.Some? && Failure !in response.value ==> reply == Some(StreamText(Deltas(response.value)))
  {
    var fullResponse := "";
    if response.Some? {
      var events := response.value;
      for i := 0 to |events|
        invariant Failure !in events[..i]
        invariant fullResponse == StreamText(Deltas(events[..i]))
      {
        if events[i].Failure? {
          assert Failure in events;
          return None;
        }
        var content := events[i].delta;
        assert events[..i + 1] == events[..i] + [Chunk(content)];
        assert Deltas(events[..i + 1]) == Deltas(events[..i]) + [content];
        StreamTextAppend(Deltas(events[..i]), [content]);
        StreamTextSingle(content);
        if content.Some? && content.value != [] {
          fullResponse := fullResponse + content.value;
        }
      }
      assert events[..|events|] == events;
    }
    reply := Some(fullResponse);
  }
}
