/**
 * Keyword extraction inside `search`: the terms of the LLM's comma-separated
 * reply, or, when the LLM call fails, the question's own words minus a small
 * stop-word set.
 */
module Keywords {
  import opened Wrappers
  import opened Text

  /** The fallback's stop words. */
  const StopWords: set<string> := {"el", "la", "de", "en", "y", "a", "los", "las", "qué", "es", "un", "una"}

  /** Keeps the non-blank parts, stripped and lower-cased, in order. */
  function KeepTerms(parts: seq<string>): (kws: seq<string>)
    ensures |kws| <= |parts|
  {
    if parts == [] then []
    else (if !IsBlank(parts[0]) then [Lower(Strip(parts[0]))] else []) + KeepTerms(parts[1..])
  }

  /** The keywords read from the LLM's reply. */
  function ParseKeywordReply(reply: string): (kws: seq<string>)
    ensures |kws| <= |SplitOn(Strip(reply), ',')|
  {
    KeepTerms(SplitOn(Strip(reply), ','))
  }

  /** A normalised term: non-empty, no surrounding whitespace and lower-case. */
  predicate IsTerm(kw: string) {
    kw != [] && Strip(kw) == kw && Lower(kw) == kw
  }

  lemma LowerKeepsCommas(s: string)
    requires ',' !in s
    ensures ',' !in Lower(s)
  {
    forall i | 0 <= i < |s| ensures Lower(s)[i] != ',' {
      assert s[i] != ',';
    }
  }

  /** A term made from one part is normalised and has no comma when the part has none. */
  lemma TermOfPart(p: string)
    requires !IsBlank(p)
    ensures IsTerm(Lower(Strip(p)))
    ensures ',' !in p ==> ',' !in Lower(Strip(p))
  {
    LowerStripCommute(p);
    LowerIdempotent(Strip(p));
    StripInside(p);
    if ',' !in p {
      LowerKeepsCommas(Strip(p));
    }
  }

  /** A term is kept exactly when some non-blank part yields it. */
  lemma {:induction false} KeepTermsMembers(parts: seq<string>, kw: string)
    ensures kw in KeepTerms(parts) <==> exists p :: p in parts && !IsBlank(p) && kw == Lower(Strip(p))
  {
    if parts != [] {
      KeepTermsMembers(parts[1..], kw);
      assert forall p :: p in parts <==> p == parts[0] || p in parts[1..];
    }
  }

  /**
   * The reply's keywords are exactly the stripped, lower-cased, non-blank
   * comma-separated pieces of the reply, each normalised and free of commas.
   */
  lemma ParseKeywordReplyTerms(reply: string)
    ensures forall kw :: kw in ParseKeywordReply(reply) <==>
      exists p :: p in SplitOn(Strip(reply), ',') && !IsBlank(p) && kw == Lower(Strip(p))
    ensures forall kw :: kw in ParseKeywordReply(reply) ==> IsTerm(kw) && ',' !in kw
  {
    var parts := SplitOn(Strip(reply), ',');
    SplitOnJoin(Strip(reply), ',');
    forall kw ensures kw in ParseKeywordReply(reply) <==>
      exists p :: p in parts && !IsBlank(p) && kw == Lower(Strip(p)) {
      KeepTermsMembers(parts, kw);
    }
    forall kw | kw in ParseKeywordReply(reply) ensures IsTerm(kw) && ',' !in kw {
      KeepTermsMembers(parts, kw);
      var p :| p in parts && !IsBlank(p) && kw == Lower(Strip(p));
      TermOfPart(p);
    }
  }

  lemma TwoItems<T>(a: T, b: T)
    ensures [a] + [b] == [a, b]
  {}

  lemma FourItems<T>(a: T, b: T, c: T, d: T)
    ensures [a] + ([b] + ([c] + [d])) == [a, b, c, d]
  {}

  lemma StripPair(a: string, b: string)
    requires IsTerm(a) && IsTerm(b)
    ensures Strip(a + ", " + b) == a + ", " + b
  {
    var r := a + ", " + b;
    assert r[0] == a[0] && r[|r| - 1] == b[|b| - 1];
    StripOfTrimmed(r);
  }

  lemma SplitPair(a: string, b: string)
    requires ',' !in a && ',' !in b
    ensures SplitOn(a + ", " + b, ',') == [a, " " + b]
  {
    assert a + ", " + b == a + [','] + (" " + b);
    assert ',' !in " " + b;
    SplitOnNone(" " + b, ',');
    SplitOnCons(a, ',', " " + b);
  }

  lemma StripSpaced(b: string)
    requires IsTerm(b)
    ensures Strip(" " + b) == b
  {
    assert " " + b == [' '] + b;
    TrimStartSpace(' ', b);
    StripOfTrimmed(b);
  }

  lemma KeepPair(a: string, b: string)
    requires IsTerm(a) && IsTerm(b)
    ensures KeepTerms([a, " " + b]) == [a, b]
  {
    StripSpaced(b);
    var parts := [a, " " + b];
    assert !IsBlank(parts[0]) && Lower(Strip(parts[0])) == a;
    assert !IsBlank(parts[1]) && Lower(Strip(parts[1])) == b;
    assert parts[1..] == [" " + b];
    assert KeepTerms(parts[1..]) == [b] + KeepTerms([]) == [b];
    assert KeepTerms(parts) == [a] + KeepTerms(parts[1..]);
    TwoItems(a, b);
  }

  /** A reply of two terms separated by a comma and a space, as the prompt asks for, gives those two terms. */
  lemma ParseTwoTerms(a: string, b: string)
    requires IsTerm(a) && IsTerm(b) && ',' !in a && ',' !in b
    ensures ParseKeywordReply(a + ", " + b) == [a, b]
  {
    StripPair(a, b);
    SplitPair(a, b);
    KeepPair(a, b);
  }

  /** Lower-case ASCII letters only. */
  predicate Letters(w: string) {
    forall i :: 0 <= i < |w| ==> 'a' <= w[i] <= 'z'
  }

  /** A non-empty run of lower-case letters is a term without commas. */
  lemma LettersTerm(w: string)
    requires w != [] && Letters(w)
    ensures IsTerm(w) && ',' !in w
  {
    assert !IsSpace(w[0]) && !IsSpace(w[|w| - 1]);
    StripOfTrimmed(w);
    assert forall i :: 0 <= i < |w| ==> Lower(w)[i] == w[i];
    assert Lower(w) == w;
    assert forall i :: 0 <= i < |w| ==> w[i] != ',';
  }

  /** A reply in the prompt's own format. */
  lemma ParseKeywordReplyExample(reply: string)
    requires reply == "tratado, maastricht"
    ensures ParseKeywordReply(reply) == ["tratado", "maastricht"]
  {
    var a, b := "tratado", "maastricht";
    assert reply == a + ", " + b;
    LettersTerm(a);
    LettersTerm(b);
    ParseTwoTerms(a, b);
  }

  /** Keeps the lower-cased words that are not stop words and are longer than two characters. */
  function KeepWords(words: seq<string>): (kws: seq<string>)
    ensures |kws| <= |words|
  {
    if words == [] then []
    else (if Lower(words[0]) !in StopWords && |words[0]| > 2 then [Lower(words[0])] else []) + KeepWords(words[1..])
  }

  /** The fallback keywords: filtered whitespace-separated words of the question. */
  function FallbackKeywords(query: string): (kws: seq<string>)
    ensures |kws| <= |Words(query)|
  {
    KeepWords(Words(query))
  }

  lemma {:induction false} KeepWordsMembers(words: seq<string>, kw: string)
    ensures kw in KeepWords(words) <==> exists w :: w in words && kw == Lower(w) && kw !in StopWords && |w| > 2
  {
    if words != [] {
      KeepWordsMembers(words[1..], kw);
      assert forall w :: w in words <==> w == words[0] || w in words[1..];
    }
  }

  /**
   * A fallback keyword is a lower-cased word of the question that is not a
   * stop word and has more than two characters, and each such word is kept;
   * every keyword is a normalised term without inner whitespace.
   */
  lemma FallbackKeywordsTerms(query: string)
    ensures forall kw :: kw in FallbackKeywords(query) <==>
      exists w :: w in Words(query) && kw == Lower(w) && kw !in StopWords && |w| > 2
    ensures forall kw :: kw in FallbackKeywords(query) ==> IsTerm(kw) && NoSpace(kw) && |kw| > 2
  {
    WordsAreWords(query);
    forall kw ensures kw in FallbackKeywords(query) <==>
      exists w :: w in Words(query) && kw == Lower(w) && kw !in StopWords && |w| > 2 {
      KeepWordsMembers(Words(query), kw);
    }
    forall kw | kw in FallbackKeywords(query) ensures IsTerm(kw) && NoSpace(kw) && |kw| > 2 {
      KeepWordsMembers(Words(query), kw);
      var w :| w in Words(query) && kw == Lower(w) && kw !in StopWords && |w| > 2;
      LowerWord(w);
    }
  }

  /** A lower-cased word is a normalised term without whitespace. */
  lemma LowerWord(w: string)
    requires w != [] && NoSpace(w)
    ensures IsTerm(Lower(w)) && NoSpace(Lower(w)) && |Lower(w)| == |w|
  {
    LowerKeepsSpaces(w);
    LowerIdempotent(w);
    StripOfTrimmed(Lower(w));
  }

  /** Printable ASCII and Latin-1 characters other than the spaces. */
  predicate Visible(w: string) {
    forall i :: 0 <= i < |w| ==> '!' <= w[i] <= '~' || '\U{A1}' <= w[i] <= '\U{FF}'
  }

  lemma VisibleNoSpace(w: string)
    requires Visible(w)
    ensures NoSpace(w)
  {}

  lemma QuestionExampleWords(query: string)
    requires query == "¿Qué es el Mercosur?"
    ensures Words(query) == ["¿Qué", "es", "el", "Mercosur?"]
  {
    var a, b, c, d := "¿Qué", "es", "el", "Mercosur?";
    assert query == a + " " + (b + " " + (c + " " + d));
    VisibleNoSpace(a);
    VisibleNoSpace(b);
    VisibleNoSpace(c);
    VisibleNoSpace(d);
    FourWords(a, b, c, d);
  }

  /** Four words joined by single spaces split back into those four words. */
  lemma FourWords(a: string, b: string, c: string, d: string)
    requires a != [] && NoSpace(a) && b != [] && NoSpace(b)
    requires c != [] && NoSpace(c) && d != [] && NoSpace(d)
    ensures Words(a + " " + (b + " " + (c + " " + d))) == [a, b, c, d]
  {
    WordsOfWord(d);
    WordsOfSpaced(c, d);
    WordsOfSpaced(b, c + " " + d);
    WordsOfSpaced(a, b + " " + (c + " " + d));
    FourItems(a, b, c, d);
  }

  /**
   * An example question: punctuation is not removed and "¿qué" is not the
   * stop word "qué", so two keywords remain.
   */
  lemma FallbackKeywordsExample(query: string)
    requires query == "¿Qué es el Mercosur?"
    ensures FallbackKeywords(query) == ["¿qué", "mercosur?"]
  {
    QuestionExampleWords(query);
    var ws := ["¿Qué", "es", "el", "Mercosur?"];
    assert Lower(ws[0]) == "¿qué";
    assert Lower(ws[1]) == "es" && Lower(ws[2]) == "el";
    assert Lower(ws[3]) == "mercosur?";
    assert KeepWords(ws[3..]) == ["mercosur?"] + KeepWords([]);
    assert KeepWords(ws[2..]) == KeepWords(ws[3..]);
    assert KeepWords(ws[1..]) == KeepWords(ws[2..]);
    TwoItems("¿qué", "mercosur?");
  }

  /**
   * The keywords of a question: the parsed reply when the LLM answered
   * (`reply` present), the fallback when the call or the reply failed.
   */
  function ExtractKeywords(query: string, reply: Option<string>): (kws: seq<string>)
    ensures reply.Some? ==> kws == ParseKeywordReply(reply.value)
    ensures reply.None? ==> kws == FallbackKeywords(query)
  {
    match reply
    case Some(r) => ParseKeywordReply(r)
    case None => FallbackKeywords(query)
  }

  /** Whichever path produced them, keywords are normalised terms. */
  lemma ExtractKeywordsTerms(query: string, reply: Option<string>)
    ensures forall kw :: kw in ExtractKeywords(query, reply) ==> IsTerm(kw)
  {
    if reply.Some? {
      ParseKeywordReplyTerms(reply.value);
    } else {
      FallbackKeywordsTerms(query);
    }
  }
}
