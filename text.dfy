/**
 * The Python string operations the chatbot, the indexer and the OCR
 * scripts rely on, written out over `seq<char>`: `str.isspace`, `strip`,
 * `lower`, `in` (substring), `split(c)`, `split()`, `join`, slicing with
 * clamped bounds, `str(int)` and the code-point ordering that `sorted`
 * uses on strings.
 */
module Text {

  function Min(a: int, b: int): int { if a <= b then a else b }

  function Max(a: int, b: int): int { if a <= b then b else a }

  /** Python's `str.isspace()` for a single character. */
  predicate IsSpace(c: char) {
    c == ' ' || ('\t' <= c <= '\r') || ('\U{1C}' <= c <= '\U{1F}')
    || c == '\U{85}' || c == '\U{A0}' || c == '\U{1680}'
    || ('\U{2000}' <= c <= '\U{200A}') || c == '\U{2028}' || c == '\U{2029}'
    || c == '\U{202F}' || c == '\U{205F}' || c == '\U{3000}'
  }

  predicate NoSpace(s: string) {
    forall i :: 0 <= i < |s| ==> !IsSpace(s[i])
  }

  /** `s[lo:hi]` with Python's clamping of out-of-range bounds. */
  function PySlice(s: string, lo: nat, hi: nat): (r: string)
    ensures lo <= hi <= |s| ==> r == s[lo..hi]
    ensures lo <= |s| <= hi ==> r == s[lo..]
    ensures |s| <= lo ==> r == []
  {
    var l := Min(lo, |s|);
    var h := Min(hi, |s|);
    if l <= h then s[l..h] else []
  }

  /** The first position at or after `k` that is not whitespace, or the length. */
  function SkipSpaces(s: string, k: nat): (n: nat)
    requires k <= |s|
    ensures k <= n <= |s|
    ensures forall i :: k <= i < n ==> IsSpace(s[i])
    ensures n < |s| ==> !IsSpace(s[n])
    decreases |s| - k
  {
    if k < |s| && IsSpace(s[k]) then SkipSpaces(s, k + 1) else k
  }

  /** The position just after the last non-space character before `k`, or 0. */
  function SkipSpacesBack(s: string, k: nat): (n: nat)
    requires k <= |s|
    ensures n <= k
    ensures forall i :: n <= i < k ==> IsSpace(s[i])
    ensures n > 0 ==> !IsSpace(s[n - 1])
    decreases k
  {
    if k > 0 && IsSpace(s[k - 1]) then SkipSpacesBack(s, k - 1) else k
  }

  /** A run of whitespace from `k` that ends at `m` ends where SkipSpaces says. */
  lemma {:induction false} SkipSpacesAt(s: string, k: nat, m: nat)
    requires k <= m <= |s|
    requires forall i :: k <= i < m ==> IsSpace(s[i])
    requires m < |s| ==> !IsSpace(s[m])
    ensures SkipSpaces(s, k) == m
    decreases m - k
  {
    if k < m {
      SkipSpacesAt(s, k + 1, m);
    }
  }

  /** A run of whitespace from `m` up to `k` starts where SkipSpacesBack says. */
  lemma {:induction false} SkipSpacesBackAt(s: string, k: nat, m: nat)
    requires m <= k <= |s|
    requires forall i :: m <= i < k ==> IsSpace(s[i])
    requires m > 0 ==> !IsSpace(s[m - 1])
    ensures SkipSpacesBack(s, k) == m
    decreases k - m
  {
    if m < k {
      SkipSpacesBackAt(s, k - 1, m);
    }
  }

  /** Drops leading whitespace (`lstrip`). */
  function TrimStart(s: string): (r: string)
    ensures r == [] || !IsSpace(r[0])
  {
    s[SkipSpaces(s, 0)..]
  }

  /** Drops trailing whitespace (`rstrip`). */
  function TrimEnd(s: string): (r: string)
    ensures r == [] || !IsSpace(r[|r| - 1])
  {
    s[..SkipSpacesBack(s, |s|)]
  }

  /** Python's `str.strip()`. */
  function Strip(s: string): (r: string)
    ensures r == [] <==> forall i :: 0 <= i < |s| ==> IsSpace(s[i])
    ensures r != [] ==> !IsSpace(r[0]) && !IsSpace(r[|r| - 1])
    ensures |r| <= |s|
  {
    var n := SkipSpaces(s, 0);
    var t := s[n..];
    var m := SkipSpacesBack(t, |t|);
    assert forall i :: 0 <= i < |t| ==> t[i] == s[n + i];
    assert m == 0 ==> forall i :: 0 <= i < |s| ==> IsSpace(s[i]);
    assert n < |s| ==> !IsSpace(t[0]) && m > 0;
    TrimEnd(TrimStart(s))
  }

  /** A string that does not start with whitespace is its own `lstrip`. */
  lemma {:induction false} TrimStartOfNonSpace(s: string)
    requires s == [] || !IsSpace(s[0])
    ensures TrimStart(s) == s
  {
    SkipSpacesAt(s, 0, 0);
    assert s[0..] == s;
  }

  /** A string that does not end with whitespace is its own `rstrip`. */
  lemma {:induction false} TrimEndOfNonSpace(s: string)
    requires s == [] || !IsSpace(s[|s| - 1])
    ensures TrimEnd(s) == s
  {
    SkipSpacesBackAt(s, |s|, |s|);
    assert s[..|s|] == s;
  }

  /** A leading whitespace character is dropped by `lstrip`. */
  lemma {:induction false} TrimStartSpace(c: char, t: string)
    requires IsSpace(c)
    ensures TrimStart([c] + t) == TrimStart(t)
  {
    var s := [c] + t;
    var n := SkipSpaces(t, 0);
    assert forall i :: 1 <= i < |s| ==> s[i] == t[i - 1];
    SkipSpacesAt(s, 0, n + 1);
    assert s[n + 1..] == t[n..];
  }

  /** Python truthiness of `s.strip()`: false exactly for all-whitespace text. */
  predicate IsBlank(s: string) {
    Strip(s) == []
  }

  /** A string that starts and ends with a non-space character is its own strip. */
  lemma {:induction false} StripOfTrimmed(s: string)
    requires s == [] || (!IsSpace(s[0]) && !IsSpace(s[|s| - 1]))
    ensures Strip(s) == s
  {
    TrimStartOfNonSpace(s);
    TrimEndOfNonSpace(s);
  }

  /** Stripping only removes characters. */
  lemma {:induction false} StripInside(s: string)
    ensures forall c :: c in Strip(s) ==> c in s
  {
    forall c | c in Strip(s) ensures c in s {
      var k :| 0 <= k < |Strip(s)| && Strip(s)[k] == c;
      StripCharAt(s, k);
    }
  }

  /** The characters of `Strip(s)` sit in `s` after the leading whitespace. */
  lemma {:induction false} StripCharAt(s: string, k: nat)
    requires k < |Strip(s)|
    ensures SkipSpaces(s, 0) + k < |s|
    ensures Strip(s)[k] == s[SkipSpaces(s, 0) + k]
  {
    var n := SkipSpaces(s, 0);
    var t := TrimStart(s);
    assert t == s[n..];
    assert Strip(s) == TrimEnd(t);
    assert TrimEnd(t)[k] == t[k];
  }

  lemma {:induction false} StripIdempotent(s: string)
    ensures Strip(Strip(s)) == Strip(s)
  {
    StripOfTrimmed(Strip(s));
  }

  /**
   * Python's `str.lower()` on one character, for the ASCII and Latin-1
   * letters: A-Z and U+00C0..U+00DE except the multiplication sign U+00D7
   * move up by 32; every other character is returned as it is.
   */
  function LowerChar(c: char): char {
    if 'A' <= c <= 'Z' || ('\U{C0}' <= c <= '\U{DE}' && c != '\U{D7}')
    then (c as int + 32) as char
    else c
  }

  /** Python's `str.lower()` (same letters as LowerChar). */
  function Lower(s: string): (r: string)
    ensures |r| == |s|
    ensures forall i :: 0 <= i < |s| ==> r[i] == LowerChar(s[i])
  {
    seq(|s|, i requires 0 <= i < |s| => LowerChar(s[i]))
  }

  lemma LowerCharIdempotent(c: char)
    ensures LowerChar(LowerChar(c)) == LowerChar(c)
  {}

  lemma {:induction false} LowerIdempotent(s: string)
    ensures Lower(Lower(s)) == Lower(s)
  {
    forall i | 0 <= i < |s| ensures Lower(Lower(s))[i] == Lower(s)[i] {
      LowerCharIdempotent(s[i]);
    }
  }

  /** Lower-casing never turns a space into a letter or back. */
  lemma {:induction false} LowerKeepsSpaces(s: string)
    ensures forall i :: 0 <= i < |s| ==> (IsSpace(Lower(s)[i]) <==> IsSpace(s[i]))
  {}

  /** Lower-casing commutes with stripping. */
  lemma {:induction false} LowerStripCommute(s: string)
    ensures Strip(Lower(s)) == Lower(Strip(s))
    ensures Strip(Lower(Strip(s))) == Lower(Strip(s))
  {
    var t := Strip(s);
    LowerKeepsSpaces(t);
    StripOfTrimmed(Lower(t));
    LowerTrimStart(s);
    LowerTrimEnd(TrimStart(s));
  }

  lemma LowerCharKeepsSpace(c: char)
    ensures IsSpace(LowerChar(c)) <==> IsSpace(c)
  {}

  lemma {:induction false} LowerTrimStart(s: string)
    ensures TrimStart(Lower(s)) == Lower(TrimStart(s))
  {
    var n := SkipSpaces(s, 0);
    LowerKeepsSpaces(s);
    SkipSpacesAt(Lower(s), 0, n);
    assert Lower(s)[n..] == Lower(s[n..]);
  }

  lemma {:induction false} LowerTrimEnd(s: string)
    ensures TrimEnd(Lower(s)) == Lower(TrimEnd(s))
  {
    var m := SkipSpacesBack(s, |s|);
    LowerKeepsSpaces(s);
    SkipSpacesBackAt(Lower(s), |s|, m);
    assert Lower(s)[..m] == Lower(s[..m]);
  }

  /** Python's `needle in hay` on strings. */
  predicate Contains(hay: string, needle: string)
    decreases |hay|
  {
    needle <= hay || (hay != [] && Contains(hay[1..], needle))
  }

  /** A slice of `hay` that equals `needle` witnesses `needle in hay`. */
  lemma {:induction false} ContainsAt(hay: string, needle: string, i: nat)
    requires i + |needle| <= |hay| && hay[i..i + |needle|] == needle
    ensures Contains(hay, needle)
    decreases i
  {
    if i > 0 {
      assert hay[1..][i - 1..i - 1 + |needle|] == needle;
      ContainsAt(hay[1..], needle, i - 1);
    } else {
      assert needle <= hay;
    }
  }

  /** Python's `sep.join(parts)`. */
  function Join(parts: seq<string>, sep: string): string {
    if |parts| == 0 then []
    else if |parts| == 1 then parts[0]
    else parts[0] + sep + Join(parts[1..], sep)
  }

  lemma {:induction false} JoinAppend(parts: seq<string>, x: string, sep: string)
    ensures Join(parts + [x], sep) == if parts == [] then x else Join(parts, sep) + sep + x
    decreases |parts|
  {
    if |parts| >= 2 {
      assert (parts + [x])[1..] == parts[1..] + [x];
      JoinAppend(parts[1..], x, sep);
    } else if |parts| == 1 {
      assert (parts + [x])[1..] == [x];
    }
  }

  /** Offset at which `parts[i]` starts in `Join(parts, sep)`. */
  function JoinOffset(parts: seq<string>, sep: string, i: nat): nat
    requires i <= |parts|
  {
    if i == 0 then 0 else |parts[0]| + |sep| + JoinOffset(parts[1..], sep, i - 1)
  }

  /** The total length of the parts. */
  function TotalLength(parts: seq<string>): nat {
    if parts == [] then 0 else |parts[0]| + TotalLength(parts[1..])
  }

  lemma {:induction false} JoinLength(parts: seq<string>, sep: string)
    ensures |Join(parts, sep)| == if parts == [] then 0 else TotalLength(parts) + (|parts| - 1) * |sep|
    decreases |parts|
  {
    if |parts| >= 2 {
      JoinLength(parts[1..], sep);
    }
  }

  /** `parts[i]` stands at offset JoinOffset(parts, sep, i) of the joined string. */
  lemma {:induction false} JoinPartAt(parts: seq<string>, sep: string, i: nat)
    requires i < |parts|
    ensures JoinOffset(parts, sep, i) + |parts[i]| <= |Join(parts, sep)|
    ensures Join(parts, sep)[JoinOffset(parts, sep, i)..JoinOffset(parts, sep, i) + |parts[i]|] == parts[i]
    decreases i
  {
    if i > 0 {
      var tail := parts[1..];
      JoinPartAt(tail, sep, i - 1);
      var o := JoinOffset(tail, sep, i - 1);
      var head := |parts[0]| + |sep|;
      assert Join(parts, sep) == parts[0] + sep + Join(tail, sep);
      assert tail[i - 1] == parts[i];
      assert Join(parts, sep)[head + o..head + o + |parts[i]|] == Join(tail, sep)[o..o + |parts[i]|];
    }
  }

  /** The separator stands right after `parts[i]` whenever another part follows. */
  lemma {:induction false} JoinSeparatorAt(parts: seq<string>, sep: string, i: nat)
    requires i + 1 < |parts|
    ensures JoinOffset(parts, sep, i) + |parts[i]| + |sep| == JoinOffset(parts, sep, i + 1)
    ensures JoinOffset(parts, sep, i + 1) <= |Join(parts, sep)|
    ensures Join(parts, sep)[JoinOffset(parts, sep, i) + |parts[i]|..JoinOffset(parts, sep, i + 1)] == sep
    decreases i
  {
    var tail := parts[1..];
    assert Join(parts, sep) == parts[0] + sep + Join(tail, sep);
    if i > 0 {
      JoinSeparatorAt(tail, sep, i - 1);
      var o := JoinOffset(tail, sep, i - 1);
      var head := |parts[0]| + |sep|;
      assert tail[i - 1] == parts[i];
      assert Join(parts, sep)[head + o + |parts[i]|..head + JoinOffset(tail, sep, i)]
          == Join(tail, sep)[o + |parts[i]|..JoinOffset(tail, sep, i)];
    } else {
      assert JoinOffset(parts, sep, 1) == |parts[0]| + |sep| + JoinOffset(tail, sep, 0);
    }
  }

  /** Every part appears in the joined string, followed by the separator unless it is the last. */
  lemma JoinHolds(parts: seq<string>, sep: string, i: nat)
    requires i < |parts|
    ensures Contains(Join(parts, sep), parts[i])
    ensures i + 1 < |parts| ==> Contains(Join(parts, sep), parts[i] + sep)
  {
    var c := Join(parts, sep);
    var o := JoinOffset(parts, sep, i);
    JoinPartAt(parts, sep, i);
    ContainsAt(c, parts[i], o);
    if i + 1 < |parts| {
      JoinSeparatorAt(parts, sep, i);
      var e := o + |parts[i]|;
      assert c[o..e + |sep|] == c[o..e] + c[e..e + |sep|];
      ContainsAt(c, parts[i] + sep, o);
    }
  }

  /** A non-empty join starts with the first part. */
  lemma JoinStart(parts: seq<string>, sep: string)
    requires parts != [] && parts[0] != []
    ensures Join(parts, sep) != [] && Join(parts, sep)[0] == parts[0][0]
  {
    JoinPartAt(parts, sep, 0);
    assert Join(parts, sep)[0..|parts[0]|] == parts[0];
  }

  /** Python's `s.split(c)` for a single-character separator. */
  function SplitOn(s: string, c: char): (parts: seq<string>)
    ensures |parts| >= 1
    decreases |s|
  {
    if s == [] then [[]]
    else if s[0] == c then [[]] + SplitOn(s[1..], c)
    else
      var rest := SplitOn(s[1..], c);
      [[s[0]] + rest[0]] + rest[1..]
  }

  /** Splitting on `c` yields pieces free of `c` that join back to the input. */
  lemma SplitOnJoin(s: string, c: char)
    ensures Join(SplitOn(s, c), [c]) == s
    ensures forall p :: p in SplitOn(s, c) ==> c !in p
  {
    SplitOnJoinBack(s, c);
    SplitOnPieces(s, c);
  }

  lemma {:induction false} SplitOnJoinBack(s: string, c: char)
    ensures Join(SplitOn(s, c), [c]) == s
    decreases |s|
  {
    if s != [] {
      var rest := SplitOn(s[1..], c);
      SplitOnJoinBack(s[1..], c);
      assert s == [s[0]] + s[1..];
      if s[0] == c {
        assert SplitOn(s, c)[1..] == rest;
      } else {
        var parts := SplitOn(s, c);
        assert parts[1..] == rest[1..];
        if |rest| == 1 {
          assert Join(rest, [c]) == rest[0];
        } else {
          assert rest == [rest[0]] + rest[1..];
          assert Join(rest, [c]) == rest[0] + [c] + Join(rest[1..], [c]);
        }
      }
    }
  }

  lemma {:induction false} SplitOnPieces(s: string, c: char)
    ensures forall p :: p in SplitOn(s, c) ==> c !in p
    decreases |s|
  {
    if s != [] {
      var rest := SplitOn(s[1..], c);
      SplitOnPieces(s[1..], c);
      if s[0] != c {
        var parts := SplitOn(s, c);
        assert parts == [[s[0]] + rest[0]] + rest[1..];
        forall p | p in parts ensures c !in p {
          if p == parts[0] {
            assert rest[0] in rest;
          } else {
            assert p in rest[1..];
          }
        }
      }
    }
  }

  /** A piece without the separator, then the separator. */
  lemma {:induction false} SplitOnCons(w: string, c: char, rest: string)
    requires c !in w
    ensures SplitOn(w + [c] + rest, c) == [w] + SplitOn(rest, c)
    decreases |w|
  {
    if w == [] {
      assert ([c] + rest)[1..] == rest;
    } else {
      assert (w + [c] + rest)[1..] == w[1..] + [c] + rest;
      SplitOnCons(w[1..], c, rest);
      assert [w[0]] + w[1..] == w;
    }
  }

  /** A string without the separator is a single piece. */
  lemma {:induction false} SplitOnNone(w: string, c: char)
    requires c !in w
    ensures SplitOn(w, c) == [w]
    decreases |w|
  {
    if w != [] {
      SplitOnNone(w[1..], c);
      assert [w[0]] + w[1..] == w;
    }
  }

  /** The longest space-free prefix of `s`. */
  function WordPrefix(s: string): (w: string)
    ensures |w| <= |s| && w == s[..|w|]
    ensures NoSpace(w)
    ensures |w| < |s| ==> IsSpace(s[|w|])
    ensures s != [] && !IsSpace(s[0]) ==> |w| >= 1
  {
    s[..WordEnd(s, 0)]
  }

  /** The first whitespace position at or after `k`, or the length. */
  function WordEnd(s: string, k: nat): (n: nat)
    requires k <= |s|
    ensures k <= n <= |s|
    ensures forall i :: k <= i < n ==> !IsSpace(s[i])
    ensures n < |s| ==> IsSpace(s[n])
    decreases |s| - k
  {
    if k < |s| && !IsSpace(s[k]) then WordEnd(s, k + 1) else k
  }

  /** Python's `s.split()`: maximal runs of non-space characters. */
  function Words(s: string): (ws: seq<string>)
    ensures |ws| <= |s|
    decreases |s|, 1
  {
    WordsFrom(TrimStart(s))
  }

  /** The words of a string that does not start with whitespace. */
  function WordsFrom(t: string): (ws: seq<string>)
    requires t == [] || !IsSpace(t[0])
    ensures |ws| <= |t|
    decreases |t|, 0
  {
    if t == [] then []
    else
      var w := WordPrefix(t);
      [w] + Words(t[|w|..])
  }

  /** `s` with every whitespace character removed. */
  function RemoveSpaces(s: string): string {
    if s == [] then [] else (if IsSpace(s[0]) then [] else [s[0]]) + RemoveSpaces(s[1..])
  }

  /** The concatenation of all parts. */
  function Concat(parts: seq<string>): string {
    if parts == [] then [] else parts[0] + Concat(parts[1..])
  }

  lemma {:induction false} RemoveSpacesAppend(a: string, b: string)
    ensures RemoveSpaces(a + b) == RemoveSpaces(a) + RemoveSpaces(b)
    decreases |a|
  {
    if a != [] {
      assert (a + b)[1..] == a[1..] + b;
      RemoveSpacesAppend(a[1..], b);
    } else {
      assert a + b == b;
    }
  }

  lemma {:induction false} RemoveSpacesOfWord(s: string)
    requires NoSpace(s)
    ensures RemoveSpaces(s) == s
    decreases |s|
  {
    if s != [] {
      RemoveSpacesOfWord(s[1..]);
      assert s == [s[0]] + s[1..];
    }
  }

  /** `split()` yields non-empty, space-free words. */
  lemma {:induction false} WordsAreWords(s: string)
    ensures forall w :: w in Words(s) ==> w != [] && NoSpace(w)
    decreases |s|, 1
  {
    WordsFromAreWords(TrimStart(s));
  }

  lemma {:induction false} WordsFromAreWords(t: string)
    requires t == [] || !IsSpace(t[0])
    ensures forall w :: w in WordsFrom(t) ==> w != [] && NoSpace(w)
    decreases |t|, 0
  {
    if t != [] {
      var w := WordPrefix(t);
      var rest := Words(t[|w|..]);
      WordsAreWords(t[|w|..]);
      assert WordsFrom(t) == [w] + rest;
      assert w != [] && NoSpace(w);
      forall x | x in [w] + rest ensures x != [] && NoSpace(x) {
        if x != w {
          assert x in rest;
        }
      }
    }
  }

  lemma {:induction false} RemoveSpacesSkip(s: string, k: nat)
    requires k <= |s|
    ensures RemoveSpaces(s[SkipSpaces(s, k)..]) == RemoveSpaces(s[k..])
    decreases |s| - k
  {
    if k < |s| && IsSpace(s[k]) {
      assert s[k..][1..] == s[k + 1..];
      RemoveSpacesSkip(s, k + 1);
    }
  }

  lemma {:induction false} RemoveSpacesTrimStart(s: string)
    ensures RemoveSpaces(TrimStart(s)) == RemoveSpaces(s)
  {
    RemoveSpacesSkip(s, 0);
    assert s[0..] == s;
  }

  lemma {:induction false} RemoveSpacesWordPrefix(t: string)
    ensures RemoveSpaces(t) == WordPrefix(t) + RemoveSpaces(t[|WordPrefix(t)|..])
  {
    var w := WordPrefix(t);
    assert t == w + t[|w|..];
    RemoveSpacesAppend(w, t[|w|..]);
    RemoveSpacesOfWord(w);
  }

  /** The words of `split()`, concatenated, are the input with its whitespace removed. */
  lemma {:induction false} WordsConcat(s: string)
    ensures Concat(Words(s)) == RemoveSpaces(s)
    decreases |s|
  {
    var t := TrimStart(s);
    RemoveSpacesTrimStart(s);
    assert Words(s) == WordsFrom(t);
    if t != [] {
      var w := WordPrefix(t);
      var rest := t[|w|..];
      WordsConcat(rest);
      RemoveSpacesWordPrefix(t);
      assert Words(s) == [w] + Words(rest);
      assert Words(s)[1..] == Words(rest);
    }
  }

  /** Any position bounding a run of non-space characters from `k` is the word end. */
  lemma {:induction false} WordEndAt(s: string, k: nat, m: nat)
    requires k <= m <= |s|
    requires forall i :: k <= i < m ==> !IsSpace(s[i])
    requires m < |s| ==> IsSpace(s[m])
    ensures WordEnd(s, k) == m
    decreases m - k
  {
    if k < m {
      WordEndAt(s, k + 1, m);
    }
  }

  lemma {:induction false} WordPrefixOf(w: string, rest: string)
    requires NoSpace(w)
    requires rest == [] || IsSpace(rest[0])
    ensures WordPrefix(w + rest) == w
  {
    var s := w + rest;
    assert forall i :: 0 <= i < |w| ==> s[i] == w[i];
    assert |w| < |s| ==> s[|w|] == rest[0];
    WordEndAt(s, 0, |w|);
    assert s[..|w|] == w;
  }

  /** `split()` of a word followed by whitespace or the end. */
  lemma {:induction false} WordsCons(w: string, rest: string)
    requires w != [] && NoSpace(w)
    requires rest == [] || IsSpace(rest[0])
    ensures Words(w + rest) == [w] + Words(rest)
  {
    WordPrefixOf(w, rest);
    TrimStartOfNonSpace(w + rest);
    assert (w + rest)[|w|..] == rest;
    assert Words(w + rest) == WordsFrom(w + rest);
  }

  /** Leading whitespace does not change the words. */
  lemma {:induction false} WordsSpace(c: char, t: string)
    requires IsSpace(c)
    ensures Words([c] + t) == Words(t)
  {
    TrimStartSpace(c, t);
    assert Words([c] + t) == WordsFrom(TrimStart(t));
  }

  /** A word, one space, and the rest: the word comes first. */
  lemma {:induction false} WordsOfSpaced(a: string, rest: string)
    requires a != [] && NoSpace(a)
    ensures Words(a + " " + rest) == [a] + Words(rest)
  {
    assert a + " " + rest == a + (" " + rest);
    assert [' '] + rest == " " + rest;
    WordsCons(a, " " + rest);
    WordsSpace(' ', rest);
  }

  /** A single word. */
  lemma {:induction false} WordsOfWord(a: string)
    requires a != [] && NoSpace(a)
    ensures Words(a) == [a]
  {
    WordsCons(a, "");
    assert a + "" == a;
  }

  /** A decimal digit character. */
  function DigitChar(d: nat): char
    requires d < 10
  {
    ('0' as int + d) as char
  }

  predicate IsDigits(s: string) {
    forall i :: 0 <= i < |s| ==> '0' <= s[i] <= '9'
  }

  /** Python's `str(n)` for a non-negative integer. */
  function NatToString(n: nat): (s: string)
    ensures |s| >= 1 && IsDigits(s)
  {
    if n < 10 then [DigitChar(n)] else NatToString(n / 10) + [DigitChar(n % 10)]
  }

  /** Reads a string of decimal digits back as a number. */
  function ParseNat(s: string): nat
    requires IsDigits(s)
  {
    if s == [] then 0 else ParseNat(s[..|s| - 1]) * 10 + (s[|s| - 1] as int - '0' as int)
  }

  lemma {:induction false} ParseNatToString(n: nat)
    ensures ParseNat(NatToString(n)) == n
  {
    if n >= 10 {
      var s := NatToString(n);
      ParseNatToString(n / 10);
      assert s[..|s| - 1] == NatToString(n / 10);
      assert s[|s| - 1] as int - '0' as int == n % 10;
      assert ParseNat(s) == (n / 10) * 10 + n % 10;
    }
  }

  /** Distinct numbers have distinct decimal renderings. */
  lemma {:induction false} NatToStringInjective(a: nat, b: nat)
    requires NatToString(a) == NatToString(b)
    ensures a == b
  {
    ParseNatToString(a);
    ParseNatToString(b);
  }

  /** Python's `a <= b` on strings: lexicographic by code point. */
  predicate LexLe(a: string, b: string) {
    a == [] || (b != [] && (a[0] < b[0] || (a[0] == b[0] && LexLe(a[1..], b[1..]))))
  }

  lemma {:induction false} LexLeTotal(a: string, b: string)
    ensures LexLe(a, b) || LexLe(b, a)
  {
    if a != [] && b != [] && a[0] == b[0] {
      LexLeTotal(a[1..], b[1..]);
    }
  }

  lemma {:induction false} LexLeTransitive(a: string, b: string, c: string)
    requires LexLe(a, b) && LexLe(b, c)
    ensures LexLe(a, c)
  {
    if a != [] && b != [] && c != [] && a[0] == b[0] == c[0] {
      LexLeTransitive(a[1..], b[1..], c[1..]);
    }
  }

  lemma {:induction false} LexLeAntisymmetric(a: string, b: string)
    requires LexLe(a, b) && LexLe(b, a)
    ensures a == b
  {
    if a != [] && b != [] {
      LexLeAntisymmetric(a[1..], b[1..]);
      assert a == [a[0]] + a[1..] && b == [b[0]] + b[1..];
    }
  }
}
