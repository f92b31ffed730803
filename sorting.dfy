/**
 * Python's `sorted(xs, key=...)` on string keys: a stable insertion sort,
 * with the facts the callers need (ordered, a permutation, and the only
 * ordered permutation when keys identify elements).
 */
module Sorting {
  import opened Text

  /** Keys ascend (non-strictly) along `s`. */
  ghost predicate SortedBy<T>(s: seq<T>, key: T -> string) {
    forall i, j :: 0 <= i < j < |s| ==> LexLe(key(s[i]), key(s[j]))
  }

  /** No two elements of `s` that differ share a key. */
  ghost predicate KeysIdentify<T>(s: seq<T>, key: T -> string) {
    forall x, y :: x in s && y in s && key(x) == key(y) ==> x == y
  }

  /** Prepending an element no larger than the head keeps a sequence ordered. */
  lemma ConsSorted<T>(x: T, s: seq<T>, key: T -> string)
    requires SortedBy(s, key)
    requires s != [] ==> LexLe(key(x), key(s[0]))
    ensures SortedBy([x] + s, key)
  {
    var r := [x] + s;
    forall i, j | 0 <= i < j < |r| ensures LexLe(key(r[i]), key(r[j])) {
      if i == 0 && j > 1 {
        LexLeTransitive(key(x), key(s[0]), key(s[j - 1]));
      }
    }
  }

  /** Inserts `x` in front of the first element whose key is not smaller. */
  function InsertBy<T>(x: T, s: seq<T>, key: T -> string): (r: seq<T>)
    ensures multiset(r) == multiset(s) + multiset{x}
    ensures forall y :: y in r ==> y == x || y in s
    ensures SortedBy(s, key) ==> SortedBy(r, key)
  {
    if s == [] then [x]
    else if LexLe(key(x), key(s[0])) then
      assert SortedBy(s, key) ==> SortedBy([x] + s, key) by {
        if SortedBy(s, key) {
          ConsSorted(x, s, key);
        }
      }
      [x] + s
    else
      var rest := InsertBy(x, s[1..], key);
      assert s == [s[0]] + s[1..];
      assert SortedBy(s, key) ==> SortedBy([s[0]] + rest, key) by {
        if SortedBy(s, key) {
          assert SortedBy(s[1..], key);
          assert rest[0] in rest;
          if rest[0] == x {
            LexLeTotal(key(x), key(s[0]));
          } else {
            assert rest[0] in s[1..];
          }
          ConsSorted(s[0], rest, key);
        }
      }
      [s[0]] + rest
  }

  /** Python's `sorted(s, key=key)`. */
  function SortBy<T>(s: seq<T>, key: T -> string): (r: seq<T>)
    ensures multiset(r) == multiset(s)
    ensures |r| == |s|
    ensures SortedBy(r, key)
  {
    if s == [] then []
    else
      assert s == [s[0]] + s[1..];
      InsertBy(s[0], SortBy(s[1..], key), key)
  }

  /** `sorted` of plain strings. */
  function SortStrings(s: seq<string>): (r: seq<string>)
    ensures multiset(r) == multiset(s)
    ensures |r| == |s|
    ensures SortedBy(r, x => x)
  {
    SortBy(s, x => x)
  }

  lemma MultisetTail<T>(s: seq<T>)
    requires s != []
    ensures multiset(s[1..]) == multiset(s) - multiset{s[0]}
  {
    assert s == [s[0]] + s[1..];
  }

  /** Ordered sequences with the same elements start with the same element. */
  lemma SortedHeads<T>(s: seq<T>, t: seq<T>, key: T -> string)
    requires s != [] && t != []
    requires SortedBy(s, key) && SortedBy(t, key)
    requires multiset(s) == multiset(t)
    requires KeysIdentify(s, key)
    ensures s[0] == t[0]
  {
    assert s[0] in multiset(t) && t[0] in multiset(s);
    var k :| 0 <= k < |t| && t[k] == s[0];
    var m :| 0 <= m < |s| && s[m] == t[0];
    if k > 0 && m > 0 {
      assert LexLe(key(t[0]), key(t[k]));
      assert LexLe(key(s[0]), key(s[m]));
      LexLeAntisymmetric(key(s[0]), key(t[0]));
      assert t[0] in s;
    }
  }

  lemma SortedTail<T>(s: seq<T>, key: T -> string)
    requires s != [] && SortedBy(s, key)
    ensures SortedBy(s[1..], key)
  {
    forall i, j | 0 <= i < j < |s| - 1 ensures LexLe(key(s[1..][i]), key(s[1..][j])) {
      assert s[1..][i] == s[i + 1] && s[1..][j] == s[j + 1];
    }
  }

  lemma KeysIdentifyTail<T>(s: seq<T>, key: T -> string)
    requires s != [] && KeysIdentify(s, key)
    ensures KeysIdentify(s[1..], key)
  {
    forall x, y | x in s[1..] && y in s[1..] && key(x) == key(y) ensures x == y {
      assert x in s && y in s;
    }
  }

  /** Sequences with the same elements, one of them empty, are both empty. */
  lemma SameElementsEmpty<T>(s: seq<T>, t: seq<T>)
    requires multiset(s) == multiset(t)
    ensures s == [] <==> t == []
  {
    assert |s| == |multiset(s)| && |t| == |multiset(t)|;
  }

  /** Equal heads and equal multisets leave equal multisets of the tails. */
  lemma SameElementsTails<T>(s: seq<T>, t: seq<T>)
    requires s != [] && t != [] && s[0] == t[0]
    requires multiset(s) == multiset(t)
    ensures multiset(s[1..]) == multiset(t[1..])
  {
    MultisetTail(s);
    MultisetTail(t);
  }

  lemma ConsEqual<T>(s: seq<T>, t: seq<T>)
    requires s != [] && t != [] && s[0] == t[0] && s[1..] == t[1..]
    ensures s == t
  {
    assert s == [s[0]] + s[1..] && t == [t[0]] + t[1..];
  }

  /**
   * Two key-ordered sequences with the same elements are equal when keys
   * identify elements: so `sorted` does not depend on the input order.
   */
  lemma {:induction false} SortedUnique<T>(s: seq<T>, t: seq<T>, key: T -> string)
    requires SortedBy(s, key) && SortedBy(t, key)
    requires multiset(s) == multiset(t)
    requires KeysIdentify(s, key)
    ensures s == t
    decreases |s|
  {
    SameElementsEmpty(s, t);
    if s != [] {
      SortedHeads(s, t, key);
      SameElementsTails(s, t);
      SortedTail(s, key);
      SortedTail(t, key);
      KeysIdentifyTail(s, key);
      SortedUnique(s[1..], t[1..], key);
      ConsEqual(s, t);
    }
  }

  lemma SortByUnique<T>(a: seq<T>, b: seq<T>, key: T -> string)
    requires multiset(a) == multiset(b)
    requires KeysIdentify(a, key)
    ensures SortBy(a, key) == SortBy(b, key)
  {
    var sa, sb := SortBy(a, key), SortBy(b, key);
    forall x, y | x in sa && y in sa && key(x) == key(y) ensures x == y {
      assert x in multiset(a) && y in multiset(a);
    }
    SortedUnique(sa, sb, key);
  }
}
