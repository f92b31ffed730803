/**
 * The documents folder as the indexer sees it: its entries, `glob("*.txt")`,
 * and the `name`, `stem` and `suffix` of a `pathlib.Path`.
 */
module Corpus {
  import opened Wrappers
  import opened Text

  /** What `Path.stat()` reports: `st_size` and `st_mtime` as Python renders it with `str`. */
  datatype Stat = Stat(size: nat, mtime: string)

  /**
   * One entry of the documents folder. `stat` is None when `stat()` raises and
   * `content` is None when reading it as UTF-8 fails.
   */
  datatype DocFile = DocFile(name: string, stat: Option<Stat>, content: Option<string>)

  predicate EndsWith(s: string, suffix: string) {
    |suffix| <= |s| && s[|s| - |suffix|..] == suffix
  }

  /** `folder.glob("*.txt")`: the entries whose name ends in ".txt", in listing order. */
  function GlobTxt(entries: seq<DocFile>): (r: seq<DocFile>)
    ensures |r| <= |entries|
  {
    if entries == [] then []
    else (if EndsWith(entries[0].name, ".txt") then [entries[0]] else []) + GlobTxt(entries[1..])
  }

  /** The listing holds exactly the entries whose name ends in ".txt". */
  lemma {:induction false} GlobTxtMembers(entries: seq<DocFile>)
    ensures forall f :: f in GlobTxt(entries) <==> f in entries && EndsWith(f.name, ".txt")
  {
    if entries != [] {
      GlobTxtMembers(entries[1..]);
      assert forall f :: f in entries <==> f == entries[0] || f in entries[1..];
    }
  }

  /** The entries of one folder have pairwise distinct names. */
  ghost predicate DistinctNames(files: seq<DocFile>) {
    forall i, j :: 0 <= i < j < |files| ==> files[i].name != files[j].name
  }

  lemma {:induction false} GlobTxtDistinct(entries: seq<DocFile>)
    requires DistinctNames(entries)
    ensures DistinctNames(GlobTxt(entries))
  {
    if entries != [] {
      GlobTxtDistinct(entries[1..]);
      GlobTxtMembers(entries[1..]);
      var rest := GlobTxt(entries[1..]);
      forall k | 0 <= k < |rest| ensures rest[k].name != entries[0].name {
        assert rest[k] in entries[1..];
      }
    }
  }

  /** Python's `s.rfind(c)`: the last index holding `c`, or -1. */
  function RFind(s: string, c: char): (i: int)
    ensures -1 <= i < |s|
    ensures i >= 0 ==> s[i] == c
    ensures forall k :: i < k < |s| ==> s[k] != c
  {
    if s == [] then -1
    else if s[|s| - 1] == c then |s| - 1
    else RFind(s[..|s| - 1], c)
  }

  /** `Path(name).suffix`: from the last dot, unless that dot opens or ends the name. */
  function Suffix(name: string): (suffix: string)
    ensures |suffix| <= |name| && suffix == name[|name| - |suffix|..]
    ensures suffix != [] ==> suffix[0] == '.' && |suffix| >= 2 && '.' !in suffix[1..]
  {
    var i := RFind(name, '.');
    if 0 < i < |name| - 1 then name[i..] else []
  }

  /** `Path(name).stem`: the name without its suffix. */
  function Stem(name: string): (stem: string)
    ensures stem + Suffix(name) == name
  {
    var i := RFind(name, '.');
    if 0 < i < |name| - 1 then name[..i] else name
  }

  /** A ".txt" name other than ".txt" itself has suffix ".txt" and the rest as stem. */
  lemma StemOfTxt(name: string)
    requires EndsWith(name, ".txt") && name != ".txt"
    ensures Suffix(name) == ".txt"
    ensures Stem(name) + ".txt" == name
  {
    var n := |name|;
    assert name[n - 4..] == ".txt";
    assert name[n - 4] == '.' && name[n - 3] == 't' && name[n - 2] == 'x' && name[n - 1] == 't';
    assert RFind(name, '.') == n - 4 by {
      assert name[..n - 1][..n - 2][..n - 3] == name[..n - 3];
    }
    assert name == name[..n - 4] + name[n - 4..];
  }

  /** The hidden file ".txt" has no suffix: pathlib treats its dot as part of the stem. */
  lemma DotTxtSuffix()
    ensures Suffix(".txt") == [] && Stem(".txt") == ".txt"
  {
    assert RFind(".txt", '.') == 0 by {
      assert ".txt"[..3] == ".tx" && ".tx"[..2] == ".t" && ".t"[..1] == ".";
    }
  }

  /** Among ".txt" files other than ".txt" itself, stems identify names. */
  lemma StemInjective(a: string, b: string)
    requires EndsWith(a, ".txt") && a != ".txt"
    requires EndsWith(b, ".txt") && b != ".txt"
    requires Stem(a) == Stem(b)
    ensures a == b
  {
    StemOfTxt(a);
    StemOfTxt(b);
  }

  /** ".txt" and ".txt.txt" share the stem ".txt". */
  lemma StemClash()
    ensures Stem(".txt") == Stem(".txt.txt") == ".txt"
  {
    DotTxtSuffix();
    StemOfTxt(".txt.txt");
    assert ".txt.txt" == ".txt" + ".txt";
  }
}
