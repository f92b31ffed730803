/**
 * The corpus fingerprint (`get_documents_hash`) and the stored-fingerprint
 * comparison (`documents_changed`). The MD5 digest is an uninterpreted
 * function `md5` from the pre-image string to its hex digest.
 */
module Fingerprint {
  import opened Wrappers
  import opened Text
  import opened Sorting
  import opened Corpus

  /** One entry of `file_info`: name, size and mtime joined by underscores. */
  function Render(name: string, st: Stat): string {
    name + "_" + NatToString(st.size) + "_" + st.mtime
  }

  /** The renderings of `files` in order; None as soon as one `stat()` fails. */
  function Renders(files: seq<DocFile>): (r: Option<seq<string>>)
    ensures r.Some? <==> forall f :: f in files ==> f.stat.Some?
    ensures r.Some? ==> |r.value| == |files|
    ensures r.Some? ==> forall i :: 0 <= i < |files| ==> r.value[i] == Render(files[i].name, files[i].stat.value)
  {
    if files == [] then Some([])
    else
      var last := files[|files| - 1];
      var init := files[..|files| - 1];
      assert forall f :: f in files <==> f in init || f == last;
      match Renders(init)
      case None => None
      case Some(rs) =>
        match last.stat
        case None => None
        case Some(st) => Some(rs + [Render(last.name, st)])
  }

  function ByName(f: DocFile): string {
    f.name
  }

  /** `sorted(folder.glob("*.txt"))`: the text files in ascending name order. */
  function SortedTxt(entries: seq<DocFile>): (r: seq<DocFile>)
    ensures multiset(r) == multiset(GlobTxt(entries))
    ensures SortedBy(r, ByName)
  {
    SortBy(GlobTxt(entries), ByName)
  }

  /** The string handed to the digest: the sorted renderings joined by "|". */
  function PreImage(entries: seq<DocFile>): (p: Option<string>)
    ensures p.None? <==> Renders(SortedTxt(entries)).None?
  {
    match Renders(SortedTxt(entries))
    case None => None
    case Some(rs) => Some(Join(rs, "|"))
  }

  /** `get_documents_hash`: None for a missing folder or when any `stat()` fails. */
  function CorpusFingerprint(folder: Option<seq<DocFile>>, md5: string -> string): (h: Option<string>)
    ensures folder.None? ==> h.None?
    ensures h.Some? ==> PreImage(folder.value).Some? && h.value == md5(PreImage(folder.value).value)
  {
    match folder
    case None => None
    case Some(entries) =>
      match PreImage(entries)
      case None => None
      case Some(p) => Some(md5(p))
  }

  /** `get_documents_hash` as the loop that fills `file_info`. */
  method DocumentsHash(folder: Option<seq<DocFile>>, md5: string -> string) returns (h: Option<string>)
    ensures h == CorpusFingerprint(folder, md5)
  {
    if folder.None? {
      return None;
    }
    var files := SortBy(GlobTxt(folder.value), ByName);
    var fileInfo: seq<string> := [];
    for i := 0 to |files|
      invariant |fileInfo| == i
      invariant forall k :: 0 <= k < i ==> files[k].stat.Some? && fileInfo[k] == Render(files[k].name, files[k].stat.value)
    {
      var st := files[i].stat;
      if st.None? {
        assert files[i] in files;
        return None;
      }
      fileInfo := fileInfo + [Render(files[i].name, st.value)];
    }
    forall f | f in files ensures f.stat.Some? {
      var k :| 0 <= k < |files| && files[k] == f;
    }
    assert Renders(files).value == fileInfo;
    var infoStr := Join(fileInfo, "|");
    h := Some(md5(infoStr));
  }

  lemma SortedTxtMembers(entries: seq<DocFile>)
    ensures forall f :: f in SortedTxt(entries) <==> f in entries && EndsWith(f.name, ".txt")
  {
    var fs := SortedTxt(entries);
    GlobTxtMembers(entries);
    forall f ensures f in fs <==> f in entries && EndsWith(f.name, ".txt") {
      assert f in fs <==> f in multiset(fs);
      assert f in GlobTxt(entries) <==> f in multiset(GlobTxt(entries));
    }
  }

  lemma RendersAbsent(fs: seq<DocFile>)
    ensures Renders(fs).None? <==> exists f :: f in fs && f.stat.None?
  {}

  /** The fingerprint is absent exactly when the folder is missing or some text file cannot be stat'ed. */
  lemma FingerprintAbsent(folder: Option<seq<DocFile>>, md5: string -> string)
    ensures CorpusFingerprint(folder, md5).None? <==>
      folder.None? || exists f :: f in folder.value && EndsWith(f.name, ".txt") && f.stat.None?
  {
    if folder.Some? {
      var fs := SortedTxt(folder.value);
      SortedTxtMembers(folder.value);
      RendersAbsent(fs);
      assert PreImage(folder.value).None? <==> Renders(fs).None?;
    }
  }

  lemma {:induction false} GlobTxtCount(s: seq<DocFile>, x: DocFile)
    ensures multiset(GlobTxt(s))[x] == if EndsWith(x.name, ".txt") then multiset(s)[x] else 0
  {
    if s != [] {
      GlobTxtCount(s[1..], x);
      assert s == [s[0]] + s[1..];
    }
  }

  /** Listings with the same entries give the same text files up to order. */
  lemma GlobTxtPermutation(a: seq<DocFile>, b: seq<DocFile>)
    requires multiset(a) == multiset(b)
    ensures multiset(GlobTxt(a)) == multiset(GlobTxt(b))
  {
    forall x ensures multiset(GlobTxt(a))[x] == multiset(GlobTxt(b))[x] {
      GlobTxtCount(a, x);
      GlobTxtCount(b, x);
    }
  }

  /** Names identify the text files of a folder. */
  lemma GlobTxtKeysIdentify(a: seq<DocFile>)
    requires DistinctNames(a)
    ensures KeysIdentify(GlobTxt(a), ByName)
  {
    var ga := GlobTxt(a);
    GlobTxtMembers(a);
    forall x, y | x in ga && y in ga && ByName(x) == ByName(y) ensures x == y {
      var i :| 0 <= i < |a| && a[i] == x;
      var j :| 0 <= j < |a| && a[j] == y;
      assert i == j;
    }
  }

  /** The sorted listing does not depend on the order of the folder's entries. */
  lemma SortedTxtOrderIndependent(a: seq<DocFile>, b: seq<DocFile>)
    requires multiset(a) == multiset(b)
    requires DistinctNames(a)
    ensures SortedTxt(a) == SortedTxt(b)
  {
    GlobTxtPermutation(a, b);
    GlobTxtKeysIdentify(a);
    SortByUnique(GlobTxt(a), GlobTxt(b), ByName);
  }

  /**
   * The fingerprint does not depend on the order in which the folder lists
   * its entries: files are sorted by name, and names are unique in a folder.
   */
  lemma FingerprintOrderIndependent(a: seq<DocFile>, b: seq<DocFile>, md5: string -> string)
    requires multiset(a) == multiset(b)
    requires DistinctNames(a)
    ensures CorpusFingerprint(Some(a), md5) == CorpusFingerprint(Some(b), md5)
  {
    SortedTxtOrderIndependent(a, b);
    assert PreImage(a) == PreImage(b);
  }

  /** The stored fingerprint file: its content, or None when the file does not exist. */
  class HashFile {
    var content: Option<string>

    constructor (content: Option<string>)
      ensures this.content == content
    {
      this.content := content;
    }
  }

  /** What `documents_changed` compares against: the stored content, stripped. */
  function SavedHash(stored: Option<string>): Option<string> {
    match stored
    case None => None
    case Some(s) => Some(Strip(s))
  }

  /** Python truthiness of an optional string. */
  predicate Truthy(h: Option<string>) {
    h.Some? && h.value != []
  }

  datatype CheckResult = CheckResult(changed: bool, stored: Option<string>)

  /**
   * The intended check-and-update: report whether the current fingerprint
   * differs from the saved one, and persist the current one when it is truthy.
   */
  function ChangeCheck(current: Option<string>, stored: Option<string>): (r: CheckResult)
    ensures r.changed <==> current != SavedHash(stored)
    ensures Truthy(current) ==> r.stored == current
    ensures !Truthy(current) ==> r.stored == stored
  {
    CheckResult(current != SavedHash(stored), if Truthy(current) then current else stored)
  }

  /**
   * `documents_changed` as written: `self.doc_hash_file` does not exist, so
   * the first use raises, the bare `except` answers True, and nothing is written.
   */
  function ChangeCheckAsWritten(current: Option<string>, stored: Option<string>): (r: CheckResult)
    ensures r.changed && r.stored == stored
  {
    CheckResult(true, stored)
  }

  /**
   * Once the check has persisted a digest (non-empty, no surrounding
   * whitespace), a second check on the unchanged corpus reports no change.
   */
  lemma ChangeCheckSettles(h: string, stored: Option<string>)
    requires h != [] && !IsSpace(h[0]) && !IsSpace(h[|h| - 1])
    ensures ChangeCheck(Some(h), ChangeCheck(Some(h), stored).stored) == CheckResult(false, Some(h))
  {
    StripOfTrimmed(h);
  }

  /** With no digest and no stored file the check reports no change; with a stored file it always reports a change. */
  lemma ChangeCheckWithoutDigest(stored: Option<string>)
    ensures ChangeCheck(None, stored) == CheckResult(stored.Some?, stored)
  {}

  /** The stored digest matching the corpus: as written the answer is still "changed". */
  lemma ChangeCheckAsWrittenDiffers()
    ensures ChangeCheckAsWritten(Some("abc"), Some("abc")).changed
    ensures !ChangeCheck(Some("abc"), Some("abc")).changed
  {
    StripOfTrimmed("abc");
  }

  /**
   * Whether the intended check raises: reading an existing file fails, or
   * writing a truthy fingerprint fails. Either lands in the bare `except`.
   */
  predicate CheckRaises(current: Option<string>, stored: Option<string>, readFails: bool, writeFails: bool) {
    (stored.Some? && readFails) || (Truthy(current) && writeFails)
  }

  /**
   * The intended check including its `except`: when reading or writing the
   * file raises, the answer is True and the file keeps its content (a write
   * is refused when the file cannot be opened for writing).
   */
  function GuardedCheck(current: Option<string>, stored: Option<string>, readFails: bool, writeFails: bool): (r: CheckResult)
    ensures CheckRaises(current, stored, readFails, writeFails) ==> r == CheckResult(true, stored)
    ensures !CheckRaises(current, stored, readFails, writeFails) ==> r == ChangeCheck(current, stored)
  {
    if CheckRaises(current, stored, readFails, writeFails) then CheckResult(true, stored) else ChangeCheck(current, stored)
  }

  /**
   * A failure never hides a change: the guarded check reports "unchanged"
   * only when no file operation failed and the stored digest matches.
   */
  lemma GuardedCheckUnchanged(current: Option<string>, stored: Option<string>, readFails: bool, writeFails: bool)
    ensures !GuardedCheck(current, stored, readFails, writeFails).changed <==>
      !CheckRaises(current, stored, readFails, writeFails) && current == SavedHash(stored)
  {}

  /**
   * `documents_changed` on a stored file, with the intended behaviour:
   * `readFails`/`writeFails` say whether opening the file for reading or
   * for writing raises.
   */
  method CheckAndUpdate(file: HashFile, current: Option<string>, readFails: bool, writeFails: bool) returns (changed: bool)
    modifies file
    ensures CheckResult(changed, file.content) == GuardedCheck(current, old(file.content), readFails, writeFails)
  {
    var saved: Option<string>;
    if file.content.Some? {
      if readFails {
        return true;
      }
      saved := Some(Strip(file.content.value));
    } else {
      saved := None;
    }
    if current.Some? && current.value != [] {
      if writeFails {
        return true;
      }
      file.content := current;
    }
    changed := current != saved;
  }
}
