/**
 * The multi-topic OCR script `ocr_txt_mejorado`: for each topic prefix,
 * select the images that mention it, OCR them (FASE 1), consolidate the
 * temporary folder's text files that mention the topic (FASE 2) and write
 * the topic's output file (FASE 3); then treat every image no topic selected
 * as the "apuntes" topic, consolidating the text files named after those
 * images.
 */
module OcrMejorado {
  import opened Wrappers
  import opened Text
  import opened Sorting
  import opened Corpus
  import opened OcrBatch

  /** The topics (`PREFIJOS`), in processing order. */
  const Prefixes: seq<string> := ["tratado", "interaccionismo"]

  /** A reply must be longer than this after stripping to be written. */
  const MinLength: nat := 5

  /** The topic of the images no prefix selected. */
  const Uncategorised: string := "apuntes"

  /** The output file of a topic, in the output folder. */
  function OutputName(topic: string): string {
    topic + ".txt"
  }

  /**
   * What the script has changed so far: the temporary folder, the output
   * folder (file name to content) and `prefijos_procesados`.
   */
  datatype State = State(temp: seq<TextFile>, libros: map<string, string>, procesados: set<string>)

  /** Writing the output file when there is content for it. */
  function Save(libros: map<string, string>, name: string, output: Option<string>): map<string, string> {
    if output.Some? then libros[name := output.value] else libros
  }

  /** Saving one output file leaves every other file of the output folder as it was. */
  lemma SaveKeepsOthers(libros: map<string, string>, file: string, output: Option<string>, name: string)
    requires name != file
    ensures var r := Save(libros, file, output);
      (name in r <==> name in libros) && (name in libros ==> r[name] == libros[name])
  {}

  function Elements(s: seq<string>): set<string> {
    set x | x in s
  }

  // ---------------------------------------------------------------------
  // One topic
  // ---------------------------------------------------------------------

  /** The text files whose name mentions the topic, in their order. */
  function Mentioning(files: seq<TextFile>, prefix: string): (r: seq<TextFile>)
    ensures |r| <= |files|
  {
    if files == [] then []
    else
      var last := files[|files| - 1];
      Mentioning(files[..|files| - 1], prefix) + (if Mentions(last.name, prefix) then [last] else [])
  }

  lemma {:induction false} MentioningMembers(files: seq<TextFile>, prefix: string)
    ensures forall f :: f in Mentioning(files, prefix) <==> f in files && Mentions(f.name, prefix)
  {
    if files != [] {
      var init := files[..|files| - 1];
      MentioningMembers(init, prefix);
      assert files == init + [files[|files| - 1]];
    }
  }

  /** Filtering a sorted listing keeps it sorted. */
  lemma {:induction false} MentioningSorted(files: seq<TextFile>, prefix: string)
    requires SortedBy(files, FileName)
    ensures SortedBy(Mentioning(files, prefix), FileName)
  {
    if files != [] {
      var init := files[..|files| - 1];
      var last := files[|files| - 1];
      assert SortedBy(init, FileName);
      MentioningSorted(init, prefix);
      MentioningMembers(init, prefix);
      var m := Mentioning(init, prefix);
      if Mentions(last.name, prefix) {
        var r := m + [last];
        forall i, j | 0 <= i < j < |r| ensures LexLe(FileName(r[i]), FileName(r[j])) {
          if j == |m| {
            assert r[i] in init;
            var k :| 0 <= k < |init| && init[k] == r[i];
            assert files[k] == r[i];
          } else {
            assert r[i] == m[i] && r[j] == m[j];
          }
        }
      }
    }
  }

  /** FASE 2 of a topic: `sorted(glob("*.txt"))` filtered by the topic. */
  function TopicFiles(temp: seq<TextFile>, prefix: string): seq<TextFile> {
    Mentioning(TxtListing(temp), prefix)
  }

  /** The topic's files are sorted and are exactly the visible `.txt` files that mention it. */
  lemma TopicFilesMembers(temp: seq<TextFile>, prefix: string)
    ensures SortedBy(TopicFiles(temp, prefix), FileName)
    ensures forall f :: f in TopicFiles(temp, prefix) <==> f in temp && Globbed(f.name, ".txt") && Mentions(f.name, prefix)
  {
    TxtListingMembers(temp);
    MentioningMembers(TxtListing(temp), prefix);
    MentioningSorted(TxtListing(temp), prefix);
  }

  /** FASE 2 and FASE 3: the content of the topic's output file for the consolidated files, if any. */
  function OutputFile(files: seq<TextFile>, topic: string, banner: (string, nat, nat) -> string): Option<string> {
    var content := Consolidated(files);
    FinalFile(content, banner(topic, |Included(files)|, |content|))
  }

  /**
   * One pass of the topic loop. `banner(topic, contador, chars)` stands for
   * the formatted header, whose date comes from the clock.
   */
  function Topic(st: State, all: seq<string>, prefix: string, ocr: string -> Option<string>,
                 banner: (string, nat, nat) -> string): (r: State)
    ensures st.procesados <= r.procesados
    ensures forall name :: name in r.libros ==> name in st.libros || name == OutputName(prefix)
  {
    var imagenes := Select(all, prefix);
    var procesados := st.procesados + Elements(imagenes);
    if imagenes == [] then State(st.temp, st.libros, procesados)
    else
      var temp := Run(imagenes, Phase(Tally(0, 0, 0), st.temp), ocr, MinLength).temp;
      State(temp, Save(st.libros, OutputName(prefix), OutputFile(TopicFiles(temp, prefix), prefix, banner)), procesados)
  }

  /** The topic loop over `prefixes`. */
  function Topics(st: State, all: seq<string>, prefixes: seq<string>, ocr: string -> Option<string>,
                  banner: (string, nat, nat) -> string): (r: State)
    ensures st.procesados <= r.procesados
    ensures forall name :: name in r.libros ==> name in st.libros || exists p :: p in prefixes && name == OutputName(p)
  {
    if prefixes == [] then st
    else Topic(Topics(st, all, prefixes[..|prefixes| - 1], ocr, banner), all, prefixes[|prefixes| - 1], ocr, banner)
  }

  /** Some topic's prefix, lower-cased, occurs in the lower-cased name. */
  predicate Categorised(name: string, prefixes: seq<string>) {
    exists p :: p in prefixes && Mentions(name, p)
  }

  /** The topic loop records exactly the images that mention one of its prefixes. */
  lemma {:induction false} TopicsProcesados(st: State, all: seq<string>, prefixes: seq<string>,
                                            ocr: string -> Option<string>, banner: (string, nat, nat) -> string)
    ensures forall x :: x in Topics(st, all, prefixes, ocr, banner).procesados <==>
      x in st.procesados || (x in all && Categorised(x, prefixes))
  {
    if prefixes != [] {
      var init := prefixes[..|prefixes| - 1];
      var p := prefixes[|prefixes| - 1];
      TopicsProcesados(st, all, init, ocr, banner);
      SelectMembers(all, p);
      assert prefixes == init + [p];
      forall x | x in all ensures Categorised(x, prefixes) <==> Categorised(x, init) || Mentions(x, p) {
        if Categorised(x, prefixes) {
          var q :| q in prefixes && Mentions(x, q);
          if q != p {
            assert q in init;
          }
        }
      }
    }
  }

  /**
   * The output folder changes only when the topic has images and some
   * visible, non-blank `.txt` file of the temporary folder mentions it; then
   * only the topic's own output file is (re)written.
   */
  lemma TopicSaves(st: State, all: seq<string>, prefix: string, ocr: string -> Option<string>,
                   banner: (string, nat, nat) -> string)
    ensures var r := Topic(st, all, prefix, ocr, banner);
      var written := Select(all, prefix) != [] &&
        exists f :: f in r.temp && Globbed(f.name, ".txt") && Mentions(f.name, prefix) && !IsBlank(f.text);
      && (written ==> OutputName(prefix) in r.libros && r.libros == st.libros[OutputName(prefix) := r.libros[OutputName(prefix)]])
      && (!written ==> r.libros == st.libros)
  {
    var r := Topic(st, all, prefix, ocr, banner);
    if Select(all, prefix) != [] {
      var files := TopicFiles(r.temp, prefix);
      assert r.libros == Save(st.libros, OutputName(prefix), OutputFile(TopicFiles(r.temp, prefix), prefix, banner));
      TopicFilesMembers(r.temp, prefix);
      FinalFileWritten(files, banner(prefix, |Included(files)|, |Consolidated(files)|));
    }
  }

  lemma TopicKeepsOtherOutputs(st: State, all: seq<string>, prefix: string, ocr: string -> Option<string>,
                               banner: (string, nat, nat) -> string, name: string)
    requires name != OutputName(prefix)
    ensures var r := Topic(st, all, prefix, ocr, banner);
      (name in r.libros <==> name in st.libros) && (name in st.libros ==> r.libros[name] == st.libros[name])
  {
    var imagenes := Select(all, prefix);
    if imagenes != [] {
      var temp := Run(imagenes, Phase(Tally(0, 0, 0), st.temp), ocr, MinLength).temp;
      SaveKeepsOthers(st.libros, OutputName(prefix), OutputFile(TopicFiles(temp, prefix), prefix, banner), name);
    }
  }

  /** The topic loop writes no output file other than its topics' own. */
  lemma {:induction false} TopicsKeepOtherOutputs(st: State, all: seq<string>, prefixes: seq<string>,
                                                  ocr: string -> Option<string>, banner: (string, nat, nat) -> string, name: string)
    requires forall p :: p in prefixes ==> name != OutputName(p)
    ensures var r := Topics(st, all, prefixes, ocr, banner);
      (name in r.libros <==> name in st.libros) && (name in st.libros ==> r.libros[name] == st.libros[name])
  {
    if prefixes != [] {
      var init := prefixes[..|prefixes| - 1];
      var p := prefixes[|prefixes| - 1];
      assert forall q :: q in init ==> q in prefixes;
      TopicsKeepOtherOutputs(st, all, init, ocr, banner, name);
      TopicKeepsOtherOutputs(Topics(st, all, init, ocr, banner), all, p, ocr, banner, name);
    }
  }

  /** Neither loop ever writes a text file whose name is already in the temporary folder. */
  lemma {:induction false} TopicsDistinct(st: State, all: seq<string>, prefixes: seq<string>,
                                          ocr: string -> Option<string>, banner: (string, nat, nat) -> string)
    requires DistinctNamesOf(st.temp)
    ensures DistinctNamesOf(Topics(st, all, prefixes, ocr, banner).temp)
  {
    if prefixes != [] {
      var init := prefixes[..|prefixes| - 1];
      TopicsDistinct(st, all, init, ocr, banner);
      var mid := Topics(st, all, init, ocr, banner);
      RunDistinct(Select(all, prefixes[|prefixes| - 1]), Phase(Tally(0, 0, 0), mid.temp), ocr, MinLength);
    }
  }

  // ---------------------------------------------------------------------
  // The uncategorised images ("apuntes")
  // ---------------------------------------------------------------------

  /** The images whose name is not in `prefijos_procesados`, in their order. */
  function NotProcessed(images: seq<string>, procesados: set<string>): (r: seq<string>)
    ensures |r| <= |images|
  {
    if images == [] then []
    else
      var last := images[|images| - 1];
      NotProcessed(images[..|images| - 1], procesados) + (if last !in procesados then [last] else [])
  }

  lemma {:induction false} NotProcessedMembers(images: seq<string>, procesados: set<string>)
    ensures forall x :: x in NotProcessed(images, procesados) <==> x in images && x !in procesados
  {
    if images != [] {
      var init := images[..|images| - 1];
      NotProcessedMembers(init, procesados);
      assert images == init + [images[|images| - 1]];
    }
  }

  /** `imagenes_sin_categoria`, sorted. */
  function UncategorisedImages(all: seq<string>, procesados: set<string>): seq<string> {
    SortStrings(NotProcessed(all, procesados))
  }

  /** The text file names derived from images, one per image. */
  function TxtNames(images: seq<string>): (r: seq<string>)
    ensures |r| == |images|
    ensures forall k :: 0 <= k < |images| ==> r[k] == TxtName(images[k])
  {
    seq(|images|, (k: int) requires 0 <= k < |images| => TxtName(images[k]))
  }

  /** The names that exist in the temporary folder, in their order. */
  function Existing(names: seq<string>, temp: seq<TextFile>): (r: seq<string>)
    ensures |r| <= |names|
  {
    if names == [] then []
    else
      var last := names[|names| - 1];
      Existing(names[..|names| - 1], temp) + (if last in Names(temp) then [last] else [])
  }

  lemma {:induction false} ExistingMembers(names: seq<string>, temp: seq<TextFile>)
    ensures forall n :: n in Existing(names, temp) <==> n in names && n in Names(temp)
  {
    if names != [] {
      var init := names[..|names| - 1];
      ExistingMembers(init, temp);
      assert names == init + [names[|names| - 1]];
    }
  }

  /** The apuntes FASE 2 list: the existing text names of the images, sorted. */
  function ApuntesNames(images: seq<string>, temp: seq<TextFile>): seq<string> {
    SortStrings(Existing(TxtNames(images), temp))
  }

  /**
   * The list is sorted, keeps the multiplicities of the derived names that
   * exist, and holds exactly the existing names derived from the images.
   */
  lemma ApuntesNamesMembers(images: seq<string>, temp: seq<TextFile>)
    ensures SortedBy(ApuntesNames(images, temp), x => x)
    ensures multiset(ApuntesNames(images, temp)) == multiset(Existing(TxtNames(images), temp))
    ensures forall n :: n in ApuntesNames(images, temp) <==>
      n in Names(temp) && exists i :: 0 <= i < |images| && n == TxtName(images[i])
  {
    var e := Existing(TxtNames(images), temp);
    ExistingMembers(TxtNames(images), temp);
    forall n ensures n in ApuntesNames(images, temp) <==> n in e {
      assert n in ApuntesNames(images, temp) <==> n in multiset(ApuntesNames(images, temp));
      assert n in e <==> n in multiset(e);
    }
    forall n ensures n in TxtNames(images) <==> exists i :: 0 <= i < |images| && n == TxtName(images[i]) {
      if n in TxtNames(images) {
        var k :| 0 <= k < |TxtNames(images)| && TxtNames(images)[k] == n;
        assert n == TxtName(images[k]);
      }
    }
  }

  /** `open(txt).read()`: the first file of the folder with that name (an empty text when there is none). */
  function Read(temp: seq<TextFile>, name: string): TextFile {
    if temp == [] then TextFile(name, "")
    else if temp[0].name == name then temp[0]
    else Read(temp[1..], name)
  }

  lemma {:induction false} ReadFound(temp: seq<TextFile>, name: string)
    requires name in Names(temp)
    ensures Read(temp, name) in temp && Read(temp, name).name == name
  {
    if temp[0].name != name {
      var k :| 0 <= k < |temp| && Names(temp)[k] == name;
      assert Names(temp[1..])[k - 1] == name;
      ReadFound(temp[1..], name);
    }
  }

  function ReadAll(temp: seq<TextFile>, names: seq<string>): (r: seq<TextFile>)
    ensures |r| == |names|
  {
    seq(|names|, (k: int) requires 0 <= k < |names| => Read(temp, names[k]))
  }

  /** Reading existing names gives files of the folder carrying those names, in that order. */
  lemma ReadAllNames(temp: seq<TextFile>, names: seq<string>)
    requires forall n :: n in names ==> n in Names(temp)
    ensures Names(ReadAll(temp, names)) == names
    ensures forall f :: f in ReadAll(temp, names) ==> f in temp
  {
    var r := ReadAll(temp, names);
    forall k | 0 <= k < |names| ensures r[k] in temp && r[k].name == names[k] {
      ReadFound(temp, names[k]);
    }
  }

  /** The apuntes pass over the images the topic loop did not record. */
  function Apuntes(st: State, all: seq<string>, ocr: string -> Option<string>, banner: (string, nat, nat) -> string): (r: State)
    ensures r.procesados == st.procesados
    ensures forall name :: name in r.libros ==> name in st.libros || name == OutputName(Uncategorised)
  {
    var sinCategoria := UncategorisedImages(all, st.procesados);
    if sinCategoria == [] then st
    else
      var temp := Run(sinCategoria, Phase(Tally(0, 0, 0), st.temp), ocr, MinLength).temp;
      State(temp, Save(st.libros, OutputName(Uncategorised), OutputFile(ReadAll(temp, ApuntesNames(sinCategoria, temp)), Uncategorised, banner)), st.procesados)
  }

  /** The whole script, from the image listing, the temporary folder and the output folder. */
  function Script(folder: seq<string>, temp: seq<TextFile>, libros: map<string, string>,
                  ocr: string -> Option<string>, banner: (string, nat, nat) -> string): (r: State)
    ensures forall name :: name in r.libros ==>
      name in libros || name == OutputName(Uncategorised) || exists p :: p in Prefixes && name == OutputName(p)
  {
    var all := AllImages(folder);
    Apuntes(Topics(State(temp, libros, {}), all, Prefixes, ocr, banner), all, ocr, banner)
  }

  // ---------------------------------------------------------------------
  // The script's loops
  // ---------------------------------------------------------------------

  /** FASE 2 and FASE 3 for one topic: consolidate the files and write the output file when the text is not blank. */
  method ConsolidateAndSave(libros: map<string, string>, topic: string, files: seq<TextFile>,
                            banner: (string, nat, nat) -> string) returns (librosAfter: map<string, string>)
    ensures librosAfter == Save(libros, OutputName(topic), OutputFile(files, topic, banner))
  {
    var contenidoTotal, contador := Consolidate(files);
    librosAfter := libros;
    if !IsBlank(contenidoTotal) {
      librosAfter := librosAfter[OutputName(topic) := banner(topic, contador, |contenidoTotal|) + contenidoTotal];
    }
  }

  /** One pass of `for PREFIJO in PREFIJOS`. */
  method ProcessTopic(folder: seq<string>, st: State, prefix: string, ocr: string -> Option<string>,
                      banner: (string, nat, nat) -> string) returns (r: State)
    ensures r == Topic(st, AllImages(folder), prefix, ocr, banner)
  {
    var todas := FindImages(folder);
    var imagenes := Select(todas, prefix);
    var procesados := RecordImages(st.procesados, imagenes);
    if |imagenes| == 0 {
      return State(st.temp, st.libros, procesados);
    }
    var procesadas, saltadas, errores, temp := ProcessImages(imagenes, st.temp, ocr, MinLength);
    var txtFiles := Mentioning(TxtListing(temp), prefix);
    var libros := ConsolidateAndSave(st.libros, prefix, txtFiles, banner);
    r := State(temp, libros, procesados);
  }

  /** `imagenes_procesadas.update(imagenes)`, one image at a time. */
  method RecordImages(procesados: set<string>, imagenes: seq<string>) returns (after: set<string>)
    ensures after == procesados + Elements(imagenes)
  {
    after := procesados;
    for k := 0 to |imagenes|
      invariant after == procesados + Elements(imagenes[..k])
    {
      assert imagenes[..k + 1] == imagenes[..k] + [imagenes[k]];
      after := after + {imagenes[k]};
    }
    assert imagenes[..|imagenes|] == imagenes;
  }

  /** The apuntes pass: the images no topic recorded, FASE 1, their existing text files, FASE 2 and FASE 3. */
  method ProcessApuntes(folder: seq<string>, st: State, ocr: string -> Option<string>,
                        banner: (string, nat, nat) -> string) returns (r: State)
    ensures r == Apuntes(st, AllImages(folder), ocr, banner)
  {
    var todas := FindImages(folder);
    var sinCategoria := SortStrings(NotProcessed(todas, st.procesados));
    if |sinCategoria| == 0 {
      return st;
    }
    var procesadas, saltadas, errores, temp := ProcessImages(sinCategoria, st.temp, ocr, MinLength);
    var txtNames := SortStrings(Existing(TxtNames(sinCategoria), temp));
    var libros := ConsolidateAndSave(st.libros, Uncategorised, ReadAll(temp, txtNames), banner);
    r := State(temp, libros, st.procesados);
  }

  /** The whole script: the topic loop, then the apuntes pass. */
  method RunScript(folder: seq<string>, temp: seq<TextFile>, libros: map<string, string>,
                   ocr: string -> Option<string>, banner: (string, nat, nat) -> string) returns (r: State)
    ensures r == Script(folder, temp, libros, ocr, banner)
  {
    var st := State(temp, libros, {});
    for i := 0 to |Prefixes|
      invariant st == Topics(State(temp, libros, {}), AllImages(folder), Prefixes[..i], ocr, banner)
    {
      assert Prefixes[..i + 1][..i] == Prefixes[..i];
      st := ProcessTopic(folder, st, Prefixes[i], ocr, banner);
    }
    assert Prefixes[..|Prefixes|] == Prefixes;
    r := ProcessApuntes(folder, st, ocr, banner);
  }

  /**
   * Every listed image is either recorded by the topic loop, exactly when it
   * mentions some prefix, or among the sorted uncategorised images, never
   * both.
   */
  lemma Partition(folder: seq<string>, temp: seq<TextFile>, libros: map<string, string>,
                  ocr: string -> Option<string>, banner: (string, nat, nat) -> string)
    ensures var all := AllImages(folder);
      var mid := Topics(State(temp, libros, {}), all, Prefixes, ocr, banner);
      var sinCategoria := UncategorisedImages(all, mid.procesados);
      && SortedBy(sinCategoria, x => x)
      && (forall x :: x in mid.procesados <==> x in all && Categorised(x, Prefixes))
      && (forall x :: x in sinCategoria <==> x in all && !Categorised(x, Prefixes))
  {
    var all := AllImages(folder);
    var mid := Topics(State(temp, libros, {}), all, Prefixes, ocr, banner);
    TopicsProcesados(State(temp, libros, {}), all, Prefixes, ocr, banner);
    NotProcessedMembers(all, mid.procesados);
    var np := NotProcessed(all, mid.procesados);
    forall x ensures x in UncategorisedImages(all, mid.procesados) <==> x in np {
      assert x in UncategorisedImages(all, mid.procesados) <==> x in multiset(UncategorisedImages(all, mid.procesados));
      assert x in np <==> x in multiset(np);
    }
  }

  /** The apuntes pass writes no output file but "apuntes.txt". */
  lemma ApuntesKeepsOtherOutputs(st: State, all: seq<string>, ocr: string -> Option<string>,
                                 banner: (string, nat, nat) -> string, name: string)
    requires name != OutputName(Uncategorised)
    ensures var r := Apuntes(st, all, ocr, banner);
      (name in r.libros <==> name in st.libros) && (name in st.libros ==> r.libros[name] == st.libros[name])
  {
    var sinCategoria := UncategorisedImages(all, st.procesados);
    if sinCategoria != [] {
      var temp := Run(sinCategoria, Phase(Tally(0, 0, 0), st.temp), ocr, MinLength).temp;
      SaveKeepsOthers(st.libros, OutputName(Uncategorised), OutputFile(ReadAll(temp, ApuntesNames(sinCategoria, temp)), Uncategorised, banner), name);
    }
  }

  /** The script writes no output file other than the topics' and "apuntes.txt". */
  lemma ScriptKeepsOtherOutputs(folder: seq<string>, temp: seq<TextFile>, libros: map<string, string>,
                                ocr: string -> Option<string>, banner: (string, nat, nat) -> string, name: string)
    requires name != OutputName(Uncategorised) && forall p :: p in Prefixes ==> name != OutputName(p)
    ensures var r := Script(folder, temp, libros, ocr, banner);
      (name in r.libros <==> name in libros) && (name in libros ==> r.libros[name] == libros[name])
  {
    var all := AllImages(folder);
    var mid := Topics(State(temp, libros, {}), all, Prefixes, ocr, banner);
    TopicsKeepOtherOutputs(State(temp, libros, {}), all, Prefixes, ocr, banner, name);
    ApuntesKeepsOtherOutputs(mid, all, ocr, banner, name);
  }

  lemma TxtNamesOfStem()
    ensures TxtNames(["a.jpg", "a.png"]) == ["a.txt", "a.txt"]
  {
    assert RFind("a.jpg", '.') == 1 by {
      assert "a.jpg"[1] == '.' && "a.jpg"[2] != '.' && "a.jpg"[3] != '.' && "a.jpg"[4] != '.';
    }
    assert RFind("a.png", '.') == 1 by {
      assert "a.png"[1] == '.' && "a.png"[2] != '.' && "a.png"[3] != '.' && "a.png"[4] != '.';
    }
    assert "a.jpg"[..1] == "a" && "a.png"[..1] == "a";
    assert !AllDots("a") by {
      assert "a"[0] != '.';
    }
    assert TxtName("a.jpg") == "a.txt" && TxtName("a.png") == "a.txt";
  }

  /**
   * Two uncategorised images with the same stem, "a.png" and "a.jpg", both
   * lead to "a.txt", so the apuntes consolidation lists that file twice.
   */
  lemma ApuntesListsTwice()
    ensures ApuntesNames(["a.jpg", "a.png"], [TextFile("a.txt", "texto")]) == ["a.txt", "a.txt"]
  {
    TxtNamesOfStem();
    ExistingTwice(TextFile("a.txt", "texto"));
    SortTwice("a.txt");
  }

  lemma ExistingTwice(f: TextFile)
    ensures Existing([f.name, f.name], [f]) == [f.name, f.name]
  {
    assert Names([f]) == [f.name] by {
      assert Names([f])[0] == f.name;
    }
    assert [f.name, f.name][..1] == [f.name];
  }

  lemma SortTwice(x: string)
    ensures SortStrings([x, x]) == [x, x]
  {
    var s := SortStrings([x, x]);
    assert s[0] in multiset(s) && s[1] in multiset(s);
  }
}
