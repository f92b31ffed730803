/**
 * The bookkeeping the two OCR scripts share: the integer part of the resize
 * rule, the image listing and selection by a case-insensitive prefix, the
 * FASE 1 loop with its three counters, the FASE 2 consolidation into one
 * text and the FASE 3 decision to write the output file. Folders are values:
 * an image folder is the list of its entry names, the temporary folder the
 * list of its text files in listing order.
 */
module OcrBatch {
  import opened Wrappers
  import opened Text
  import opened Corpus
  import opened Sorting

  // ---------------------------------------------------------------------
  // redimensionar_imagen
  // ---------------------------------------------------------------------

  datatype Size = Size(w: int, h: int)

  /** Both sides between 640 and 1024: the image is used as it is. */
  predicate WithinLimits(s: Size) {
    640 <= s.w <= 1024 && 640 <= s.h <= 1024
  }

  /** `max(32, (n // 32) * 32)`; for a positive divisor Dafny's `/` floors like Python's `//`. */
  function RoundTo32(n: int): (r: int)
    ensures r % 32 == 0 && r >= 32
    ensures n >= 32 ==> r <= n < r + 32
    ensures n < 32 ==> r == 32
  {
    Max(32, (n / 32) * 32)
  }

  /** Rounding down to a multiple of 32 keeps a side between 640 and 1024. */
  lemma RoundTo32KeepsRange(n: int)
    requires 640 <= n <= 1024
    ensures 640 <= RoundTo32(n) <= 1024
  {
    var r := RoundTo32(n);
    assert r == (n / 32) * 32;
    assert n / 32 >= 20 by {
      assert 640 / 32 == 20;
    }
  }

  /** The second scaling step runs when a side of the first result is below 640. */
  predicate Grows(fitted: Size) {
    fitted.w < 640 || fitted.h < 640
  }

  /**
   * The sides before rounding: `fitted` is `int(original * ratio)` of the
   * first step, `grown` is `int(fitted * ratio)` of the second, cut to 1024.
   */
  function Target(fitted: Size, grown: Size): Size {
    if Grows(fitted) then Size(Min(grown.w, 1024), Min(grown.h, 1024)) else fitted
  }

  /** The final sides: the target rounded down to multiples of 32, at least 32. */
  function FinalSize(fitted: Size, grown: Size): Size {
    Size(RoundTo32(Target(fitted, grown).w), RoundTo32(Target(fitted, grown).h))
  }

  datatype ResizeOutcome = Unchanged | Resized(size: Size)

  /**
   * `redimensionar_imagen`. `source` is the image's size, None when PIL
   * cannot open it; `fitted` and `grown` are the integer results of the two
   * float scaling steps; `saved` says whether thumbnail and save succeed.
   * Every exception (including the division by a zero side) returns the
   * original image.
   */
  method ResizeImage(source: Option<Size>, fitted: Size, grown: Size, saved: bool) returns (r: ResizeOutcome)
    ensures r.Resized? <==> (source.Some? && !WithinLimits(source.value) && source.value.w != 0 && source.value.h != 0
                             && (Grows(fitted) ==> fitted.w != 0 && fitted.h != 0) && saved)
    ensures r.Resized? ==> r.size == FinalSize(fitted, grown)
    ensures r.Resized? ==> r.size.w % 32 == 0 && r.size.h % 32 == 0 && r.size.w >= 32 && r.size.h >= 32
  {
    if source.None? {
      return Unchanged;
    }
    var original := source.value;
    if WithinLimits(original) {
      return Unchanged;
    }
    if original.w == 0 || original.h == 0 {
      return Unchanged;
    }
    var nuevoW, nuevoH := fitted.w, fitted.h;
    if nuevoW < 640 || nuevoH < 640 {
      if nuevoW == 0 || nuevoH == 0 {
        return Unchanged;
      }
      nuevoW, nuevoH := grown.w, grown.h;
      if nuevoW > 1024 {
        nuevoW := 1024;
      }
      if nuevoH > 1024 {
        nuevoH := 1024;
      }
    }
    nuevoW := Max(32, (nuevoW / 32) * 32);
    nuevoH := Max(32, (nuevoH / 32) * 32);
    if !saved {
      return Unchanged;
    }
    r := Resized(Size(nuevoW, nuevoH));
  }

  /**
   * When the float steps land where they aim (the first at most 1024 on
   * both sides, the second at least 640 on both), the final image is in the
   * valid range; after the second step a side never exceeds 1024.
   */
  lemma FinalSizeInRange(fitted: Size, grown: Size)
    requires !Grows(fitted) ==> fitted.w <= 1024 && fitted.h <= 1024
    requires Grows(fitted) ==> grown.w >= 640 && grown.h >= 640
    ensures WithinLimits(FinalSize(fitted, grown))
  {
    var t := Target(fitted, grown);
    RoundTo32KeepsRange(t.w);
    RoundTo32KeepsRange(t.h);
  }

  /** After the second step both final sides are at most 1024, whatever the float results. */
  lemma GrownAtMost1024(fitted: Size, grown: Size)
    requires Grows(fitted)
    ensures FinalSize(fitted, grown).w <= 1024 && FinalSize(fitted, grown).h <= 1024
  {}

  // ---------------------------------------------------------------------
  // Listing and selecting images
  // ---------------------------------------------------------------------

  /** `glob` does not match names that start with a dot. */
  predicate Hidden(name: string) {
    name != [] && name[0] == '.'
  }

  /** A name `glob("*" + ext)` lists. */
  predicate Globbed(name: string, ext: string) {
    !Hidden(name) && EndsWith(name, ext)
  }

  /** `glob.glob(folder/"*" + ext)`, in listing order. */
  function GlobExt(names: seq<string>, ext: string): (r: seq<string>)
    ensures |r| <= |names|
  {
    if names == [] then []
    else GlobExt(names[..|names| - 1], ext) + (if Globbed(names[|names| - 1], ext) then [names[|names| - 1]] else [])
  }

  lemma {:induction false} GlobExtMembers(names: seq<string>, ext: string)
    ensures forall x :: x in GlobExt(names, ext) <==> x in names && Globbed(x, ext)
  {
    if names != [] {
      var init := names[..|names| - 1];
      GlobExtMembers(init, ext);
      assert names == init + [names[|names| - 1]];
    }
  }

  /** The patterns of `tipos`, in order. */
  const ImageTypes: seq<string> := [".png", ".jpg", ".jpeg"]

  /** The images of the first types: `imagenes.extend(glob(...))` for each. */
  function GlobTypes(names: seq<string>, types: seq<string>): seq<string> {
    if types == [] then []
    else GlobTypes(names, types[..|types| - 1]) + GlobExt(names, types[|types| - 1])
  }

  /** All images of the folder: the ".png" ones, then ".jpg", then ".jpeg". */
  function AllImages(folder: seq<string>): seq<string> {
    GlobTypes(folder, ImageTypes)
  }

  /** A name the image listing picks up. */
  predicate IsImage(name: string) {
    Globbed(name, ".png") || Globbed(name, ".jpg") || Globbed(name, ".jpeg")
  }

  lemma {:induction false} GlobTypesMembers(names: seq<string>, types: seq<string>)
    ensures forall x :: x in GlobTypes(names, types) <==> x in names && exists e :: e in types && Globbed(x, e)
  {
    if types != [] {
      var init := types[..|types| - 1];
      var e := types[|types| - 1];
      GlobTypesMembers(names, init);
      GlobExtMembers(names, e);
      assert types == init + [e];
    }
  }

  /** The listing holds exactly the folder's non-hidden ".png", ".jpg" and ".jpeg" names. */
  lemma AllImagesMembers(folder: seq<string>)
    ensures forall x :: x in AllImages(folder) <==> x in folder && IsImage(x)
  {
    GlobTypesMembers(folder, ImageTypes);
    forall x ensures (exists e :: e in ImageTypes && Globbed(x, e)) <==> IsImage(x) {
      if IsImage(x) {
        if Globbed(x, ".png") {
          assert ImageTypes[0] == ".png";
        } else if Globbed(x, ".jpg") {
          assert ImageTypes[1] == ".jpg";
        } else {
          assert ImageTypes[2] == ".jpeg";
        }
      }
    }
  }

  /** The three `glob` calls of the listing loop. */
  method FindImages(folder: seq<string>) returns (imagenes: seq<string>)
    ensures imagenes == AllImages(folder)
  {
    imagenes := [];
    for i := 0 to |ImageTypes|
      invariant imagenes == GlobTypes(folder, ImageTypes[..i])
    {
      assert ImageTypes[..i + 1][..i] == ImageTypes[..i];
      imagenes := imagenes + GlobExt(folder, ImageTypes[i]);
    }
    assert ImageTypes[..|ImageTypes|] == ImageTypes;
  }

  /** `PREFIJO.lower() in os.path.basename(img).lower()`. */
  predicate Mentions(name: string, prefix: string) {
    Contains(Lower(name), Lower(prefix))
  }

  /** The names that mention the prefix, in their order. */
  function WithPrefix(names: seq<string>, prefix: string): (r: seq<string>)
    ensures |r| <= |names|
  {
    if names == [] then []
    else
      var last := names[|names| - 1];
      WithPrefix(names[..|names| - 1], prefix) + (if Mentions(last, prefix) then [last] else [])
  }

  lemma {:induction false} WithPrefixMembers(names: seq<string>, prefix: string)
    ensures forall x :: x in WithPrefix(names, prefix) <==> x in names && Mentions(x, prefix)
  {
    if names != [] {
      var init := names[..|names| - 1];
      WithPrefixMembers(init, prefix);
      assert names == init + [names[|names| - 1]];
    }
  }

  /** The selected images: the filter, then `imagenes.sort()`. */
  function Select(images: seq<string>, prefix: string): (r: seq<string>)
    ensures multiset(r) == multiset(WithPrefix(images, prefix))
  {
    SortStrings(WithPrefix(images, prefix))
  }

  /**
   * The selection is sorted and holds exactly the images whose lower-cased
   * name contains the lower-cased prefix, each as often as it is listed.
   */
  lemma SelectMembers(images: seq<string>, prefix: string)
    ensures SortedBy(Select(images, prefix), x => x)
    ensures multiset(Select(images, prefix)) == multiset(WithPrefix(images, prefix))
    ensures forall x :: x in Select(images, prefix) <==> x in images && Mentions(x, prefix)
  {
    WithPrefixMembers(images, prefix);
    var w := WithPrefix(images, prefix);
    forall x ensures x in Select(images, prefix) <==> x in w {
      assert x in Select(images, prefix) <==> x in multiset(Select(images, prefix));
      assert x in w <==> x in multiset(w);
    }
  }

  // ---------------------------------------------------------------------
  // FASE 1
  // ---------------------------------------------------------------------

  datatype TextFile = TextFile(name: string, text: string)

  function FileName(f: TextFile): string {
    f.name
  }

  /** The names in a folder, in listing order. */
  function Names(folder: seq<TextFile>): (r: seq<string>)
    ensures |r| == |folder|
    ensures forall k :: 0 <= k < |folder| ==> r[k] == folder[k].name
  {
    seq(|folder|, (k: int) requires 0 <= k < |folder| => folder[k].name)
  }

  predicate AllDots(s: string) {
    forall k :: 0 <= k < |s| ==> s[k] == '.'
  }

  /** `os.path.splitext(name)[0]`: the name up to its last dot, unless only dots come before it. */
  function SplitExtRoot(name: string): (root: string)
    ensures root <= name
    ensures root != name ==> name[|root|] == '.' && '.' !in name[|root| + 1..]
  {
    var i := RFind(name, '.');
    if i > 0 && !AllDots(name[..i]) then name[..i] else name
  }

  /** The text file an image's OCR result goes to. */
  function TxtName(image: string): (txt: string)
    ensures |txt| >= 4 && txt[|txt| - 4..] == ".txt"
    ensures txt[..|txt| - 4] <= image
  {
    SplitExtRoot(image) + ".txt"
  }

  /** The three counters of FASE 1. */
  datatype Tally = Tally(procesadas: nat, saltadas: nat, errores: nat)

  function Total(t: Tally): nat {
    t.procesadas + t.saltadas + t.errores
  }

  /** The counters and the temporary folder as the loop goes. */
  datatype Phase = Phase(tally: Tally, temp: seq<TextFile>)

  /**
   * One iteration for `image`. `ocr(image)` is the reply content of the OCR
   * model, None when anything inside the `try` raises: the call, reading its
   * content, or opening and writing the text file. An existing text file
   * skips the image; a stripped reply longer than `minLength` is written;
   * anything else counts as an error and leaves the folder as it was.
   */
  function Step(st: Phase, image: string, ocr: string -> Option<string>, minLength: nat): (r: Phase)
    ensures Total(r.tally) == Total(st.tally) + 1
  {
    var txt := TxtName(image);
    if txt in Names(st.temp) then
      Phase(st.tally.(saltadas := st.tally.saltadas + 1), st.temp)
    else
      match ocr(image)
      case None => Phase(st.tally.(errores := st.tally.errores + 1), st.temp)
      case Some(reply) =>
        var texto := Strip(reply);
        if texto != [] && |texto| > minLength then
          Phase(st.tally.(procesadas := st.tally.procesadas + 1), st.temp + [TextFile(txt, texto)])
        else
          Phase(st.tally.(errores := st.tally.errores + 1), st.temp)
  }

  /** The whole FASE 1 loop over `images`. */
  function Run(images: seq<string>, st: Phase, ocr: string -> Option<string>, minLength: nat): (r: Phase)
    ensures Total(r.tally) == Total(st.tally) + |images|
  {
    if images == [] then st
    else Step(Run(images[..|images| - 1], st, ocr, minLength), images[|images| - 1], ocr, minLength)
  }

  /** The FASE 1 loop over the selected images. */
  method ProcessImages(images: seq<string>, temp: seq<TextFile>, ocr: string -> Option<string>, minLength: nat)
    returns (procesadas: nat, saltadas: nat, errores: nat, tempAfter: seq<TextFile>)
    ensures Phase(Tally(procesadas, saltadas, errores), tempAfter) == Run(images, Phase(Tally(0, 0, 0), temp), ocr, minLength)
    ensures procesadas + saltadas + errores == |images|
  {
    procesadas, saltadas, errores, tempAfter := 0, 0, 0, temp;
    ghost var start := Phase(Tally(0, 0, 0), temp);
    for idx := 0 to |images|
      invariant Phase(Tally(procesadas, saltadas, errores), tempAfter) == Run(images[..idx], start, ocr, minLength)
      invariant procesadas + saltadas + errores == idx
    {
      ghost var before := Phase(Tally(procesadas, saltadas, errores), tempAfter);
      assert images[..idx + 1][..idx] == images[..idx];
      assert Run(images[..idx + 1], start, ocr, minLength) == Step(before, images[idx], ocr, minLength);
      procesadas, saltadas, errores, tempAfter := ProcessImage(images[idx], procesadas, saltadas, errores, tempAfter, ocr, minLength);
    }
    assert images[..|images|] == images;
  }

  /** One iteration of the FASE 1 loop: skip, write the OCR text, or count an error. */
  method ProcessImage(img: string, procesadas: nat, saltadas: nat, errores: nat, temp: seq<TextFile>,
                      ocr: string -> Option<string>, minLength: nat)
    returns (procesadasAfter: nat, saltadasAfter: nat, erroresAfter: nat, tempAfter: seq<TextFile>)
    ensures Phase(Tally(procesadasAfter, saltadasAfter, erroresAfter), tempAfter)
      == Step(Phase(Tally(procesadas, saltadas, errores), temp), img, ocr, minLength)
  {
    procesadasAfter, saltadasAfter, erroresAfter, tempAfter := procesadas, saltadas, errores, temp;
    var txtFile := TxtName(img);
    if txtFile in Names(temp) {
      saltadasAfter := saltadas + 1;
      return;
    }
    var resp := ocr(img);
    if resp.None? {
      erroresAfter := errores + 1;
      return;
    }
    var texto := Strip(resp.value);
    if texto != [] && |texto| > minLength {
      tempAfter := temp + [TextFile(txtFile, texto)];
      procesadasAfter := procesadas + 1;
    } else {
      erroresAfter := errores + 1;
    }
  }

  /** A skipped image does not depend on what the OCR model would answer. */
  lemma SkipIgnoresOcr(st: Phase, image: string, ocr1: string -> Option<string>, ocr2: string -> Option<string>, minLength: nat)
    requires TxtName(image) in Names(st.temp)
    ensures Step(st, image, ocr1, minLength) == Step(st, image, ocr2, minLength)
    ensures Step(st, image, ocr1, minLength).temp == st.temp
  {}

  /** A file FASE 1 may write: a stripped text longer than the bound, named after one of the images. */
  ghost predicate WrittenFor(f: TextFile, images: seq<string>, minLength: nat) {
    Strip(f.text) == f.text && |f.text| > minLength && exists i :: 0 <= i < |images| && f.name == TxtName(images[i])
  }

  /** The names of a folder are pairwise distinct. */
  ghost predicate DistinctNamesOf(folder: seq<TextFile>) {
    forall i, j :: 0 <= i < j < |folder| ==> folder[i].name != folder[j].name
  }

  /**
   * One iteration raises exactly one counter and leaves the other two: `saltadas`
   * exactly when the image's text file exists, `procesadas` exactly when the
   * stripped reply is written, `errores` otherwise. The folder is left alone or
   * gains the stripped reply under the image's new text name.
   */
  lemma StepEffect(st: Phase, image: string, ocr: string -> Option<string>, minLength: nat)
    ensures var r := Step(st, image, ocr, minLength);
      var skipped := TxtName(image) in Names(st.temp);
      var written := !skipped && ocr(image).Some? && |Strip(ocr(image).value)| > minLength;
      && (r.tally == st.tally.(saltadas := st.tally.saltadas + 1) <==> skipped)
      && (r.tally == st.tally.(procesadas := st.tally.procesadas + 1) <==> written)
      && (r.tally == st.tally.(errores := st.tally.errores + 1) <==> !skipped && !written)
      && (r.temp != st.temp <==> written)
      && Total(r.tally) == Total(st.tally) + 1
      && ((r.temp == st.temp && r.tally.procesadas == st.tally.procesadas)
          || (r.tally.procesadas == st.tally.procesadas + 1 && TxtName(image) !in Names(st.temp)
              && ocr(image).Some? && r.temp == st.temp + [TextFile(TxtName(image), Strip(ocr(image).value))]
              && |Strip(ocr(image).value)| > minLength))
  {}

  /** FASE 1 gives every image exactly one counter, keeps the files that were there and adds one per processed image. */
  lemma {:induction false} RunCounts(images: seq<string>, st: Phase, ocr: string -> Option<string>, minLength: nat)
    ensures var r := Run(images, st, ocr, minLength);
      && Total(r.tally) == Total(st.tally) + |images|
      && |st.temp| <= |r.temp| && r.temp[..|st.temp|] == st.temp
      && |r.temp| - |st.temp| == r.tally.procesadas - st.tally.procesadas
  {
    if images != [] {
      var init := images[..|images| - 1];
      RunCounts(init, st, ocr, minLength);
      var p := Run(init, st, ocr, minLength);
      StepEffect(p, images[|images| - 1], ocr, minLength);
      var r := Step(p, images[|images| - 1], ocr, minLength);
      assert r.temp[..|st.temp|] == p.temp[..|st.temp|];
    }
  }

  lemma WrittenForLonger(f: TextFile, init: seq<string>, images: seq<string>, minLength: nat)
    requires init <= images && WrittenFor(f, init, minLength)
    ensures WrittenFor(f, images, minLength)
  {
    var i :| 0 <= i < |init| && f.name == TxtName(init[i]);
    assert images[i] == init[i];
  }

  /** Every file FASE 1 adds is a stripped reply longer than `minLength`, named after one of the images. */
  lemma {:induction false} RunWritten(images: seq<string>, st: Phase, ocr: string -> Option<string>, minLength: nat)
    ensures var r := Run(images, st, ocr, minLength);
      |st.temp| <= |r.temp| && forall k :: |st.temp| <= k < |r.temp| ==> WrittenFor(r.temp[k], images, minLength)
  {
    RunCounts(images, st, ocr, minLength);
    if images != [] {
      var init := images[..|images| - 1];
      var img := images[|images| - 1];
      RunWritten(init, st, ocr, minLength);
      var p := Run(init, st, ocr, minLength);
      RunCounts(init, st, ocr, minLength);
      StepEffect(p, img, ocr, minLength);
      var r := Step(p, img, ocr, minLength);
      forall k | |st.temp| <= k < |r.temp| ensures WrittenFor(r.temp[k], images, minLength) {
        if k < |p.temp| {
          assert r.temp[k] == p.temp[k];
          WrittenForLonger(p.temp[k], init, images, minLength);
        } else {
          var t := Strip(ocr(img).value);
          assert r.temp[k] == TextFile(TxtName(img), t);
          StripIdempotent(ocr(img).value);
          assert TxtName(img) == TxtName(images[|images| - 1]);
        }
      }
    }
  }

  lemma DistinctSnoc(folder: seq<TextFile>, f: TextFile)
    requires DistinctNamesOf(folder) && f.name !in Names(folder)
    ensures DistinctNamesOf(folder + [f])
  {
    var g := folder + [f];
    forall i, j | 0 <= i < j < |g| ensures g[i].name != g[j].name {
      if j == |folder| {
        assert g[i].name == Names(folder)[i];
      }
    }
  }

  /** FASE 1 never writes a text file whose name is already there. */
  lemma {:induction false} RunDistinct(images: seq<string>, st: Phase, ocr: string -> Option<string>, minLength: nat)
    requires DistinctNamesOf(st.temp)
    ensures DistinctNamesOf(Run(images, st, ocr, minLength).temp)
  {
    if images != [] {
      var init := images[..|images| - 1];
      var img := images[|images| - 1];
      RunDistinct(init, st, ocr, minLength);
      var p := Run(init, st, ocr, minLength);
      StepEffect(p, img, ocr, minLength);
      var r := Step(p, img, ocr, minLength);
      if r.temp != p.temp {
        DistinctSnoc(p.temp, TextFile(TxtName(img), Strip(ocr(img).value)));
      }
    }
  }

  // ---------------------------------------------------------------------
  // FASE 2
  // ---------------------------------------------------------------------

  /** The text files `glob("*.txt")` lists in the temporary folder, in listing order. */
  function TxtFiles(temp: seq<TextFile>): seq<TextFile> {
    if temp == [] then []
    else TxtFiles(temp[..|temp| - 1]) + (if Globbed(temp[|temp| - 1].name, ".txt") then [temp[|temp| - 1]] else [])
  }

  lemma {:induction false} TxtFilesMembers(temp: seq<TextFile>)
    ensures forall f :: f in TxtFiles(temp) <==> f in temp && Globbed(f.name, ".txt")
  {
    if temp != [] {
      var init := temp[..|temp| - 1];
      TxtFilesMembers(init);
      assert temp == init + [temp[|temp| - 1]];
    }
  }

  /** `sorted(glob.glob(temp/"*.txt"))`. */
  function TxtListing(temp: seq<TextFile>): seq<TextFile> {
    SortBy(TxtFiles(temp), FileName)
  }

  /** The listing holds exactly the folder's visible `.txt` files, sorted by name. */
  lemma TxtListingMembers(temp: seq<TextFile>)
    ensures SortedBy(TxtListing(temp), FileName)
    ensures forall f :: f in TxtListing(temp) <==> f in temp && Globbed(f.name, ".txt")
  {
    TxtFilesMembers(temp);
    var l := TxtListing(temp);
    forall f ensures f in l <==> f in TxtFiles(temp) {
      assert f in l <==> f in multiset(l);
      assert f in TxtFiles(temp) <==> f in multiset(TxtFiles(temp));
    }
  }

  /** `c * n`. */
  function Rule(c: char, n: nat): (r: string)
    ensures |r| == n && forall k :: 0 <= k < n ==> r[k] == c
  {
    if n == 0 then [] else [c] + Rule(c, n - 1)
  }

  const DashesWidth: nat := 40
  const EqualsWidth: nat := 80
  const Dashes: string := Rule('-', DashesWidth)
  const Equals: string := Rule('=', EqualsWidth)

  /** What stands between two consolidated entries. */
  const Separator: string := "\n\n" + Equals + "\n\n"

  /** The heading placed before each consolidated text. */
  const SourceLabel: string := "\U{1F4C4} Fuente: "

  /** One consolidated entry: the source line, a rule of dashes, the text. */
  function Entry(f: TextFile): string {
    SourceLabel + f.name + "\n" + Dashes + "\n" + f.text
  }

  /** The files FASE 2 takes: those whose text is not blank. */
  function Included(files: seq<TextFile>): (r: seq<TextFile>)
    ensures |r| <= |files|
  {
    if files == [] then []
    else Included(files[..|files| - 1]) + (if !IsBlank(files[|files| - 1].text) then [files[|files| - 1]] else [])
  }

  function Entries(files: seq<TextFile>): (r: seq<string>)
    ensures |r| == |files|
  {
    if files == [] then [] else Entries(files[..|files| - 1]) + [Entry(files[|files| - 1])]
  }

  /** The consolidated text of a list of files. */
  function Consolidated(files: seq<TextFile>): (text: string)
    ensures Included(files) == [] ==> text == []
  {
    Join(Entries(Included(files)), Separator)
  }

  lemma IncludedSnoc(files: seq<TextFile>, f: TextFile)
    ensures Included(files + [f]) == Included(files) + (if !IsBlank(f.text) then [f] else [])
  {
    assert (files + [f])[..|files|] == files;
  }

  lemma EntriesSnoc(files: seq<TextFile>, f: TextFile)
    ensures Entries(files + [f]) == Entries(files) + [Entry(f)]
  {
    assert (files + [f])[..|files|] == files;
  }

  /** One more listed file: a blank one changes nothing, another adds a separator (unless it is the first) and its entry. */
  lemma ConsolidatedSnoc(prev: seq<TextFile>, txt: TextFile, acc: string)
    requires acc == Consolidated(prev)
    ensures |Included(prev + [txt])| == |Included(prev)| + (if IsBlank(txt.text) then 0 else 1)
    ensures Consolidated(prev + [txt]) ==
      if IsBlank(txt.text) then acc
      else if Included(prev) == [] then Entry(txt)
      else acc + Separator + Entry(txt)
  {
    IncludedSnoc(prev, txt);
    var before := Included(prev);
    if !IsBlank(txt.text) {
      var es, e := Entries(before), Entry(txt);
      EntriesSnoc(before, txt);
      assert Included(prev + [txt]) == before + [txt];
      assert Entries(before + [txt]) == es + [e];
      JoinAppend(es, e, Separator);
    } else {
      assert Included(prev + [txt]) == before;
    }
  }

  /** The loop of FASE 2: `contenido_total` and `contador`. */
  method Consolidate(files: seq<TextFile>) returns (contenidoTotal: string, contador: nat)
    ensures contador == |Included(files)|
    ensures contenidoTotal == Consolidated(files)
  {
    contenidoTotal, contador := "", 0;
    for idx := 0 to |files|
      invariant ConsolidatedSoFar(files[..idx], contenidoTotal, contador)
    {
      assert files[..idx + 1] == files[..idx] + [files[idx]];
      contenidoTotal, contador := ConsolidateFile(files[..idx], files[idx], contenidoTotal, contador);
    }
    assert files[..|files|] == files;
  }

  /** The FASE 2 loop state after the files `prev`. */
  ghost predicate ConsolidatedSoFar(prev: seq<TextFile>, contenido: string, contador: nat) {
    contador == |Included(prev)| && contenido == Consolidated(prev)
  }

  /** One iteration of the FASE 2 loop, stated against the consolidated text of the files seen so far. */
  method ConsolidateFile(ghost prev: seq<TextFile>, txt: TextFile, contenido: string, contador: nat)
    returns (contenidoAfter: string, contadorAfter: nat)
    requires ConsolidatedSoFar(prev, contenido, contador)
    ensures ConsolidatedSoFar(prev + [txt], contenidoAfter, contadorAfter)
  {
    ConsolidatedSnoc(prev, txt, contenido);
    contenidoAfter, contadorAfter := AppendEntry(contenido, contador, txt);
  }

  /** One iteration of the FASE 2 loop: a non-blank file adds a separator, unless it is the first, and its entry. */
  method AppendEntry(contenido: string, contador: nat, txt: TextFile) returns (contenidoAfter: string, contadorAfter: nat)
    ensures IsBlank(txt.text) ==> contenidoAfter == contenido && contadorAfter == contador
    ensures !IsBlank(txt.text) ==> contadorAfter == contador + 1
    ensures !IsBlank(txt.text) ==>
      contenidoAfter == if contador > 0 then contenido + Separator + Entry(txt) else contenido + Entry(txt)
  {
    contenidoAfter, contadorAfter := contenido, contador;
    if !IsBlank(txt.text) {
      if contadorAfter > 0 {
        contenidoAfter := contenidoAfter + Separator;
      }
      contenidoAfter := contenidoAfter + Entry(txt);
      contadorAfter := contadorAfter + 1;
    }
  }

  lemma {:induction false} IncludedMembers(files: seq<TextFile>)
    ensures forall f :: f in Included(files) <==> f in files && !IsBlank(f.text)
  {
    if files != [] {
      var init := files[..|files| - 1];
      IncludedMembers(init);
      assert files == init + [files[|files| - 1]];
    }
  }

  lemma {:induction false} EntriesAt(files: seq<TextFile>, k: nat)
    requires k < |files|
    ensures Entries(files)[k] == Entry(files[k])
  {
    if k < |files| - 1 {
      EntriesAt(files[..|files| - 1], k);
    }
  }

  /** A join of non-empty parts that start with a non-space character is blank exactly when there are no parts. */
  lemma JoinBlank(parts: seq<string>, sep: string)
    requires parts != [] ==> parts[0] != [] && !IsSpace(parts[0][0])
    ensures IsBlank(Join(parts, sep)) <==> parts == []
  {
    if parts != [] {
      JoinStart(parts, sep);
    }
  }

  /**
   * The consolidated text is blank exactly when no file is included, since
   * every entry starts with its source label; with `contador` entries it is
   * their lengths plus `contador - 1` separators.
   */
  lemma ConsolidatedShape(files: seq<TextFile>)
    ensures IsBlank(Consolidated(files)) <==> Included(files) == []
    ensures var es := Entries(Included(files));
      |Consolidated(files)| == if es == [] then 0 else TotalLength(es) + (|es| - 1) * |Separator|
  {
    ConsolidatedBlank(files);
    JoinLength(Entries(Included(files)), Separator);
  }

  lemma ConsolidatedBlank(files: seq<TextFile>)
    ensures IsBlank(Consolidated(files)) <==> Included(files) == []
  {
    var inc := Included(files);
    var es := Entries(inc);
    if es != [] {
      EntriesAt(inc, 0);
      EntryStart(inc[0]);
    }
    JoinBlank(es, Separator);
  }

  /** An entry opens with the page symbol of its source label, which is not a space. */
  lemma EntryStart(f: TextFile)
    ensures Entry(f) != [] && !IsSpace(Entry(f)[0])
  {
    assert Entry(f)[0] == SourceLabel[0] == '\U{1F4C4}';
  }

  /** Each included file's entry, and the separator after it unless it is the last, is in the consolidated text. */
  lemma ConsolidatedQuotes(files: seq<TextFile>, k: nat)
    requires k < |Included(files)|
    ensures Contains(Consolidated(files), Entry(Included(files)[k]))
    ensures k + 1 < |Included(files)| ==> Contains(Consolidated(files), Entry(Included(files)[k]) + Separator)
  {
    var inc := Included(files);
    var es := Entries(inc);
    assert Consolidated(files) == Join(es, Separator);
    EntriesAt(inc, k);
    JoinHolds(es, Separator, k);
  }

  // ---------------------------------------------------------------------
  // FASE 3
  // ---------------------------------------------------------------------

  /**
   * The output file's content: the banner followed by the consolidated text,
   * or None (nothing is written) when that text is blank. `banner` stands for
   * the formatted header, which holds the topic, the counts and the date.
   */
  function FinalFile(contenido: string, banner: string): (output: Option<string>)
    ensures output.None? <==> IsBlank(contenido)
    ensures output.Some? ==> |output.value| == |banner| + |contenido| && output.value[|banner|..] == contenido
  {
    if IsBlank(contenido) then None else Some(banner + contenido)
  }

  /** The output file is written exactly when some listed text file is not blank, and it ends with the consolidated text. */
  lemma FinalFileWritten(files: seq<TextFile>, banner: string)
    ensures FinalFile(Consolidated(files), banner).Some? <==> exists f :: f in files && !IsBlank(f.text)
    ensures FinalFile(Consolidated(files), banner).Some? ==>
      FinalFile(Consolidated(files), banner).value[|banner|..] == Consolidated(files)
  {
    ConsolidatedShape(files);
    IncludedMembers(files);
    if Included(files) != [] {
      assert Included(files)[0] in Included(files);
    }
  }
}
