/**
 * The single-topic OCR script `ocr_txt`: select the images that mention the
 * topic, OCR each one into the temporary folder (FASE 1), consolidate every
 * text file of that folder (FASE 2) and write the topic's output file when
 * the consolidated text is not blank (FASE 3).
 */
module OcrTxt {
  import opened Wrappers
  import opened Text
  import opened Corpus
  import opened OcrBatch

  /** The topic (`PREFIJO`). */
  const Prefix: string := "interaccionismo"

  /** A reply must be longer than this after stripping to be written. */
  const MinLength: nat := 10

  /**
   * How a run ends: `exit(1)` before FASE 1 when no image is selected, or the
   * FASE 1 counters, the temporary folder afterwards, the FASE 2 count and
   * text, and the output file's content (None when nothing is written).
   */
  datatype Outcome =
    | Aborted
    | Finished(tally: Tally, temp: seq<TextFile>, contador: nat, content: string, output: Option<string>)

  /**
   * The whole script. `folder` lists the image folder, `temp` the temporary
   * folder, `ocr` stands for the OCR model and `banner(contador, chars)` for
   * the formatted header, whose date comes from the clock.
   */
  method RunScript(folder: seq<string>, temp: seq<TextFile>, ocr: string -> Option<string>, banner: (nat, nat) -> string)
    returns (r: Outcome)
    ensures var imagenes := Select(AllImages(folder), Prefix);
      && (r.Aborted? <==> imagenes == [])
      && (r.Finished? ==> Finishes(r, imagenes, temp, ocr, banner))
  {
    var todas := FindImages(folder);
    var imagenes := Select(todas, Prefix);
    if |imagenes| == 0 {
      return Aborted;
    }
    r := RunPhases(imagenes, temp, ocr, banner);
  }

  /**
   * How a run over a non-empty selection ends: the FASE 1 counters sum to the
   * selection, FASE 2 consolidates every `.txt` file of the temporary folder,
   * and the output is written exactly when one of them is not blank.
   */
  ghost predicate Finishes(r: Outcome, imagenes: seq<string>, temp: seq<TextFile>, ocr: string -> Option<string>,
                           banner: (nat, nat) -> string)
    requires r.Finished?
  {
    && Phase(r.tally, r.temp) == Run(imagenes, Phase(Tally(0, 0, 0), temp), ocr, MinLength)
    && Total(r.tally) == |imagenes|
    && r.contador == |Included(TxtListing(r.temp))|
    && r.content == Consolidated(TxtListing(r.temp))
    && r.output == FinalFile(r.content, banner(r.contador, |r.content|))
    && (r.output.Some? <==> exists f :: f in r.temp && Globbed(f.name, ".txt") && !IsBlank(f.text))
  }

  /** FASE 1, 2 and 3 over the selected images. */
  method RunPhases(imagenes: seq<string>, temp: seq<TextFile>, ocr: string -> Option<string>, banner: (nat, nat) -> string)
    returns (r: Outcome)
    ensures r.Finished? && Finishes(r, imagenes, temp, ocr, banner)
  {
    var procesadas, saltadas, errores, tempAfter := ProcessImages(imagenes, temp, ocr, MinLength);
    var txtFiles := TxtListing(tempAfter);
    var contenidoTotal, contador := Consolidate(txtFiles);
    var output := FinalFile(contenidoTotal, banner(contador, |contenidoTotal|));
    ListingWritten(tempAfter, banner(contador, |contenidoTotal|));
    r := Finished(Tally(procesadas, saltadas, errores), tempAfter, contador, contenidoTotal, output);
  }


  /** The output is written exactly when the temporary folder holds a visible, non-blank `.txt` file. */
  lemma ListingWritten(temp: seq<TextFile>, banner: string)
    ensures FinalFile(Consolidated(TxtListing(temp)), banner).Some? <==>
      exists f :: f in temp && Globbed(f.name, ".txt") && !IsBlank(f.text)
  {
    FinalFileWritten(TxtListing(temp), banner);
    TxtListingMembers(temp);
  }
}
