/**
 * The format dispatch of the upload handler (app/main.py, `upload`): the file name is
 * lower-cased and its suffix picks the reader, or the upload is refused.
 */
module Upload {
  import opened Wrappers
  import opened PyStr

  /** The reader an accepted upload is handed to. */
  datatype Format = Csv | Excel | Pdf

  /** The `ValueError` raised for any other suffix; it names the file as uploaded. */
  datatype UploadError = UnsupportedFileType(filename: string)

  /**
   * `.csv` goes to the CSV reader, `.xls`/`.xlsx` to the Excel reader, `.pdf` to the PDF
   * parser, all tested on the lower-cased name; every other name is refused.
   */
  function Dispatch(filename: string): (r: Result<Format, UploadError>)
    ensures r == Ok(Csv) <==> EndsWith(Lower(filename), ".csv")
    ensures r == Ok(Excel) <==> EndsWith(Lower(filename), ".xls") || EndsWith(Lower(filename), ".xlsx")
    ensures r == Ok(Pdf) <==> EndsWith(Lower(filename), ".pdf")
    ensures r.Err? <==>
      !EndsWith(Lower(filename), ".csv") && !EndsWith(Lower(filename), ".xls") &&
      !EndsWith(Lower(filename), ".xlsx") && !EndsWith(Lower(filename), ".pdf")
    ensures r.Err? ==> r.error == UnsupportedFileType(filename)
  {
    var name := Lower(filename);
    SuffixesExclusive(name);
    if EndsWith(name, ".csv") then Ok(Csv)
    else if EndsWith(name, ".xls") || EndsWith(name, ".xlsx") then Ok(Excel)
    else if EndsWith(name, ".pdf") then Ok(Pdf)
    else Err(UnsupportedFileType(filename))
  }

  /** The four suffixes end in different letters, so a name has at most one of `.csv`, `.xls`/`.xlsx`, `.pdf`. */
  lemma SuffixesExclusive(name: string)
    ensures EndsWith(name, ".csv") ==> name[|name| - 1] == 'v'
    ensures EndsWith(name, ".xls") ==> name[|name| - 1] == 's'
    ensures EndsWith(name, ".xlsx") ==> name[|name| - 1] == 'x'
    ensures EndsWith(name, ".pdf") ==> name[|name| - 1] == 'f'
  {
    if |name| >= 4 {
      assert name[|name| - 4..][3] == name[|name| - 1];
    }
    if |name| >= 5 {
      assert name[|name| - 5..][4] == name[|name| - 1];
    }
  }

  /** Two names that differ only in the case of their letters are dispatched alike. */
  lemma DispatchIgnoresCase(f: string, g: string)
    requires |f| == |g|
    requires forall i :: 0 <= i < |f| ==> LowerChar(f[i]) == LowerChar(g[i])
    ensures Dispatch(f).Ok? <==> Dispatch(g).Ok?
    ensures Dispatch(f).Ok? ==> Dispatch(f) == Dispatch(g)
  {
    assert Lower(f) == Lower(g);
  }

  /** Dispatching the already lower-cased name gives the same format. */
  lemma DispatchOfLower(f: string)
    ensures Dispatch(Lower(f)).Ok? <==> Dispatch(f).Ok?
    ensures Dispatch(f).Ok? ==> Dispatch(Lower(f)) == Dispatch(f)
  {
    LowerIdempotent(f);
  }

  /** A name ending in the given text ends, once lower-cased, in that text lower-cased. */
  lemma LowerEndsWith(stem: string, suffix: string)
    ensures EndsWith(Lower(stem + suffix), Lower(suffix))
  {
    LowerConcat(stem, suffix);
    var l := Lower(stem) + Lower(suffix);
    assert l[|l| - |Lower(suffix)|..] == Lower(suffix);
  }

  /** Upper-case suffixes are accepted, whatever comes before them. */
  lemma DispatchUpperCase(stem: string)
    ensures Dispatch(stem + ".CSV") == Ok(Csv)
    ensures Dispatch(stem + ".XLS") == Ok(Excel)
    ensures Dispatch(stem + ".XLSX") == Ok(Excel)
    ensures Dispatch(stem + ".PDF") == Ok(Pdf)
  {
    assert Lower(".CSV") == ".csv";
    assert Lower(".XLS") == ".xls";
    assert Lower(".XLSX") == ".xlsx";
    assert Lower(".PDF") == ".pdf";
    LowerEndsWith(stem, ".CSV");
    LowerEndsWith(stem, ".XLS");
    LowerEndsWith(stem, ".XLSX");
    LowerEndsWith(stem, ".PDF");
  }

  /** Only the last suffix counts: a name that ends in `.png` is refused even if `.pdf` comes before it. */
  lemma DispatchLastSuffixOnly(stem: string)
    ensures Dispatch(stem + ".pdf.png") == Err(UnsupportedFileType(stem + ".pdf.png"))
  {
    LowerConcat(stem, ".pdf.png");
    var l := Lower(stem + ".pdf.png");
    assert l[|l| - 1] == LowerChar('g') == 'g';
    SuffixesExclusive(l);
  }
}
