/** `extract_text_from_pdf`: read the pages of a PDF in order, appending
    each page's text, stopping after the page that takes the text past a
    size cap; a library failure is reported and ends the reading, keeping
    what was read. */
module PdfExtraction {
  import opened Wrappers

  /** The accumulated text may exceed this many characters only on the
      page at which reading stops. */
  const TextCap: nat := 10_000_000

  /** What the PDF library gives for one page: the result of
      `page.extract_text()` (None when the page has no text layer), or an
      exception raised while reading that page. */
  datatype PageResult = Extracted(text: Option<string>) | Raises

  /** An uploaded file as the PDF library sees it: it cannot be opened at
      all, or it opens and yields its pages in document order. */
  datatype Pdf = OpenFails | Opened(pages: seq<PageResult>)

  /** The returned text, whether the size warning was shown, and whether
      an extraction error was shown. */
  datatype Extraction = Extraction(text: string, truncated: bool, failed: bool)

  /** `page.extract_text() or ""`. */
  function PageText(p: PageResult): (t: string)
    ensures p.Extracted? && p.text.Some? ==> t == p.text.value
    ensures p.Raises? || p.text.None? ==> t == ""
  {
    match p
    case Extracted(t) => t.GetOr("")
    case Raises => ""
  }

  /** The texts of the given pages, joined in order. */
  function PagesText(pages: seq<PageResult>): string {
    if pages == [] then ""
    else PagesText(pages[..|pages| - 1]) + PageText(pages[|pages| - 1])
  }

  /** The text of pages 0 to k is longer than the cap. */
  predicate CrossesCap(pages: seq<PageResult>, k: nat)
    requires k < |pages|
  {
    |PagesText(pages[..k + 1])| > TextCap
  }

  /** Reading ends at page k: it raises, or it takes the text past the cap. */
  predicate StopsAt(pages: seq<PageResult>, k: nat)
    requires k < |pages|
  {
    pages[k].Raises? || CrossesCap(pages, k)
  }

  /** Page k is the first page at which reading ends. */
  predicate FirstStop(pages: seq<PageResult>, k: nat) {
    k < |pages| && StopsAt(pages, k) && forall j :: 0 <= j < k ==> !StopsAt(pages, j)
  }

  /** The outcome of reading on from page i, the pages before it having been
      read without stopping. */
  function ScanFrom(pages: seq<PageResult>, i: nat): (r: Extraction)
    requires i <= |pages| && |PagesText(pages[..i])| <= TextCap
    ensures exists n :: i <= n <= |pages| && r.text == PagesText(pages[..n])
    ensures !r.truncated ==> |r.text| <= TextCap
    ensures !(r.truncated && r.failed)
    decreases |pages| - i
  {
    if i == |pages| then
      assert pages[..i] == pages;
      Extraction(PagesText(pages), false, false)
    else if pages[i].Raises? then
      Extraction(PagesText(pages[..i]), false, true)
    else if |PagesText(pages[..i + 1])| > TextCap then
      Extraction(PagesText(pages[..i + 1]), true, false)
    else
      ScanFrom(pages, i + 1)
  }

  /** The outcome of `extract_text_from_pdf`. A file that cannot be opened
      gives no text and an error; otherwise the text is that of some
      leading pages, within the cap unless the size warning is raised. */
  function Extract(pdf: Pdf): (r: Extraction)
    ensures pdf.OpenFails? ==> r == Extraction("", false, true)
    ensures pdf.Opened? ==> exists n :: 0 <= n <= |pdf.pages| && r.text == PagesText(pdf.pages[..n])
    ensures !r.truncated ==> |r.text| <= TextCap
    ensures !(r.truncated && r.failed)
  {
    match pdf
    case OpenFails => Extraction("", false, true)
    case Opened(pages) =>
      assert pages[..0] == [];
      ScanFrom(pages, 0)
  }

  /** One more page appended to the joined text. */
  lemma PagesTextSnoc(pages: seq<PageResult>, k: nat)
    requires k < |pages|
    ensures PagesText(pages[..k + 1]) == PagesText(pages[..k]) + PageText(pages[k])
  {
    assert pages[..k + 1][..k] == pages[..k];
  }

  /** Reading from page i on, with no stop before the first stop k, ends at k:
      a failing page contributes the pages before it and an error, a page
      that crosses the cap contributes itself and the warning. The warning
      leaves the text at most one page beyond the cap. */
  lemma {:induction false} ScanToFirstStop(pages: seq<PageResult>, i: nat, k: nat)
    requires i <= k && FirstStop(pages, k)
    ensures |PagesText(pages[..i])| <= TextCap
    ensures pages[k].Raises? ==> ScanFrom(pages, i) == Extraction(PagesText(pages[..k]), false, true)
    ensures !pages[k].Raises? ==> ScanFrom(pages, i) == Extraction(PagesText(pages[..k + 1]), true, false)
    ensures !pages[k].Raises? ==> |ScanFrom(pages, i).text| <= TextCap + |PageText(pages[k])|
    decreases k - i
  {
    if i > 0 {
      assert !StopsAt(pages, i - 1);
    } else {
      assert pages[..0] == [];
    }
    PagesTextSnoc(pages, k);
    if k > 0 {
      assert !StopsAt(pages, k - 1);
    } else {
      assert pages[..0] == [];
    }
    if i < k {
      assert !StopsAt(pages, i);
      ScanToFirstStop(pages, i + 1, k);
    }
  }

  /** With no stopping page from i on, reading runs to the last page. */
  lemma {:induction false} ScanToEnd(pages: seq<PageResult>, i: nat)
    requires i <= |pages| && |PagesText(pages[..i])| <= TextCap
    requires forall j :: i <= j < |pages| ==> !StopsAt(pages, j)
    ensures ScanFrom(pages, i) == Extraction(PagesText(pages), false, false)
    decreases |pages| - i
  {
    if i == |pages| {
      assert pages[..i] == pages;
    } else {
      assert !StopsAt(pages, i);
      ScanToEnd(pages, i + 1);
    }
  }

  /** Any stopping page has a first stopping page at or before it. */
  lemma {:induction false} FirstStopExists(pages: seq<PageResult>, k: nat)
    requires k < |pages| && StopsAt(pages, k)
    ensures exists j: nat :: j <= k && FirstStop(pages, j)
    decreases k
  {
    if !FirstStop(pages, k) {
      var j: nat :| j < k && StopsAt(pages, j);
      FirstStopExists(pages, j);
    }
  }

  /** Pages that open, never raise and never take the text past the cap are
      all read, with neither warning nor error. */
  lemma ExtractReadsAllPages(pages: seq<PageResult>)
    requires forall j :: 0 <= j < |pages| ==> !StopsAt(pages, j)
    ensures Extract(Opened(pages)) == Extraction(PagesText(pages), false, false)
  {
    assert pages[..0] == [];
    ScanToEnd(pages, 0);
  }

  /** A failure at page k, with no earlier stop, returns the text of the
      pages before k and reports the error instead of raising it. */
  lemma ExtractFailsAt(pages: seq<PageResult>, k: nat)
    requires FirstStop(pages, k) && pages[k].Raises?
    ensures Extract(Opened(pages)) == Extraction(PagesText(pages[..k]), false, true)
  {
    ScanToFirstStop(pages, 0, k);
  }

  /** Crossing the cap at page k, with no earlier stop, returns the text of
      pages 0 to k with the warning: at most that page's length over the cap. */
  lemma ExtractTruncatesAt(pages: seq<PageResult>, k: nat)
    requires FirstStop(pages, k) && !pages[k].Raises?
    ensures Extract(Opened(pages)) == Extraction(PagesText(pages[..k + 1]), true, false)
    ensures TextCap < |Extract(Opened(pages)).text| <= TextCap + |PageText(pages[k])|
  {
    ScanToFirstStop(pages, 0, k);
  }

  /** The size warning is raised exactly when some page takes the joined
      text past the cap before any page has raised. */
  lemma ExtractWarnsIff(pages: seq<PageResult>)
    ensures Extract(Opened(pages)).truncated <==>
      exists k :: 0 <= k < |pages| && CrossesCap(pages, k)
        && forall j :: 0 <= j <= k ==> !pages[j].Raises?
  {
    if exists k: nat :: k < |pages| && StopsAt(pages, k) {
      var k: nat :| k < |pages| && StopsAt(pages, k);
      FirstStopExists(pages, k);
      var f: nat :| f <= k && FirstStop(pages, f);
      if pages[f].Raises? {
        ExtractFailsAt(pages, f);
        forall k | 0 <= k < |pages| && CrossesCap(pages, k)
          ensures exists j :: 0 <= j <= k && pages[j].Raises?
        {
          if k < f { assert StopsAt(pages, k); }
        }
      } else {
        ExtractTruncatesAt(pages, f);
        forall j | 0 <= j <= f ensures !pages[j].Raises? {
          if j < f { assert !StopsAt(pages, j); }
        }
      }
    } else {
      ExtractReadsAllPages(pages);
      forall k | 0 <= k < |pages| ensures !CrossesCap(pages, k) && !pages[k].Raises? {
        assert !StopsAt(pages, k);
      }
    }
  }

  /** An extraction error is reported exactly when some page raises before
      any page has taken the joined text past the cap. */
  lemma ExtractFailsIff(pages: seq<PageResult>)
    ensures Extract(Opened(pages)).failed <==>
      exists k :: 0 <= k < |pages| && pages[k].Raises?
        && forall j :: 0 <= j < k ==> !CrossesCap(pages, j)
  {
    if exists k: nat :: k < |pages| && StopsAt(pages, k) {
      var k: nat :| k < |pages| && StopsAt(pages, k);
      FirstStopExists(pages, k);
      var f: nat :| f <= k && FirstStop(pages, f);
      if pages[f].Raises? {
        ExtractFailsAt(pages, f);
        forall j | 0 <= j < f ensures !CrossesCap(pages, j) {
          assert !StopsAt(pages, j);
        }
      } else {
        ExtractTruncatesAt(pages, f);
        forall k | 0 <= k < |pages| && pages[k].Raises?
          ensures exists j :: 0 <= j < k && CrossesCap(pages, j)
        {
          if k <= f { assert StopsAt(pages, k); }
        }
      }
    } else {
      ExtractReadsAllPages(pages);
      forall k | 0 <= k < |pages| ensures !CrossesCap(pages, k) && !pages[k].Raises? {
        assert !StopsAt(pages, k);
      }
    }
  }

  /** `extract_text_from_pdf`, with the warning and the error as flags. */
  method ExtractTextFromPdf(pdf: Pdf) returns (r: Extraction)
    ensures r == Extract(pdf)
  {
    var text := "";
    match pdf {
      case OpenFails =>
        r := Extraction(text, false, true);
      case Opened(pages) =>
        var truncated, failed := false, false;
        var i := 0;
        assert pages[..0] == [];
        while i < |pages|
          invariant 0 <= i <= |pages|
          invariant text == PagesText(pages[..i])
          invariant |text| <= TextCap
          invariant ScanFrom(pages, i) == ScanFrom(pages, 0)
        {
          match pages[i] {
            case Raises =>
              failed := true;
              break;
            case Extracted(t) =>
              var pageText := t.GetOr("");
              text := text + pageText;
              PagesTextSnoc(pages, i);
              if |text| > TextCap {
                truncated := true;
                break;
              }
          }
          i := i + 1;
        }
        if i == |pages| {
          assert pages[..i] == pages;
        }
        r := Extraction(text, truncated, failed);
    }
  }
}
