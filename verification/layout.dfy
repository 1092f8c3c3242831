/**
 * The layout arithmetic of `merge_pdf_to_image`: pages, known only by their
 * (width, height), are stacked top to bottom on one canvas as wide as the widest
 * page and as tall as all pages together.
 */
module PdfLayout {
  import opened Wrappers

  /** A rendered page's (width, height) in pixels. */
  type Size = (nat, nat)

  /** Where a page is pasted: its top-left corner on the canvas. */
  datatype Placement = Placement(x: nat, y: nat)

  /** The merged image: its dimensions and where each page goes, in page order. */
  datatype Canvas = Canvas(width: nat, height: nat, placements: seq<Placement>)

  const NoPagesPrefix := "No pages found in PDF: "

  /** `sum(heights)` over the given pages. */
  function TotalHeight(pages: seq<Size>): nat {
    if |pages| == 0 then 0 else TotalHeight(pages[..|pages| - 1]) + pages[|pages| - 1].1
  }

  /** The top of page `k`: the heights of the pages before it, added up. */
  function Top(pages: seq<Size>, k: nat): nat
    requires k <= |pages|
  {
    TotalHeight(pages[..k])
  }

  lemma TopStep(pages: seq<Size>, k: nat)
    requires k < |pages|
    ensures Top(pages, k + 1) == Top(pages, k) + pages[k].1
  {
    assert pages[..k + 1][..k] == pages[..k];
  }

  lemma {:induction false} TopBounded(pages: seq<Size>, k: nat)
    requires k <= |pages|
    ensures Top(pages, k) <= TotalHeight(pages)
    decreases |pages| - k
  {
    if k < |pages| {
      TopStep(pages, k);
      TopBounded(pages, k + 1);
    } else {
      assert pages[..k] == pages;
    }
  }

  /**
   * Measure, allocate, paste. With no pages the result is the `ValueError` raised
   * for an empty page list, and no canvas; otherwise the canvas is (max width,
   * sum of heights) and page `k` is pasted at x = 0, y = the heights of pages
   * 0..k-1 added up.
   */
  method MergeLayout(pdfPath: string, pages: seq<Size>) returns (r: Result<Canvas>)
    ensures r.Err? <==> |pages| == 0
    ensures r.Err? ==> r.error == NoPagesPrefix + pdfPath
    ensures r.Ok? ==> forall k :: 0 <= k < |pages| ==> pages[k].0 <= r.value.width
    ensures r.Ok? ==> exists k :: 0 <= k < |pages| && pages[k].0 == r.value.width
    ensures r.Ok? ==> r.value.height == TotalHeight(pages)
    ensures r.Ok? ==> |r.value.placements| == |pages|
    ensures r.Ok? ==> forall k :: 0 <= k < |pages| ==> r.value.placements[k] == Placement(0, Top(pages, k))
    ensures r.Ok? ==> forall k :: 0 <= k < |pages| ==> r.value.placements[k].y + pages[k].1 <= r.value.height
  {
    if |pages| == 0 {
      return Err(NoPagesPrefix + pdfPath);
    }
    // max(widths), sum(heights)
    var maxWidth := pages[0].0;
    var totalHeight := 0;
    var i := 0;
    while i < |pages|
      invariant 0 <= i <= |pages|
      invariant forall k :: 0 <= k < i ==> pages[k].0 <= maxWidth
      invariant exists k :: 0 <= k < |pages| && pages[k].0 == maxWidth
      invariant totalHeight == Top(pages, i)
    {
      if pages[i].0 > maxWidth {
        maxWidth := pages[i].0;
      }
      TopStep(pages, i);
      totalHeight := totalHeight + pages[i].1;
      i := i + 1;
    }
    assert pages[..|pages|] == pages;
    // paste each page below the previous one
    var placements: seq<Placement> := [];
    var yOffset := 0;
    i := 0;
    while i < |pages|
      invariant 0 <= i <= |pages|
      invariant |placements| == i
      invariant yOffset == Top(pages, i)
      invariant forall k :: 0 <= k < i ==> placements[k] == Placement(0, Top(pages, k))
    {
      placements := placements + [Placement(0, yOffset)];
      TopStep(pages, i);
      yOffset := yOffset + pages[i].1;
      i := i + 1;
    }
    assert yOffset == totalHeight;
    BandsTileCanvas(pages);
    return Ok(Canvas(maxWidth, totalHeight, placements));
  }

  /**
   * The bands tile the canvas: each page starts where the previous one ends, every
   * page ends inside the canvas, and the last one ends exactly at its bottom.
   */
  lemma BandsTileCanvas(pages: seq<Size>)
    ensures forall k :: 0 <= k < |pages| ==> Top(pages, k + 1) == Top(pages, k) + pages[k].1
    ensures forall k :: 0 <= k < |pages| ==> Top(pages, k) + pages[k].1 <= TotalHeight(pages)
    ensures Top(pages, 0) == 0 && Top(pages, |pages|) == TotalHeight(pages)
  {
    forall k | 0 <= k < |pages|
      ensures Top(pages, k + 1) == Top(pages, k) + pages[k].1
      ensures Top(pages, k) + pages[k].1 <= TotalHeight(pages)
    {
      TopStep(pages, k);
      TopBounded(pages, k + 1);
    }
    assert pages[..|pages|] == pages;
  }
}
