/**
 * The fish-detector frame hook (vhook/fish.c): integer RGB to HSV
 * conversion, the clamping of configured HSV ranges, and the gating in
 * `Process`, which analyses at most one frame per interval of presentation
 * time, counts the visited pixels whose colour lies in the configured
 * range, and selects the frame for saving when the in-range
 * share reaches the threshold and the directory holds fewer saved images
 * than the limit.
 *
 * The YUV to RGB conversion through the crop table, the walk of the plane
 * pointers, the directory scan and the image writing are outside the model:
 * `Process` takes the colour the plane pointers reach at each pair of loop
 * counters, and the count of saved images last found in the directory.
 * The plane pointers start at the frame's first byte whatever the inset:
 * the inset only shortens the loops, and the pixels reached are not those
 * of an inset window.
 */
module Fish {

  /** A colour as hue (degrees), saturation and value. */
  datatype Hsv = Hsv(h: int, s: int, v: int)

  /** The configured lower and upper bound of one HSV component. */
  datatype Bounds = Bounds(dark: int, bright: int)

  /** What `Process` did with a frame. */
  datatype Outcome =
    | Skipped
      /** Let through by the gate, but not in the planar YUV 4:2:0 format. */
    | NotPlanar
    | Analysed(inrange: nat, pixcnt: nat, selected: bool)

  /** The loop-counter bounds: rows `hEnd < h <= hStart` in steps of two, columns `wEnd < w <= wStart`. */
  datatype Window = Window(hStart: int, hEnd: int, wStart: int, wEnd: int)

  /** The inset, in percent, that shortens both loops; no option changes it. */
  const INSET: int := 10
  /** The least gap in presentation time between two analysed frames. */
  const FRAME_GAP: int := 1000000

  predicate IsByte(x: int) {
    0 <= x <= 255
  }

  function Max3(r: int, g: int, b: int): int {
    var m := if r > g then r else g;
    if b > m then b else m
  }

  function Min3(r: int, g: int, b: int): int {
    var m := if r < g then r else g;
    if b < m then b else m
  }

  /** C's division, which truncates toward zero, for a positive divisor. */
  function CDiv(a: int, d: int): int
    requires d > 0
  {
    if a >= 0 then a / d else -((-a) / d)
  }

  /** The remainder of C's division has the sign of the dividend and is smaller than the divisor. */
  lemma CDivRemainder(a: int, d: int)
    requires d > 0
    ensures a >= 0 ==> 0 <= a - CDiv(a, d) * d < d
    ensures a < 0 ==> -d < a - CDiv(a, d) * d <= 0
  {
  }

  /** A quotient of a dividend of at most `k` divisors is at most `k`. */
  lemma QuotientAtMost(a: int, d: int, k: int)
    requires d > 0 && k >= 0 && 0 <= a <= k * d
    ensures CDiv(a, d) <= k
  {
    CDivRemainder(a, d);
  }

  /** A quotient of a dividend of at least one divisor is at least one. */
  lemma QuotientAtLeastOne(a: int, d: int)
    requires d > 0 && a >= d
    ensures CDiv(a, d) >= 1
  {
    CDivRemainder(a, d);
  }

  /** `60 * f / d` with `0 <= f <= d` lies in 0..60. */
  lemma SixtiethsOfPart(f: int, d: int)
    requires d > 0 && 0 <= f <= d
    ensures 0 <= CDiv(60 * f, d) <= 60
  {
    var a := 60 * f;
    assert 0 <= a <= 60 * d;
    QuotientAtMost(a, d, 60);
  }

  /** `60 * f / d` with `|f| <= d` lies within 60 of zero and has the sign of `f`. */
  lemma SixtiethsBounded(f: int, d: int)
    requires d > 0 && -d <= f <= d
    ensures -60 <= CDiv(60 * f, d) <= 60
    ensures f >= 0 ==> CDiv(60 * f, d) >= 0
    ensures f <= 0 ==> CDiv(60 * f, d) <= 0
  {
    if f >= 0 {
      SixtiethsOfPart(f, d);
    } else {
      SixtiethsOfPart(-f, d);
      assert 60 * f == -(60 * -f);
      assert CDiv(60 * f, d) == -CDiv(60 * -f, d);
    }
  }

  /** `255 * (v - x) / v` for `0 <= x < v <= 255` lies in 1..255. */
  lemma SpreadOverValue(v: int, x: int)
    requires 0 <= x < v <= 255
    ensures 1 <= CDiv(255 * (v - x), v) <= 255
  {
    var a := 255 * (v - x);
    assert v <= a <= 255 * v;
    QuotientAtMost(a, v, 255);
    QuotientAtLeastOne(a, v);
  }

  /**
   * get_hsv for colour components from the crop table: the value is the
   * largest component; a grey has hue and saturation 0; otherwise the hue
   * is taken from the largest component (red before green before blue) and
   * wrapped into 0..359, and the saturation is the spread over the value.
   */
  function GetHsv(r: int, g: int, b: int): (hsv: Hsv)
    requires IsByte(r) && IsByte(g) && IsByte(b)
    ensures hsv.v == Max3(r, g, b)
    ensures Max3(r, g, b) == Min3(r, g, b) ==> hsv.h == 0 && hsv.s == 0
    ensures 0 <= hsv.h < 360
    ensures 0 <= hsv.s <= 255
  {
    var x := Min3(r, g, b);
    var v := Max3(r, g, b);
    if v == x then Hsv(0, 0, v)
    else
      var (f, i) := if r == v then (g - b, 0) else if g == v then (b - r, 2 * 60) else (r - g, 4 * 60);
      SixtiethsBounded(f, v - x);
      var h0 := i + CDiv(60 * f, v - x);
      var h := if h0 < 0 then h0 + 360 else h0;
      SpreadOverValue(v, x);
      Hsv(h, CDiv(255 * (v - x), v), v)
  }

  /**
   * The hue lies in the sector of the largest component: within 60 degrees
   * of red (0), green (120) or blue (240), ties going to red, then green.
   */
  lemma HueSector(r: int, g: int, b: int)
    requires IsByte(r) && IsByte(g) && IsByte(b) && Max3(r, g, b) != Min3(r, g, b)
    ensures var h := GetHsv(r, g, b).h;
            (r == Max3(r, g, b) ==> h <= 60 || 300 <= h)
            && (r != Max3(r, g, b) && g == Max3(r, g, b) ==> 60 <= h <= 180)
            && (r != Max3(r, g, b) && g != Max3(r, g, b) ==> 180 <= h <= 300)
  {
    var x := Min3(r, g, b);
    var v := Max3(r, g, b);
    if r == v {
      SixtiethsBounded(g - b, v - x);
    } else if g == v {
      SixtiethsBounded(b - r, v - x);
    } else {
      SixtiethsBounded(r - g, v - x);
    }
  }

  /** The saturation is 0 exactly for greys: any spread gives at least 1. */
  lemma SaturationZeroIffGrey(r: int, g: int, b: int)
    requires IsByte(r) && IsByte(g) && IsByte(b)
    ensures GetHsv(r, g, b).s == 0 <==> Max3(r, g, b) == Min3(r, g, b)
  {
    var x := Min3(r, g, b);
    var v := Max3(r, g, b);
    if v != x {
      SpreadOverValue(v, x);
    }
  }

  /**
   * dorange: `scanned` holds the numbers sscanf assigned, in order; a bound
   * it did not assign keeps its old value. Each bound is then lowered to
   * `maxval` if above it; nothing raises a bound.
   */
  function DoRange(scanned: seq<int>, old_: Bounds, maxval: int): (r: Bounds)
    requires |scanned| <= 2
    ensures var first := if |scanned| >= 1 then scanned[0] else old_.dark;
            r.dark <= maxval && (r.dark == first || r.dark == maxval)
            && (first <= maxval ==> r.dark == first)
    ensures var second := if |scanned| == 2 then scanned[1] else old_.bright;
            r.bright <= maxval && (r.bright == second || r.bright == maxval)
            && (second <= maxval ==> r.bright == second)
  {
    var first := if |scanned| >= 1 then scanned[0] else old_.dark;
    var second := if |scanned| == 2 then scanned[1] else old_.bright;
    Bounds(if first > maxval then maxval else first, if second > maxval then maxval else second)
  }

  /** Clamping bounds that are already clamped changes nothing. */
  lemma DoRangeIdempotent(scanned: seq<int>, b: Bounds, maxval: int)
    requires |scanned| <= 2
    ensures DoRange([], DoRange(scanned, b, maxval), maxval) == DoRange(scanned, b, maxval)
  {
    var r := DoRange(scanned, b, maxval);
    var r2 := DoRange([], r, maxval);
    assert r2.dark == r.dark && r2.bright == r.bright;
  }

  /** A colour lies in the configured range in all three components. */
  predicate InRange(hsv: Hsv, dark: Hsv, bright: Hsv) {
    dark.h <= hsv.h <= bright.h && dark.s <= hsv.s <= bright.s && dark.v <= hsv.v <= bright.v
  }

  /** A colour the plane pointers reach, after the crop table: three bytes. */
  datatype Rgb = Rgb(r: int, g: int, b: int)

  ghost predicate RgbBytes(pixel: (int, int) -> Rgb) {
    forall h: int, w: int :: IsByte(pixel(h, w).r) && IsByte(pixel(h, w).g) && IsByte(pixel(h, w).b)
  }

  function HsvAt(pixel: (int, int) -> Rgb, h: int, w: int): Hsv
    requires RgbBytes(pixel)
  {
    var c := pixel(h, w);
    GetHsv(c.r, c.g, c.b)
  }

  /** In-range pixels of row `h`, columns `wEnd < w' <= w`. */
  function InRangeCols(pixel: (int, int) -> Rgb, dark: Hsv, bright: Hsv, h: int, w: int, wEnd: int): (n: nat)
    requires RgbBytes(pixel)
    ensures n <= if w > wEnd then w - wEnd else 0
    decreases w - wEnd
  {
    if w <= wEnd then 0
    else (if InRange(HsvAt(pixel, h, w), dark, bright) then 1 else 0)
         + InRangeCols(pixel, dark, bright, h, w - 1, wEnd)
  }

  /** In-range pixels of rows `hEnd < h' <= h` stepping by two, columns as in `win`. */
  function InRangeRows(pixel: (int, int) -> Rgb, dark: Hsv, bright: Hsv, h: int, win: Window): nat
    requires RgbBytes(pixel)
    decreases h - win.hEnd
  {
    if h <= win.hEnd then 0
    else InRangeCols(pixel, dark, bright, h, win.wStart, win.wEnd)
         + InRangeRows(pixel, dark, bright, h - 2, win)
  }

  /** The rows the loop visits from `h` down, stepping by two. */
  function RowsFrom(h: int, hEnd: int): nat {
    if h > hEnd then (h - hEnd + 1) / 2 else 0
  }

  function Cols(win: Window): nat {
    if win.wStart > win.wEnd then win.wStart - win.wEnd else 0
  }

  /** The number of pixels the loops visit. */
  function Visited(win: Window): nat {
    RowsFrom(win.hStart, win.hEnd) * Cols(win)
  }

  lemma MulSucc(a: nat, b: nat)
    ensures (a + 1) * b == a * b + b
  {
  }

  /** No more pixels are in range than the loops visit. */
  lemma {:induction false} InRangeRowsBound(pixel: (int, int) -> Rgb, dark: Hsv, bright: Hsv, h: int, win: Window)
    requires RgbBytes(pixel)
    ensures InRangeRows(pixel, dark, bright, h, win) <= RowsFrom(h, win.hEnd) * Cols(win)
    decreases h - win.hEnd
  {
    if h > win.hEnd {
      InRangeRowsBound(pixel, dark, bright, h - 2, win);
      var rest := RowsFrom(h - 2, win.hEnd);
      assert RowsFrom(h, win.hEnd) == rest + 1;
      MulSucc(rest, Cols(win));
    }
  }

  /**
   * The loop-counter bounds for a `width` by `height` frame: the row counter
   * runs down from the height and stops above an even number, the inset
   * share of the height; the column counter runs down from the half width
   * and stops above the inset share of the half width. The loops run that
   * many fewer times; no row or column is skipped at the frame's edge.
   */
  function WindowOf(width: nat, height: nat): (win: Window)
    ensures 0 <= win.hEnd <= win.hStart == height - win.hEnd
    ensures 0 <= win.wEnd <= win.wStart == width / 2 - win.wEnd
    ensures win.hEnd % 2 == 0
    ensures 100 * win.hEnd <= INSET * height < 100 * (win.hEnd + 2)
    ensures 100 * win.wEnd <= INSET * (width / 2) < 100 * (win.wEnd + 1)
  {
    var hEnd := 2 * ((INSET * height) / 200);
    var width2 := width / 2;
    var wEnd := (INSET * width2) / 100;
    Window(height - hEnd, hEnd, width2 - wEnd, wEnd)
  }

  /**
   * The pixel count as written: half the row span, rounded down, times the
   * column span. The row loop visits half the span rounded up.
   */
  function PixCountAsWritten(win: Window): int {
    ((win.hStart - win.hEnd) / 2) * (win.wStart - win.wEnd)
  }

  /**
   * A one-row frame 640 wide: the count as written is 0, and the threshold
   * test divides by it, although 256 pixels were visited.
   */
  lemma OneRowFrameCountsNothing()
    ensures WindowOf(640, 1) == Window(1, 0, 288, 32)
    ensures PixCountAsWritten(WindowOf(640, 1)) == 0
    ensures Visited(WindowOf(640, 1)) == 256
  {
  }

  /**
   * A three-row frame 640 wide: the count as written is 256 while 512 pixels
   * are visited, so an all-in-range frame scores 2000 per mille.
   */
  lemma OddHeightUndercounts()
    ensures WindowOf(640, 3) == Window(3, 0, 288, 32)
    ensures PixCountAsWritten(WindowOf(640, 3)) == 256
    ensures Visited(WindowOf(640, 3)) == 512
    ensures Visited(WindowOf(640, 3)) * 1000 / PixCountAsWritten(WindowOf(640, 3)) == 2000
  {
  }

  /** With the visited count, the in-range share never exceeds 1000 per mille. */
  lemma SharePerMilleAtMost(inrange: nat, pixcnt: nat)
    requires 0 < pixcnt && inrange <= pixcnt
    ensures inrange * 1000 / pixcnt <= 1000
  {
    assert inrange * 1000 <= 1000 * pixcnt;
    QuotientAtMost(inrange * 1000, pixcnt, 1000);
  }

  /**
   * The column loop of `Process` for row `h`: counts the pixels of the row,
   * from column `win.wStart` down to just above `win.wEnd`, whose colour
   * lies in the range.
   */
  method CountRow(pixel: (int, int) -> Rgb, dark: Hsv, bright: Hsv, h: int, win: Window) returns (n: nat)
    requires RgbBytes(pixel)
    ensures n == InRangeCols(pixel, dark, bright, h, win.wStart, win.wEnd)
  {
    n := 0;
    var w := win.wStart;
    while w > win.wEnd
      invariant n + InRangeCols(pixel, dark, bright, h, w, win.wEnd)
                == InRangeCols(pixel, dark, bright, h, win.wStart, win.wEnd)
      decreases w - win.wEnd
    {
      var c := pixel(h, w);
      var hsv := GetHsv(c.r, c.g, c.b);
      if InRange(hsv, dark, bright) {
        n := n + 1;
      }
      w := w - 1;
    }
  }

  /**
   * The nested row and column loops of `Process`: counts the visited pixels
   * whose colour lies in the range, every second row from `win.hStart`.
   */
  method CountInRange(pixel: (int, int) -> Rgb, dark: Hsv, bright: Hsv, win: Window) returns (inrange: nat)
    requires RgbBytes(pixel)
    ensures inrange == InRangeRows(pixel, dark, bright, win.hStart, win)
    ensures inrange <= Visited(win)
  {
    inrange := 0;
    var h := win.hStart;
    while h > win.hEnd
      invariant inrange + InRangeRows(pixel, dark, bright, h, win)
                == InRangeRows(pixel, dark, bright, win.hStart, win)
      decreases h - win.hEnd
    {
      var row := CountRow(pixel, dark, bright, h, win);
      inrange := inrange + row;
      h := h - 2;
    }
    InRangeRowsBound(pixel, dark, bright, win.hStart, win);
  }

  /** The hook's configuration and its throttle. */
  class FishContext {
    var zapping: bool
    var threshold: int
    var dark: Hsv
    var bright: Hsv
    var fileLimit: int
    var minInterval: int
    var minWidth: int
    /** The earliest presentation time of the next frame to analyse. */
    var nextPts: int

    /** A configured context, with the throttle open. */
    constructor(zapping: bool, threshold: int, dark: Hsv, bright: Hsv,
                fileLimit: int, minInterval: int, minWidth: int)
      ensures this.zapping == zapping && this.threshold == threshold
      ensures this.dark == dark && this.bright == bright
      ensures this.fileLimit == fileLimit && this.minInterval == minInterval
      ensures this.minWidth == minWidth && nextPts == 0
    {
      this.zapping := zapping;
      this.threshold := threshold;
      this.dark := dark;
      this.bright := bright;
      this.fileLimit := fileLimit;
      this.minInterval := minInterval;
      this.minWidth := minWidth;
      nextPts := 0;
    }

    /**
     * Process: a frame before `nextPts` or narrower than `minWidth` is
     * skipped and changes nothing. Any other frame moves `nextPts` one
     * second on; a planar YUV 4:2:0 frame is then analysed, and selected for
     * saving when its in-range share of the visited pixels reaches the
     * threshold and fewer than `fileLimit` images were found, which moves
     * `nextPts` to `minInterval` after the frame instead.
     */
    method Process(yuv420p: bool, width: nat, height: nat, pts: int,
                   pixel: (int, int) -> Rgb, foundFile: int) returns (outcome: Outcome)
      requires RgbBytes(pixel)
      modifies this
      ensures zapping == old(zapping) && threshold == old(threshold) && dark == old(dark)
      ensures bright == old(bright) && fileLimit == old(fileLimit)
      ensures minInterval == old(minInterval) && minWidth == old(minWidth)
      ensures pts < old(nextPts) || width < minWidth ==> outcome == Skipped && nextPts == old(nextPts)
      ensures !(pts < old(nextPts) || width < minWidth) && !yuv420p ==>
                outcome == NotPlanar && nextPts == pts + FRAME_GAP
      ensures !(pts < old(nextPts) || width < minWidth) && yuv420p ==>
                outcome.Analysed?
                && outcome.inrange == InRangeRows(pixel, dark, bright, WindowOf(width, height).hStart, WindowOf(width, height))
                && outcome.pixcnt == Visited(WindowOf(width, height))
                && outcome.inrange <= outcome.pixcnt
                && (outcome.selected <==>
                      (outcome.pixcnt > 0 && outcome.inrange * 1000 / outcome.pixcnt >= threshold
                       && foundFile < fileLimit))
                && nextPts == if outcome.selected then pts + minInterval else pts + FRAME_GAP
    {
      if pts < nextPts {
        return Skipped;
      }
      if width < minWidth {
        return Skipped;
      }
      nextPts := pts + FRAME_GAP;
      if !yuv420p {
        return NotPlanar;
      }
      var win := WindowOf(width, height);
      var pixcnt := Visited(win);
      var inrange := CountInRange(pixel, dark, bright, win);
      var selected := false;
      if pixcnt > 0 && inrange * 1000 / pixcnt >= threshold {
        if foundFile < fileLimit {
          selected := true;
          nextPts := pts + minInterval;
        }
      }
      outcome := Analysed(inrange, pixcnt, selected);
    }
  }

  /**
   * A threshold above 1000 per mille selects no frame: with the visited
   * count the share cannot exceed the whole.
   */
  lemma HighThresholdSelectsNothing(inrange: nat, pixcnt: nat, threshold: int)
    requires inrange <= pixcnt && threshold > 1000
    ensures !(pixcnt > 0 && inrange * 1000 / pixcnt >= threshold)
  {
    if pixcnt > 0 {
      SharePerMilleAtMost(inrange, pixcnt);
    }
  }
}
