/**
  media/thumbnail.go's scale: the target size, and the nested box-sampling loops.
 */
module Thumbnail {
  import opened Basics
  import opened Float64
  import opened Cuts
  import opened Boxes

  type Byte = x: int | 0 <= x < 256

  function Max(a: int, b: int): int {
    if a > b then a else b
  }

  predicate Fits(w: nat, h: nat, maxEdge: int) {
    w == 0 || h == 0 || (w <= maxEdge && h <= maxEdge)
  }

  /** float64(short) * float64(edge) / float64(long), before the conversion back. */
  function Proportion(short: nat, edge: nat, long: nat): (x: real)
    requires long >= 1
    ensures x >= 0.0
  {
    var product := Product(Float(short), Float(edge));
    RoundError(product);
    RoundError(Round(product) / Float(long));
    Round(Round(product) / Float(long))
  }

  /** int(..) of it: truncated towards zero, whatever the sign of maxEdge. */
  function Shrunk(short: nat, maxEdge: int, long: nat): int
    requires long >= 1
  {
    if maxEdge < 0 then -Proportion(short, -maxEdge, long).Floor else Proportion(short, maxEdge, long).Floor
  }

  function TargetSize(w: nat, h: nat, maxEdge: int): (int, int)
    requires w > 0 && h > 0
  {
    if w >= h then (Max(maxEdge, 1), Max(Shrunk(h, maxEdge, w), 1))
    else (Max(Shrunk(w, maxEdge, h), 1), Max(maxEdge, 1))
  }

  /** While the product is below 2^51 the rounding is not felt. */
  lemma ShrunkIsExact(short: nat, edge: nat, long: nat)
    requires 1 <= long < EDGE && short * edge < EDGE && short < EDGE && edge < EDGE
    ensures Shrunk(short, edge, long) == short * edge / long
  {
    hide Product, Round;
    var p := short * edge;
    FloatIs(short);
    FloatIs(edge);
    FloatIs(long);
    RealProduct(short, edge);
    RoundInteger(p);
    assert Proportion(short, edge, long) == Round(p as real / long as real);
    FloorSurvives(p, long);
  }

  lemma FloorSurvives(p: nat, q: nat)
    requires 1 <= q < EDGE && p < EDGE
    ensures p as real / q as real >= 0.0
    ensures Round(p as real / q as real).Floor == p / q
  {
    hide Product, Round;
    var f, x := p / q, p as real / q as real;
    QuotientBetween(p, q);
    RoundInteger(f);
    RoundMonotone(f as real, x);
    RoundError(x);
    ErrorScales(q as real, x, Round(x), p as real);
    BelowNext(Round(x), p, q, f);
  }

  lemma QuotientBetween(p: nat, q: nat)
    requires 1 <= q
    ensures var x := p as real / q as real;
      0.0 <= x && (p / q) as real <= x && Product(x, q as real) == p as real && p / q <= p
  {
    var f, x := p / q, p as real / q as real;
    assert p == q * f + p % q;
    RealProduct(q, f);
    assert x * q as real == p as real;
    ProductCommutes(f as real, q as real);
    if x < f as real {
      ProductMonotone(x, f as real, q as real);
    }
    AtLeastItself(f, q);
  }

  lemma BelowNext(z: real, p: nat, q: nat, f: nat)
    requires 1 <= q && f == p / q && p < EDGE && z >= f as real
    requires 2.0 * BASE * (Product(z, q as real) - p as real) <= p as real
    ensures z.Floor == f
  {
    hide Product;
    NextMultiple(p, q);
    RealProduct(f + 1, q);
    LessThanOneMore(Product(z, q as real), p);
    ProductLess(z, (f + 1) as real, q as real);
  }

  lemma NextMultiple(p: nat, q: nat)
    requires 1 <= q
    ensures p + 1 <= (p / q + 1) * q
  {
    assert p == q * (p / q) + p % q;
  }

  lemma LessThanOneMore(x: real, p: nat)
    requires p < EDGE && 2.0 * BASE * (x - p as real) <= p as real
    ensures x < (p + 1) as real
  {
  }

  lemma ProductLess(a: real, b: real, r: real)
    requires r >= 0.0 && Product(a, r) < Product(b, r)
    ensures a < b
  {
    if b <= a {
      ProductMonotone(b, a, r);
    }
  }

  /** The short edge of an image whose long edge, `long`, becomes maxEdge. */
  lemma ShortEdge(long: nat, short: nat, maxEdge: nat)
    requires 1 <= short <= long && 1 <= maxEdge < long
    ensures 1 <= Max(short * maxEdge / long, 1) <= maxEdge
    ensures Max(short * maxEdge / long, 1) <= short
    ensures var s := Max(short * maxEdge / long, 1);
            short * maxEdge < (s + 1) * long && (s * long <= short * maxEdge || s == 1)
  {
    Grows(maxEdge, short, long);
    Grows(short, maxEdge, long);
    QuotientWithin(0, long, short * maxEdge, maxEdge);
    QuotientWithin(0, long, short * maxEdge, short);
    var q := short * maxEdge / long;
    assert short * maxEdge == long * q + short * maxEdge % long;
    assert (q + 1) * long == long * q + long;
    if q == 0 {
      assert (1 + 1) * long > long;
    }
  }

  lemma Grows(n: nat, a: nat, b: nat)
    requires a <= b
    ensures a * n <= b * n && a * n == n * a && b * n == n * b
  {
  }

  /** Sizes whose products a float64 holds exactly, with room to spare. */
  predicate Manageable(w: nat, h: nat, maxEdge: int) {
    w < EDGE && h < EDGE && (maxEdge >= 0 ==> w * maxEdge < EDGE && h * maxEdge < EDGE && maxEdge < EDGE)
  }

  /**
    An image that does not fit gets a longest edge of exactly maxEdge, the other edge rounded
    down from the true proportion but never to nothing, and never more pixels than it had.
   */
  lemma SizeKeepsProportion(w: nat, h: nat, maxEdge: nat)
    requires 1 <= maxEdge && !Fits(w, h, maxEdge) && Manageable(w, h, maxEdge)
    ensures var (dw, dh) := TargetSize(w, h, maxEdge);
      && Max(dw, dh) == maxEdge && 1 <= dw <= w && 1 <= dh <= h
      && (w >= h ==> h * maxEdge < (dh + 1) * w && (dh * w <= h * maxEdge || dh == 1))
      && (w < h ==> w * maxEdge < (dw + 1) * h && (dw * h <= w * maxEdge || dw == 1))
  {
    hide Shrunk;
    if w >= h {
      ShrunkIsExact(h, maxEdge, w);
      ShortEdge(w, h, maxEdge);
    } else {
      ShrunkIsExact(w, maxEdge, h);
      ShortEdge(h, w, maxEdge);
    }
  }

  lemma SizeShrinks(w: nat, h: nat, maxEdge: int)
    requires !Fits(w, h, maxEdge) && Manageable(w, h, maxEdge)
    ensures 1 <= TargetSize(w, h, maxEdge).0 <= w && 1 <= TargetSize(w, h, maxEdge).1 <= h
  {
    if maxEdge >= 1 {
      SizeKeepsProportion(w, h, maxEdge);
    } else {
      NoEdge(w, h, maxEdge);
    }
  }

  lemma NoEdge(w: nat, h: nat, maxEdge: int)
    requires w > 0 && h > 0 && maxEdge <= 0
    ensures TargetSize(w, h, maxEdge) == (1, 1)
  {
    hide Round;
    if maxEdge == 0 {
      NothingTimes(w, h);
      NothingTimes(h, w);
    }
  }

  lemma NothingTimes(short: nat, long: nat)
    requires long >= 1
    ensures Proportion(short, 0, long) == 0.0
  {
    RoundError(0.0);
    assert Float(0) == 0.0;
    assert Product(Float(short), 0.0) == 0.0;
  }

  // ---- One destination pixel ----

  /** Where the loops over window k stop: its own end, at least one past its start, but not past the edge. */
  function High(k: nat, n: nat, m: nat): (hi: nat)
    requires n >= 1
    ensures Cut(k, n, m) <= hi
  {
    var lo := Cut(k, n, m);
    Clip(lo, if Cut(k + 1, n, m) <= lo then lo + 1 else Cut(k + 1, n, m), m)
  }

  function Clip(lo: nat, hi: nat, m: nat): (r: nat)
    requires lo <= hi
    ensures lo <= r <= hi
  {
    if hi <= m then hi else if lo <= m then m else lo
  }

  /** How many source pixels the box of (x, y) holds. */
  function BoxSize(src: Source, dw: nat, dh: nat, x: nat, y: nat): nat
    requires dw >= 1 && dh >= 1
  {
    Area(High(x, dw, src.width) - Cut(x, dw, src.width), High(y, dh, src.height) - Cut(y, dh, src.height))
  }

  function Area(a: nat, b: nat): (n: nat)
    ensures n == 0 <==> a == 0 || b == 0
  {
    a * b
  }

  function BoxTotal(src: Source, dw: nat, dh: nat, x: nat, y: nat): Sums
    requires dw >= 1 && dh >= 1
  {
    BoxSum(src, Cut(x, dw, src.width), High(x, dw, src.width), Cut(y, dh, src.height), High(y, dh, src.height))
  }

  lemma HighIsNextCut(k: nat, n: nat, m: nat)
    requires 1 <= n <= m < EDGE && k < n
    ensures Cut(k, n, m) < High(k, n, m) == Cut(k + 1, n, m)
  {
    hide Cut;
    CodeCuts(n, m);
    CutAdvances(k, n, m);
    CutsAscend(CutOf(n, m), k + 1, n, n, m);
  }

  /** The box the loops visit is the window of the cuts, and never empty. */
  lemma BoxIsSample(src: Source, dw: nat, dh: nat, x: nat, y: nat)
    requires 1 <= dw <= src.width < EDGE && 1 <= dh <= src.height < EDGE && x < dw && y < dh
    ensures BoxSize(src, dw, dh, x, y) >= 1
    ensures var cx, cy := CutOf(dw, src.width), CutOf(dh, src.height);
      cx(x) <= cx(x + 1) && cy(y) <= cy(y + 1)
      && BoxTotal(src, dw, dh, x, y) == Sample(src, cx, cy, x, y)
  {
    hide Cut, High, BoxSum, Area;
    HighIsNextCut(x, dw, src.width);
    HighIsNextCut(y, dh, src.height);
  }

  /** One channel of the average of n pixels. */
  function Mean(sum: nat, n: nat): nat {
    if n == 0 then 0 else sum / n
  }

  /** The average is rounded down; an empty box has none. */
  lemma MeanRoundsDown(sum: nat, n: nat)
    ensures n >= 1 ==> n * Mean(sum, n) <= sum < n * Mean(sum, n) + n
    ensures n == 0 ==> Mean(sum, n) == 0
  {
    if n >= 1 {
      assert sum == n * (sum / n) + sum % n;
    }
  }

  /** Each channel of the average lies between any bounds the box's pixels have. */
  lemma AverageIsWithin(src: Source, dw: nat, dh: nat, x: nat, y: nat, lo: Pixel, hi: Pixel)
    requires dw >= 1 && dh >= 1 && BoxSize(src, dw, dh, x, y) >= 1
    requires forall sx: nat, sy: nat | Cut(x, dw, src.width) <= sx < High(x, dw, src.width)
                                       && Cut(y, dh, src.height) <= sy < High(y, dh, src.height) ::
               Within(lo, src.at(sx, sy), hi)
    ensures var s, n := BoxTotal(src, dw, dh, x, y), BoxSize(src, dw, dh, x, y);
      && lo.r <= Mean(s.r, n) <= hi.r && lo.g <= Mean(s.g, n) <= hi.g
      && lo.b <= Mean(s.b, n) <= hi.b && lo.a <= Mean(s.a, n) <= hi.a
  {
    var x0, x1 := Cut(x, dw, src.width), High(x, dw, src.width);
    var y0, y1 := Cut(y, dh, src.height), High(y, dh, src.height);
    hide Cut, High, BoxSum;
    BoxWithin(src, x0, x1, y0, y1, lo, hi);
    AveragesWithin(lo, Area(x1 - x0, y1 - y0), BoxSum(src, x0, x1, y0, y1), hi);
  }

  lemma AveragesWithin(lo: Pixel, n: nat, s: Sums, hi: Pixel)
    requires n >= 1 && SumWithin(lo, n, s, hi)
    ensures lo.r <= s.r / n <= hi.r && lo.g <= s.g / n <= hi.g && lo.b <= s.b / n <= hi.b && lo.a <= s.a / n <= hi.a
  {
    QuotientWithin(lo.r, n, s.r, hi.r);
    QuotientWithin(lo.g, n, s.g, hi.g);
    QuotientWithin(lo.b, n, s.b, hi.b);
    QuotientWithin(lo.a, n, s.a, hi.a);
  }

  /** So it is a 16-bit channel, and its high byte a byte. */
  lemma MeanIsAChannel(src: Source, dw: nat, dh: nat, x: nat, y: nat)
    requires dw >= 1 && dh >= 1
    ensures var s, n := BoxTotal(src, dw, dh, x, y), BoxSize(src, dw, dh, x, y);
      Mean(s.r, n) < 65536 && Mean(s.g, n) < 65536 && Mean(s.b, n) < 65536 && Mean(s.a, n) < 65536
  {
    hide BoxTotal, Cut, High, BoxSize;
    if BoxSize(src, dw, dh, x, y) >= 1 {
      AverageIsWithin(src, dw, dh, x, y, Pixel(0, 0, 0, 0), Pixel(65535, 65535, 65535, 65535));
    }
  }

  /** The inner two loops. */
  method SumBox(src: Source, x0: nat, x1: nat, y0: nat, y1: nat) returns (s: Sums, n: nat)
    requires x0 <= x1 && y0 <= y1
    ensures s == BoxSum(src, x0, Clip(x0, x1, src.width), y0, Clip(y0, y1, src.height))
    ensures n == Area(Clip(x0, x1, src.width) - x0, Clip(y0, y1, src.height) - y0)
  {
    hide OfPixel, Area, Clip;
    var rs: nat, gs: nat, bs: nat, as_: nat := 0, 0, 0, 0;
    n := 0;
    ghost var right, bottom := Clip(x0, x1, src.width), Clip(y0, y1, src.height);
    NoRows(right - x0);
    var sy: nat := y0;
    ClipStops(y0, y1, src.height, sy);
    while sy < y1 && sy < src.height
      invariant y0 <= sy <= bottom && (sy < y1 && sy < src.height <==> sy < bottom)
      invariant Sums(rs, gs, bs, as_) == BoxSum(src, x0, right, y0, sy)
      invariant n == Area(right - x0, sy - y0)
    {
      ghost var before := Sums(rs, gs, bs, as_);
      var sx: nat := x0;
      ClipStops(x0, x1, src.width, sx);
      while sx < x1 && sx < src.width
        invariant x0 <= sx <= right && (sx < x1 && sx < src.width <==> sx < right)
        invariant Sums(rs, gs, bs, as_) == Plus(before, RowSum(src, sy, x0, sx))
        invariant n == Area(right - x0, sy - y0) + (sx - x0)
      {
        var p := src.at(sx, sy);
        AddPixel(before, RowSum(src, sy, x0, sx), p);
        rs, gs, bs, as_, n := rs + p.r, gs + p.g, bs + p.b, as_ + p.a, n + 1;
        sx := sx + 1;
        ClipStops(x0, x1, src.width, sx);
      }
      OneMoreRow(right - x0, sy - y0);
      sy := sy + 1;
      ClipStops(y0, y1, src.height, sy);
    }
    return Sums(rs, gs, bs, as_), n;
  }

  lemma ClipStops(lo: nat, hi: nat, m: nat, s: nat)
    requires lo <= hi && lo <= s <= Clip(lo, hi, m)
    ensures s < hi && s < m <==> s < Clip(lo, hi, m)
  {
  }

  lemma NoRows(w: nat)
    ensures Area(w, 0) == 0
  {
  }

  lemma OneMoreRow(w: nat, k: nat)
    ensures Area(w, k) + w == Area(w, k + 1)
  {
    NextRow(w, k);
  }

  lemma NextRow(w: nat, k: nat)
    ensures w * k + w == w * (k + 1)
  {
  }

  lemma AddPixel(s: Sums, t: Sums, p: Pixel)
    ensures Plus(s, Plus(t, OfPixel(p))) == Sums(s.r + t.r + p.r, s.g + t.g + p.g, s.b + t.b + p.b, s.a + t.a + p.a)
  {
  }

  // ---- The whole image ----

  class Rgba {
    const width: nat
    const height: nat
    const pix: array<Byte>

    constructor (width: nat, height: nat)
      ensures this.width == width && this.height == height
      ensures fresh(pix) && pix.Length == 4 * (width * height)
      ensures forall i | 0 <= i < pix.Length :: pix[i] == 0
    {
      this.width, this.height := width, height;
      pix := new Byte[4 * (width * height)](_ => 0);
    }
  }

  /** Where row y of w pixels begins. */
  function Start(y: nat, w: nat): nat {
    y * w
  }

  lemma NextStart(y: nat, w: nat, h: nat)
    requires y < h
    ensures Start(y, w) + w == Start(y + 1, w) <= w * h
    ensures Start(0, w) == 0 && Start(h, w) == w * h
  {
    NextRow(w, y);
    RowsFit(w, y + 1, h);
  }

  lemma KthOf(dw: nat, dh: nat, x: nat, y: nat)
    requires x < dw && y < dh
    ensures Start(y, dw) + x < dw * dh
    ensures (Start(y, dw) + x) % dw == x && (Start(y, dw) + x) / dw == y
  {
    NextRow(dw, y);
    QuotientIs(Start(y, dw) + x, dw, y, x);
    RowsFit(dw, y + 1, dh);
  }

  lemma RowsFit(n: nat, a: nat, b: nat)
    requires a <= b
    ensures n * a <= n * b
  {
  }

  /** The four bytes of the k-th pixel, in row order, are the high bytes of its average; an empty box leaves them 0. */
  predicate Painted(pix: seq<Byte>, src: Source, dw: nat, dh: nat, k: nat)
    requires dw >= 1 && dh >= 1 && k < dw * dh && |pix| == 4 * (dw * dh)
  {
    var x, y := k % dw, k / dw;
    var s, n := BoxTotal(src, dw, dh, x, y), BoxSize(src, dw, dh, x, y);
    && pix[4 * k] == Mean(s.r, n) / 256 && pix[4 * k + 1] == Mean(s.g, n) / 256
    && pix[4 * k + 2] == Mean(s.b, n) / 256 && pix[4 * k + 3] == Mean(s.a, n) / 256
  }

  /**
    Red, green, blue and alpha, in that order: each byte of a painted pixel lies between the
    high bytes of any bounds the pixels of its box have.  A plain image stays as it is.
   */
  lemma PaintedIsWithin(pix: seq<Byte>, src: Source, dw: nat, dh: nat, x: nat, y: nat, lo: Pixel, hi: Pixel)
    requires dw >= 1 && dh >= 1 && x < dw && y < dh && |pix| == 4 * (dw * dh) && Start(y, dw) + x < dw * dh
    requires Painted(pix, src, dw, dh, Start(y, dw) + x) && BoxSize(src, dw, dh, x, y) >= 1
    requires forall sx: nat, sy: nat | Cut(x, dw, src.width) <= sx < High(x, dw, src.width)
                                       && Cut(y, dh, src.height) <= sy < High(y, dh, src.height) ::
               Within(lo, src.at(sx, sy), hi)
    ensures var i := 4 * (Start(y, dw) + x);
      && lo.r / 256 <= pix[i] <= hi.r / 256 && lo.g / 256 <= pix[i + 1] <= hi.g / 256
      && lo.b / 256 <= pix[i + 2] <= hi.b / 256 && lo.a / 256 <= pix[i + 3] <= hi.a / 256
  {
    hide BoxTotal, BoxSize, Cut, High, Mean, Start;
    AverageIsWithin(src, dw, dh, x, y, lo, hi);
    KthOf(dw, dh, x, y);
  }

  /** The window of (x, y), and what the inner loops find in it. */
  method SampleBox(src: Source, dw: nat, dh: nat, x: nat, y: nat) returns (s: Sums, n: nat)
    requires dw >= 1 && dh >= 1
    ensures s == BoxTotal(src, dw, dh, x, y) && n == BoxSize(src, dw, dh, x, y)
  {
    hide Cut, BoxSum;
    var y0, y1 := Cut(y, dh, src.height), Cut(y + 1, dh, src.height);
    if y1 <= y0 {
      y1 := y0 + 1;
    }
    var x0, x1 := Cut(x, dw, src.width), Cut(x + 1, dw, src.width);
    if x1 <= x0 {
      x1 := x0 + 1;
    }
    s, n := SumBox(src, x0, x1, y0, y1);
  }

  /** One step of the two outer loops, on a pixel not painted before. */
  method PaintPixel(src: Source, dst: Rgba, x: nat, y: nat)
    requires dst.width >= 1 && dst.height >= 1 && x < dst.width && y < dst.height
    requires dst.pix.Length == 4 * (dst.width * dst.height) && Start(y, dst.width) + x < dst.width * dst.height
    requires forall i | 4 * (Start(y, dst.width) + x) <= i < 4 * (Start(y, dst.width) + x) + 4 :: dst.pix[i] == 0
    modifies dst.pix
    ensures Painted(dst.pix[..], src, dst.width, dst.height, Start(y, dst.width) + x)
    ensures forall i | 0 <= i < dst.pix.Length && !(4 * (Start(y, dst.width) + x) <= i < 4 * (Start(y, dst.width) + x) + 4) ::
              dst.pix[i] == old(dst.pix[i])
  {
    hide BoxTotal, BoxSize;
    var dw, dh := dst.width, dst.height;
    var s, n := SampleBox(src, dw, dh, x, y);
    KthOf(dw, dh, x, y);
    var i := 4 * (Start(y, dw) + x);
    if n == 0 {
      assert dst.pix[i] == 0 && dst.pix[i + 1] == 0 && dst.pix[i + 2] == 0 && dst.pix[i + 3] == 0;
      return;
    }
    MeanIsAChannel(src, dw, dh, x, y);
    dst.pix[i] := s.r / n / 256;
    dst.pix[i + 1] := s.g / n / 256;
    dst.pix[i + 2] := s.b / n / 256;
    dst.pix[i + 3] := s.a / n / 256;
  }

  /** scale; null stands for handing back the source itself. */
  method Scale(src: Source, maxEdge: int) returns (dst: Rgba?)
    ensures dst == null <==> Fits(src.width, src.height, maxEdge)
    ensures dst == null <==> src.width == 0 || src.height == 0 || (src.width <= maxEdge && src.height <= maxEdge)
    ensures dst != null ==>
              && fresh(dst) && fresh(dst.pix) && dst.width >= 1 && dst.height >= 1
              && (dst.width, dst.height) == TargetSize(src.width, src.height, maxEdge)
              && (Manageable(src.width, src.height, maxEdge) ==> dst.width <= src.width && dst.height <= src.height)
              && dst.pix.Length == 4 * (dst.width * dst.height)
              && forall k | 0 <= k < dst.width * dst.height :: Painted(dst.pix[..], src, dst.width, dst.height, k)
  {
    hide Painted;
    var w, h := src.width, src.height;
    if w <= 0 || h <= 0 {
      return null;
    }
    if w <= maxEdge && h <= maxEdge {
      return null;
    }
    var dw: int, dh: int := w, h;
    if w >= h {
      dw := maxEdge;
      dh := Shrunk(h, maxEdge, w);
    } else {
      dh := maxEdge;
      dw := Shrunk(w, maxEdge, h);
    }
    dw, dh := Max(dw, 1), Max(dh, 1);
    if Manageable(w, h, maxEdge) {
      SizeShrinks(w, h, maxEdge);
    }
    dst := new Rgba(dw, dh);
    PaintAll(src, dst);
  }

  method PaintAll(src: Source, dst: Rgba)
    requires dst.width >= 1 && dst.height >= 1 && dst.pix.Length == 4 * (dst.width * dst.height)
    requires forall i | 0 <= i < dst.pix.Length :: dst.pix[i] == 0
    modifies dst.pix
    ensures forall k | 0 <= k < dst.width * dst.height :: Painted(dst.pix[..], src, dst.width, dst.height, k)
  {
    hide Painted, Start;
    var dw, dh := dst.width, dst.height;
    NextStart(0, dw, dh);
    for y := 0 to dh
      invariant Start(y, dw) <= dw * dh
      invariant forall k | 0 <= k < Start(y, dw) :: Painted(dst.pix[..], src, dw, dh, k)
      invariant forall i | 4 * Start(y, dw) <= i < dst.pix.Length :: dst.pix[i] == 0
    {
      for x := 0 to dw
        invariant Start(y, dw) + x <= dw * dh
        invariant forall k | 0 <= k < Start(y, dw) + x :: Painted(dst.pix[..], src, dw, dh, k)
        invariant forall i | 4 * (Start(y, dw) + x) <= i < dst.pix.Length :: dst.pix[i] == 0
      {
        KthOf(dw, dh, x, y);
        ghost var was := dst.pix[..];
        PaintPixel(src, dst, x, y);
        forall k | 0 <= k < Start(y, dw) + x
          ensures Painted(dst.pix[..], src, dw, dh, k)
        {
          SamePixel(was, dst.pix[..], src, dw, dh, k);
        }
      }
      NextStart(y, dw, dh);
    }
  }

  lemma SamePixel(was: seq<Byte>, pix: seq<Byte>, src: Source, dw: nat, dh: nat, k: nat)
    requires dw >= 1 && dh >= 1 && k < dw * dh && |was| == |pix| == 4 * (dw * dh)
    requires Painted(was, src, dw, dh, k)
    requires pix[4 * k] == was[4 * k] && pix[4 * k + 1] == was[4 * k + 1]
    requires pix[4 * k + 2] == was[4 * k + 2] && pix[4 * k + 3] == was[4 * k + 3]
    ensures Painted(pix, src, dw, dh, k)
  {
    hide BoxTotal, BoxSize;
  }

  // ---- What that comes to ----

  /**
    For any image a float64 can count: every pixel of the thumbnail is the average of its
    window, the windows lie side by side from the top left corner, and all that can be missed
    is the last row and the last column, which are iff their last cut falls short.
   */
  lemma ThumbnailCoversTheImage(src: Source, maxEdge: int, x: nat, y: nat)
    requires !Fits(src.width, src.height, maxEdge) && Manageable(src.width, src.height, maxEdge)
    requires var (dw, dh) := TargetSize(src.width, src.height, maxEdge); x < dw && y < dh
    ensures var (dw, dh) := TargetSize(src.width, src.height, maxEdge);
      && dw >= 1 && dh >= 1
      && var cx, cy := CutOf(dw, src.width), CutOf(dh, src.height);
         && IsCut(cx, dw, src.width) && IsCut(cy, dh, src.height)
         && src.width - 1 <= cx(dw) && src.height - 1 <= cy(dh)
         && BoxSize(src, dw, dh, x, y) >= 1
         && cx(x) <= cx(x + 1) && cy(y) <= cy(y + 1)
         && BoxTotal(src, dw, dh, x, y) == Sample(src, cx, cy, x, y)
         && AllSamples(src, cx, cy, dw, dh, dh) == BoxSum(src, 0, cx(dw), 0, cy(dh))
  {
    hide TargetSize, BoxSize, BoxTotal, CutOf, BoxSum, AllSamples, Sample;
    SizeShrinks(src.width, src.height, maxEdge);
    var (dw, dh) := TargetSize(src.width, src.height, maxEdge);
    CodeCuts(dw, src.width);
    CodeCuts(dh, src.height);
    BoxIsSample(src, dw, dh, x, y);
    EveryPixelCountsOnce(src, CutOf(dw, src.width), CutOf(dh, src.height), dw, dh);
  }

  /** Such images exist: of 321 by 248 pixels, shrunk to 320, the last row is in no window. */
  lemma SomeThumbnailMissesARow()
    ensures TargetSize(321, 248, 320) == (320, 247)
    ensures !Covered(CutOf(247, 248), 247, 247)
  {
    hide Shrunk;
    ShrunkIsExact(248, 320, 321);
    SomeEdgeIsNotCovered();
  }
}
