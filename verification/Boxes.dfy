/**
  The arithmetic of box sampling: summing pixels over boxes, for any cuts of the two edges.
 */
module Boxes {
  import opened Cuts

  type Channel = x: int | 0 <= x < 65536

  datatype Pixel = Pixel(r: Channel, g: Channel, b: Channel, a: Channel)

  /** `at(x, y)` is the colour at column x and row y, counted from the image's own corner. */
  datatype Source = Source(width: nat, height: nat, at: (int, int) -> Pixel)

  // ---- Sums ----

  /** The four accumulators of the sampling loop. */
  datatype Sums = Sums(r: nat, g: nat, b: nat, a: nat)

  const NOTHING := Sums(0, 0, 0, 0)

  function Plus(s: Sums, t: Sums): Sums {
    Sums(s.r + t.r, s.g + t.g, s.b + t.b, s.a + t.a)
  }

  function OfPixel(p: Pixel): Sums {
    Sums(p.r, p.g, p.b, p.a)
  }

  lemma Regroup(s: Sums, t: Sums, u: Sums, v: Sums)
    ensures Plus(Plus(s, t), Plus(u, v)) == Plus(Plus(s, u), Plus(t, v))
    ensures Plus(Plus(s, t), u) == Plus(s, Plus(t, u))
  {
  }

  /** Row y, columns x0 up to x1. */
  function RowSum(src: Source, y: int, x0: int, x1: int): Sums
    requires x0 <= x1
    decreases x1 - x0
  {
    if x0 == x1 then NOTHING else Plus(RowSum(src, y, x0, x1 - 1), OfPixel(src.at(x1 - 1, y)))
  }

  function BoxSum(src: Source, x0: int, x1: int, y0: int, y1: int): Sums
    requires x0 <= x1 && y0 <= y1
    decreases y1 - y0
  {
    if y0 == y1 then NOTHING else Plus(BoxSum(src, x0, x1, y0, y1 - 1), RowSum(src, y1 - 1, x0, x1))
  }

  lemma {:induction false} RowSplits(src: Source, y: int, x0: int, x: int, x1: int)
    requires x0 <= x <= x1
    ensures RowSum(src, y, x0, x1) == Plus(RowSum(src, y, x0, x), RowSum(src, y, x, x1))
    decreases x1 - x
  {
    if x < x1 {
      RowSplits(src, y, x0, x, x1 - 1);
    }
  }

  lemma {:induction false} BoxSplitsAcross(src: Source, x0: int, x: int, x1: int, y0: int, y1: int)
    requires x0 <= x <= x1 && y0 <= y1
    ensures BoxSum(src, x0, x1, y0, y1) == Plus(BoxSum(src, x0, x, y0, y1), BoxSum(src, x, x1, y0, y1))
    decreases y1 - y0
  {
    hide RowSum, Plus;
    if y0 == y1 {
      PlusNothing(BoxSum(src, x0, x, y0, y1));
    } else {
      BoxSplitsAcross(src, x0, x, x1, y0, y1 - 1);
      RowSplits(src, y1 - 1, x0, x, x1);
      AcrossStep(src, x0, x, x1, y0, y1);
    }
  }

  lemma PlusNothing(s: Sums)
    ensures Plus(s, NOTHING) == s
  {
  }

  lemma AcrossStep(src: Source, x0: int, x: int, x1: int, y0: int, y1: int)
    requires x0 <= x <= x1 && y0 < y1
    requires BoxSum(src, x0, x1, y0, y1 - 1) == Plus(BoxSum(src, x0, x, y0, y1 - 1), BoxSum(src, x, x1, y0, y1 - 1))
    requires RowSum(src, y1 - 1, x0, x1) == Plus(RowSum(src, y1 - 1, x0, x), RowSum(src, y1 - 1, x, x1))
    ensures BoxSum(src, x0, x1, y0, y1) == Plus(BoxSum(src, x0, x, y0, y1), BoxSum(src, x, x1, y0, y1))
  {
    hide Plus, RowSum;
    Regroup(BoxSum(src, x0, x, y0, y1 - 1), BoxSum(src, x, x1, y0, y1 - 1),
            RowSum(src, y1 - 1, x0, x), RowSum(src, y1 - 1, x, x1));
  }

  lemma {:induction false} BoxSplitsDown(src: Source, x0: int, x1: int, y0: int, y: int, y1: int)
    requires x0 <= x1 && y0 <= y <= y1
    ensures BoxSum(src, x0, x1, y0, y1) == Plus(BoxSum(src, x0, x1, y0, y), BoxSum(src, x0, x1, y, y1))
    decreases y1 - y
  {
    if y < y1 {
      BoxSplitsDown(src, x0, x1, y0, y, y1 - 1);
    }
  }

  /** The box of destination pixel (x, y). */
  function Sample(src: Source, cx: nat -> nat, cy: nat -> nat, x: nat, y: nat): Sums
    requires cx(x) <= cx(x + 1) && cy(y) <= cy(y + 1)
  {
    BoxSum(src, cx(x), cx(x + 1), cy(y), cy(y + 1))
  }

  /** The samples of the first n pixels of destination row y, together. */
  ghost function RowOfSamples(src: Source, cx: nat -> nat, cy: nat -> nat, dw: nat, dh: nat, y: nat, n: nat): Sums
    requires IsCut(cx, dw, src.width) && IsCut(cy, dh, src.height) && n <= dw && y < dh
  {
    if n == 0 then NOTHING
    else Plus(RowOfSamples(src, cx, cy, dw, dh, y, n - 1), Sample(src, cx, cy, n - 1, y))
  }

  ghost function AllSamples(src: Source, cx: nat -> nat, cy: nat -> nat, dw: nat, dh: nat, n: nat): Sums
    requires IsCut(cx, dw, src.width) && IsCut(cy, dh, src.height) && n <= dh
  {
    if n == 0 then NOTHING
    else Plus(AllSamples(src, cx, cy, dw, dh, n - 1), RowOfSamples(src, cx, cy, dw, dh, n - 1, dw))
  }

  lemma {:induction false} RowOfSamplesIsAStrip(
      src: Source, cx: nat -> nat, cy: nat -> nat, dw: nat, dh: nat, y: nat, n: nat)
    requires IsCut(cx, dw, src.width) && IsCut(cy, dh, src.height) && n <= dw && y < dh
    ensures cy(y) <= cy(y + 1)
    ensures RowOfSamples(src, cx, cy, dw, dh, y, n) == BoxSum(src, 0, cx(n), cy(y), cy(y + 1))
    decreases n
  {
    hide Plus, RowSum;
    assert cy(y) < cy(y + 1);
    if n == 0 {
      NoColumns(src, cy(y), cy(y + 1));
    } else {
      assert cx(n - 1) < cx(n - 1 + 1);
      RowOfSamplesIsAStrip(src, cx, cy, dw, dh, y, n - 1);
      BoxSplitsAcross(src, 0, cx(n - 1), cx(n), cy(y), cy(y + 1));
    }
  }

  lemma {:induction false} NoColumns(src: Source, y0: int, y1: int)
    requires y0 <= y1
    ensures BoxSum(src, 0, 0, y0, y1) == NOTHING
    decreases y1 - y0
  {
    hide Plus, RowSum;
    if y0 < y1 {
      NoColumns(src, y0, y1 - 1);
      EmptyRow(src, y1 - 1);
      PlusNothing(BoxSum(src, 0, 0, y0, y1 - 1));
    }
  }

  lemma EmptyRow(src: Source, y: int)
    ensures RowSum(src, y, 0, 0) == NOTHING
  {
  }

  lemma {:induction false} SamplesFillTheTop(src: Source, cx: nat -> nat, cy: nat -> nat, dw: nat, dh: nat, n: nat)
    requires IsCut(cx, dw, src.width) && IsCut(cy, dh, src.height) && n <= dh
    ensures AllSamples(src, cx, cy, dw, dh, n) == BoxSum(src, 0, cx(dw), 0, cy(n))
    decreases n
  {
    hide Plus, RowSum;
    if n > 0 {
      SamplesFillTheTop(src, cx, cy, dw, dh, n - 1);
      RowOfSamplesIsAStrip(src, cx, cy, dw, dh, n - 1, dw);
      BoxSplitsDown(src, 0, cx(dw), 0, cy(n - 1), cy(n));
    }
  }

  /**
    Conservation: the samples of all destination pixels add up, channel by channel, to the
    part of the source in front of the last cuts; to all of it when these reach the edges.
   */
  lemma EveryPixelCountsOnce(src: Source, cx: nat -> nat, cy: nat -> nat, dw: nat, dh: nat)
    requires IsCut(cx, dw, src.width) && IsCut(cy, dh, src.height)
    ensures AllSamples(src, cx, cy, dw, dh, dh) == BoxSum(src, 0, cx(dw), 0, cy(dh))
    ensures cx(dw) == src.width && cy(dh) == src.height ==>
              AllSamples(src, cx, cy, dw, dh, dh) == BoxSum(src, 0, src.width, 0, src.height)
  {
    SamplesFillTheTop(src, cx, cy, dw, dh, dh);
  }

  // ---- Averages ----

  predicate Within(lo: Pixel, p: Pixel, hi: Pixel) {
    lo.r <= p.r <= hi.r && lo.g <= p.g <= hi.g && lo.b <= p.b <= hi.b && lo.a <= p.a <= hi.a
  }

  /** n pixels, each within [lo, hi]. */
  predicate SumWithin(lo: Pixel, n: nat, s: Sums, hi: Pixel) {
    && ChannelWithin(lo.r, n, s.r, hi.r) && ChannelWithin(lo.g, n, s.g, hi.g)
    && ChannelWithin(lo.b, n, s.b, hi.b) && ChannelWithin(lo.a, n, s.a, hi.a)
  }

  predicate ChannelWithin(lo: int, n: int, s: int, hi: int) {
    n * lo <= s <= n * hi
  }

  lemma ChannelPlus(lo: int, n: nat, s: int, k: nat, t: int, hi: int)
    requires ChannelWithin(lo, n, s, hi) && ChannelWithin(lo, k, t, hi)
    ensures ChannelWithin(lo, n + k, s + t, hi)
  {
    assert (n + k) * lo == n * lo + k * lo && (n + k) * hi == n * hi + k * hi;
  }

  lemma SumWithinPlus(lo: Pixel, n: nat, s: Sums, k: nat, t: Sums, hi: Pixel)
    requires SumWithin(lo, n, s, hi) && SumWithin(lo, k, t, hi)
    ensures SumWithin(lo, n + k, Plus(s, t), hi)
  {
    hide ChannelWithin;
    var u := Plus(s, t);
    assert ChannelWithin(lo.r, n + k, u.r, hi.r) by { ChannelPlus(lo.r, n, s.r, k, t.r, hi.r); }
    assert ChannelWithin(lo.g, n + k, u.g, hi.g) by { ChannelPlus(lo.g, n, s.g, k, t.g, hi.g); }
    assert ChannelWithin(lo.b, n + k, u.b, hi.b) by { ChannelPlus(lo.b, n, s.b, k, t.b, hi.b); }
    assert ChannelWithin(lo.a, n + k, u.a, hi.a) by { ChannelPlus(lo.a, n, s.a, k, t.a, hi.a); }
  }

  lemma {:induction false} RowWithin(src: Source, y: int, x0: int, x1: int, lo: Pixel, hi: Pixel)
    requires x0 <= x1 && forall x | x0 <= x < x1 :: Within(lo, src.at(x, y), hi)
    ensures SumWithin(lo, x1 - x0, RowSum(src, y, x0, x1), hi)
    decreases x1 - x0
  {
    hide SumWithin, Plus;
    if x0 < x1 {
      RowWithin(src, y, x0, x1 - 1, lo, hi);
      PixelWithin(src.at(x1 - 1, y), lo, hi);
      SumWithinPlus(lo, x1 - 1 - x0, RowSum(src, y, x0, x1 - 1), 1, OfPixel(src.at(x1 - 1, y)), hi);
    } else {
      NothingWithin(lo, hi);
    }
  }

  lemma PixelWithin(p: Pixel, lo: Pixel, hi: Pixel)
    requires Within(lo, p, hi)
    ensures SumWithin(lo, 1, OfPixel(p), hi)
  {
  }

  lemma NothingWithin(lo: Pixel, hi: Pixel)
    ensures SumWithin(lo, 0, NOTHING, hi)
  {
  }

  lemma {:induction false} BoxWithin(src: Source, x0: int, x1: int, y0: int, y1: int, lo: Pixel, hi: Pixel)
    requires x0 <= x1 && y0 <= y1
    requires forall x, y | x0 <= x < x1 && y0 <= y < y1 :: Within(lo, src.at(x, y), hi)
    ensures (x1 - x0) * (y1 - y0) >= 0
    ensures SumWithin(lo, (x1 - x0) * (y1 - y0), BoxSum(src, x0, x1, y0, y1), hi)
    decreases y1 - y0
  {
    hide SumWithin, Plus;
    if y0 < y1 {
      BoxWithin(src, x0, x1, y0, y1 - 1, lo, hi);
      RowWithin(src, y1 - 1, x0, x1, lo, hi);
      var w, n := x1 - x0, y1 - 1 - y0;
      assert w * n + w == w * (n + 1);
      SumWithinPlus(lo, w * n, BoxSum(src, x0, x1, y0, y1 - 1), w, RowSum(src, y1 - 1, x0, x1), hi);
    } else {
      NothingWithin(lo, hi);
    }
  }

}
