/** The compositing pass of a settled render (renderer.js 452-490): the bounding
    box of every consumer's source rectangle is walked in 1024 × 1024 blocks,
    columns first; each block that some consumer's rectangle overlaps is painted
    once (an opaque step here) and then copied into each such consumer's target
    with one integer blit. */
module Compositing {
  import opened Common
  import opened TileSpec

  /** `OFFSCREEN_CANV_SIZE` */
  const OffscreenSize: int := 1024

  /** The arguments of `drawImage(canvas, srcLeft, srcTop, width, height, destLeft,
      destTop, width, height)`. */
  datatype Blit = Blit(srcLeft: int, srcTop: int, width: int, height: int, destLeft: int, destTop: int)

  /** `Paint` stands for positioning every tile for the block at `(xx, yy)` and
      running the painter; `Draw` is one blit into a consumer's target. */
  datatype CompositeStep = Paint(xx: int, yy: int) | Draw(target: nat, blit: Blit)

  /** `v | 0`: the integer wrapped into the signed 32-bit range. */
  function ToInt32(v: int): (r: int)
    ensures -0x8000_0000 <= r < 0x8000_0000
    ensures -0x8000_0000 <= v < 0x8000_0000 ==> r == v
    ensures (r - v) % 0x1_0000_0000 == 0
  {
    (v + 0x8000_0000) % 0x1_0000_0000 - 0x8000_0000
  }

  /** The consumer's source rectangle meets the block `[xx, xx+1024) × [yy, yy+1024)`,
      compared as half-open intervals. */
  predicate Overlaps(d: DrawSpec, xx: int, yy: int)
  {
    && d.srcLeft + d.width > xx
    && d.srcLeft < xx + OffscreenSize
    && d.srcTop + d.height > yy
    && d.srcTop < yy + OffscreenSize
  }

  /** The consumers processed for a block: those that overlap it, in order. */
  function Relevant(cs: seq<Consumer>, xx: int, yy: int): (r: seq<Consumer>)
    ensures |r| <= |cs|
    ensures forall c :: c in r <==> c in cs && Overlaps(c.draw, xx, yy)
  {
    if |cs| == 0 then []
    else if Overlaps(cs[0].draw, xx, yy) then [cs[0]] + Relevant(cs[1..], xx, yy)
    else Relevant(cs[1..], xx, yy)
  }

  /** Consumers are taken in their order: those processed for two runs of
      consumers are the first run's followed by the second's, and a single
      consumer is processed exactly when it overlaps the block. */
  lemma {:induction false} RelevantConcat(a: seq<Consumer>, b: seq<Consumer>, xx: int, yy: int)
    ensures Relevant(a + b, xx, yy) == Relevant(a, xx, yy) + Relevant(b, xx, yy)
    ensures |a| == 1 ==> Relevant(a, xx, yy) == if Overlaps(a[0].draw, xx, yy) then [a[0]] else []
  {
    if |a| == 0 {
      assert a + b == b;
    } else {
      var ab := a + b;
      assert ab[0] == a[0] && ab[1..] == a[1..] + b;
      RelevantConcat(a[1..], b, xx, yy);
      var x, y := Relevant(a[1..], xx, yy), Relevant(b, xx, yy);
      if Overlaps(a[0].draw, xx, yy) {
        assert [a[0]] + (x + y) == ([a[0]] + x) + y;
      }
    }
  }

  function Max(a: int, b: int): int { if a >= b then a else b }
  function Min(a: int, b: int): int { if a <= b then a else b }

  /** The blit for one consumer and the block at `(xx, yy)`. For a consumer that
      overlaps the block, the source corner lies inside the canvas, the far edge
      does not pass it, the blit is non-empty exactly when the consumer's
      rectangle is, and the destination is offset from the consumer's own by
      exactly as much as the block-relative source corner is from its source
      corner. */
  function BlitFor(d: DrawSpec, xx: int, yy: int): (b: Blit)
    ensures Overlaps(d, xx, yy) ==>
              && 0 <= b.srcLeft < OffscreenSize && 0 < b.srcLeft + b.width <= OffscreenSize
              && 0 <= b.srcTop < OffscreenSize && 0 < b.srcTop + b.height <= OffscreenSize
              && (b.width > 0 <==> d.width > 0) && (b.height > 0 <==> d.height > 0)
              && b.destLeft - d.destLeft == (xx + b.srcLeft) - d.srcLeft
              && b.destTop - d.destTop == (yy + b.srcTop) - d.srcTop
  {
    var srcLeft := ToInt32(Max(0, d.srcLeft - xx));
    var srcRight := ToInt32(Min(OffscreenSize, d.srcLeft + d.width - xx));
    var srcTop := ToInt32(Max(0, d.srcTop - yy));
    var srcBottom := ToInt32(Min(OffscreenSize, d.srcTop + d.height - yy));
    var destLeft := d.destLeft + (if d.srcLeft < xx then xx - d.srcLeft else 0);
    var destTop := d.destTop + (if d.srcTop < yy then yy - d.srcTop else 0);
    Blit(srcLeft, srcTop, srcRight - srcLeft, srcBottom - srcTop, destLeft, destTop)
  }

  /** Pixel `(px, py)` of the composition plane lies in the consumer's source
      rectangle. */
  predicate InSource(d: DrawSpec, px: int, py: int)
  {
    d.srcLeft <= px < d.srcLeft + d.width && d.srcTop <= py < d.srcTop + d.height
  }

  predicate InBlock(xx: int, yy: int, px: int, py: int)
  {
    xx <= px < xx + OffscreenSize && yy <= py < yy + OffscreenSize
  }

  /** The consumer is processed for the block and its blit copies pixel `(px, py)`
      of the plane (canvas pixel `(px - xx, py - yy)`). */
  predicate BlitCovers(d: DrawSpec, xx: int, yy: int, px: int, py: int)
  {
    Overlaps(d, xx, yy)
    && var b := BlitFor(d, xx, yy);
    && xx + b.srcLeft <= px < xx + b.srcLeft + b.width
    && yy + b.srcTop <= py < yy + b.srcTop + b.height
  }

  /** A block's blit copies exactly the pixels of the consumer's rectangle that
      lie in the block, and it puts each at the same offset from the consumer's
      destination corner as it has from its source corner. */
  lemma BlitCoversIntersection(d: DrawSpec, xx: int, yy: int, px: int, py: int)
    ensures BlitCovers(d, xx, yy, px, py) <==> InSource(d, px, py) && InBlock(xx, yy, px, py)
    ensures BlitCovers(d, xx, yy, px, py) ==>
              var b := BlitFor(d, xx, yy);
              && b.destLeft + (px - xx - b.srcLeft) == d.destLeft + (px - d.srcLeft)
              && b.destTop + (py - yy - b.srcTop) == d.destTop + (py - d.srcTop)
  {
    if InSource(d, px, py) && InBlock(xx, yy, px, py) {
      assert Overlaps(d, xx, yy);
    }
  }

  /** `for (xx = lo; xx < hi; xx += 1024)`: the block origins along one axis. */
  function Origins(lo: int, hi: int): (r: seq<int>)
    ensures forall k :: 0 <= k < |r| ==> r[k] == lo + 1024 * k
    decreases hi - lo
  {
    if lo < hi then [lo] + Origins(lo + 1024, hi) else []
  }

  /** The loop runs exactly while the next origin is below `hi`. */
  lemma {:induction false} OriginsLength(lo: int, hi: int, k: nat)
    ensures k < |Origins(lo, hi)| <==> lo + 1024 * k < hi
    decreases hi - lo
  {
    if lo < hi && k > 0 {
      OriginsLength(lo + 1024, hi, k - 1);
    }
  }

  /** Every pixel between `lo` and `hi` falls in exactly one block along that axis. */
  lemma OneOriginPerPixel(lo: int, hi: int, p: int)
    requires lo <= p < hi
    ensures var k := (p - lo) / 1024;
            && 0 <= k < |Origins(lo, hi)|
            && Origins(lo, hi)[k] <= p < Origins(lo, hi)[k] + 1024
            && forall j :: 0 <= j < |Origins(lo, hi)| && Origins(lo, hi)[j] <= p < Origins(lo, hi)[j] + 1024 ==> j == k
  {
    var xs := Origins(lo, hi);
    var k := (p - lo) / 1024;
    assert lo + 1024 * k <= p < lo + 1024 * (k + 1);
    OriginsLength(lo, hi, k);
  }

  /** The steps for one block: nothing when no consumer overlaps it, otherwise
      one paint followed by one blit per overlapping consumer. */
  function BlockSteps(cs: seq<Consumer>, xx: int, yy: int): (r: seq<CompositeStep>)
    ensures |Relevant(cs, xx, yy)| == 0 ==> r == []
    ensures |Relevant(cs, xx, yy)| > 0 ==> |r| == 1 + |Relevant(cs, xx, yy)| && r[0] == Paint(xx, yy)
    ensures forall k :: 1 <= k < |r| ==> r[k].Draw?
    ensures forall k :: 0 <= k < |Relevant(cs, xx, yy)| ==>
              r[k + 1] == Draw(Relevant(cs, xx, yy)[k].target, BlitFor(Relevant(cs, xx, yy)[k].draw, xx, yy))
  {
    var rel := Relevant(cs, xx, yy);
    if |rel| == 0 then []
    else [Paint(xx, yy)] + seq(|rel|, i requires 0 <= i < |rel| => Draw(rel[i].target, BlitFor(rel[i].draw, xx, yy)))
  }

  /** The step is one the walk may take for these consumers: a paint of a block
      some consumer overlaps, or a consumer's own blit for a block it overlaps,
      sent to its own target. */
  ghost predicate StepFor(cs: seq<Consumer>, s: CompositeStep)
  {
    match s
    case Paint(xx, yy) => exists c :: c in cs && Overlaps(c.draw, xx, yy)
    case Draw(target, blit) =>
      exists c, xx, yy :: c in cs && Overlaps(c.draw, xx, yy) && target == c.target && blit == BlitFor(c.draw, xx, yy)
  }

  lemma BlockStepsFor(cs: seq<Consumer>, xx: int, yy: int)
    ensures forall k :: 0 <= k < |BlockSteps(cs, xx, yy)| ==> StepFor(cs, BlockSteps(cs, xx, yy)[k])
  {
    var rel := Relevant(cs, xx, yy);
    var r := BlockSteps(cs, xx, yy);
    forall k | 0 <= k < |r|
      ensures StepFor(cs, r[k])
    {
      if k == 0 {
        assert rel[0] in rel;
      } else {
        assert rel[k - 1] in rel;
      }
    }
  }

  /** One column of blocks: the inner loop over `yy`. */
  function Column(cs: seq<Consumer>, xx: int, ys: seq<int>): (r: seq<CompositeStep>)
    ensures forall k :: 0 <= k < |r| ==> StepFor(cs, r[k])
  {
    if |ys| == 0 then []
    else
      BlockStepsFor(cs, xx, ys[|ys| - 1]);
      Column(cs, xx, ys[..|ys| - 1]) + BlockSteps(cs, xx, ys[|ys| - 1])
  }

  /** The columns of blocks, left to right. */
  function Grid(cs: seq<Consumer>, xs: seq<int>, ys: seq<int>): (r: seq<CompositeStep>)
    ensures forall k :: 0 <= k < |r| ==> StepFor(cs, r[k])
  {
    if |xs| == 0 then [] else Grid(cs, xs[..|xs| - 1], ys) + Column(cs, xs[|xs| - 1], ys)
  }

  /** A rectangle of the composition plane, `[xMin, xMax) x [yMin, yMax)`. */
  datatype Box = Box(xMin: int, yMin: int, xMax: int, yMax: int)

  function SourceRect(c: Consumer): Box
  {
    Box(c.draw.srcLeft, c.draw.srcTop, c.draw.srcLeft + c.draw.width, c.draw.srcTop + c.draw.height)
  }

  function Hull(a: Box, b: Box): Box
  {
    Box(Min(a.xMin, b.xMin), Min(a.yMin, b.yMin), Max(a.xMax, b.xMax), Max(a.yMax, b.yMax))
  }

  predicate Within(c: Consumer, b: Box)
  {
    b.xMin <= c.draw.srcLeft && b.yMin <= c.draw.srcTop
    && c.draw.srcLeft + c.draw.width <= b.xMax && c.draw.srcTop + c.draw.height <= b.yMax
  }

  /** The bounding box `(xSrcMin, ySrcMin, xSrcMax, ySrcMax)` of all source
      rectangles, folded left to right as `reduce(Math.min/Math.max)` does;
      absent when there are no consumers (the folds then yield the infinite
      seeds and the walk does nothing). */
  function BoundingBox(cs: seq<Consumer>): (r: Option<Box>)
    ensures r.None? <==> |cs| == 0
    ensures r.Some? ==> forall i :: 0 <= i < |cs| ==> Within(cs[i], r.value)
  {
    if |cs| == 0 then None
    else
      var last := SourceRect(cs[|cs| - 1]);
      match BoundingBox(cs[..|cs| - 1])
      case None => Some(last)
      case Some(b) =>
        assert forall i :: 0 <= i < |cs| - 1 ==> cs[i] == cs[..|cs| - 1][i];
        Some(Hull(b, last))
  }

  /** Each side of the bounding box is the side of some consumer's rectangle. */
  lemma {:induction false} BoundingBoxAttained(cs: seq<Consumer>)
    requires |cs| > 0
    ensures var b := BoundingBox(cs).value;
            && (exists i :: 0 <= i < |cs| && cs[i].draw.srcLeft == b.xMin)
            && (exists i :: 0 <= i < |cs| && cs[i].draw.srcTop == b.yMin)
            && (exists i :: 0 <= i < |cs| && cs[i].draw.srcLeft + cs[i].draw.width == b.xMax)
            && (exists i :: 0 <= i < |cs| && cs[i].draw.srcTop + cs[i].draw.height == b.yMax)
  {
    var n := |cs| - 1;
    if n > 0 {
      var init := cs[..n];
      BoundingBoxAttained(init);
      var a := BoundingBox(init).value;
      var last := cs[n];
      assert BoundingBox(cs).value == Hull(a, SourceRect(last));
      var i0 :| 0 <= i0 < n && init[i0].draw.srcLeft == a.xMin;
      var i1 :| 0 <= i1 < n && init[i1].draw.srcTop == a.yMin;
      var i2 :| 0 <= i2 < n && init[i2].draw.srcLeft + init[i2].draw.width == a.xMax;
      var i3 :| 0 <= i3 < n && init[i3].draw.srcTop + init[i3].draw.height == a.yMax;
      assert cs[i0] == init[i0] && cs[i1] == init[i1] && cs[i2] == init[i2] && cs[i3] == init[i3];
    } else {
      assert BoundingBox(cs[..0]).None?;
      assert BoundingBox(cs).value == SourceRect(cs[0]);
    }
  }

  /** Every step of the compositing pass, in order. */
  function Composite(cs: seq<Consumer>): (r: seq<CompositeStep>)
    ensures |cs| == 0 ==> r == []
    ensures forall k :: 0 <= k < |r| ==> StepFor(cs, r[k])
  {
    match BoundingBox(cs)
    case None => []
    case Some(b) => Grid(cs, Origins(b.xMin, b.xMax), Origins(b.yMin, b.yMax))
  }

  /** Every pixel of a consumer's source rectangle is copied by exactly one
      block of the walk: the one whose origins are the pixel's offsets from the
      bounding box corner, rounded down to a multiple of 1024. */
  lemma PixelCopiedOnce(cs: seq<Consumer>, c: Consumer, px: int, py: int)
    requires c in cs && InSource(c.draw, px, py)
    ensures BoundingBox(cs).Some?
    ensures var b := BoundingBox(cs).value;
            var xs := Origins(b.xMin, b.xMax);
            var ys := Origins(b.yMin, b.yMax);
            && (exists i, j :: 0 <= i < |xs| && 0 <= j < |ys| && BlitCovers(c.draw, xs[i], ys[j], px, py))
            && forall i, j :: 0 <= i < |xs| && 0 <= j < |ys| && BlitCovers(c.draw, xs[i], ys[j], px, py)
                 ==> i == (px - b.xMin) / 1024 && j == (py - b.yMin) / 1024
  {
    var b := BoundingBox(cs).value;
    var n :| 0 <= n < |cs| && cs[n] == c;
    assert Within(cs[n], b);
    PixelInOneBlock(c.draw, b.xMin, b.yMin, b.xMax, b.yMax, px, py);
  }

  /** Within the walk over `[x0, x1) x [y0, y1)`, exactly one block copies a
      given pixel of the consumer's rectangle. */
  lemma PixelInOneBlock(d: DrawSpec, x0: int, y0: int, x1: int, y1: int, px: int, py: int)
    requires x0 <= px < x1 && y0 <= py < y1 && InSource(d, px, py)
    ensures var xs := Origins(x0, x1);
            var ys := Origins(y0, y1);
            && (exists i, j :: 0 <= i < |xs| && 0 <= j < |ys| && BlitCovers(d, xs[i], ys[j], px, py))
            && forall i, j :: 0 <= i < |xs| && 0 <= j < |ys| && BlitCovers(d, xs[i], ys[j], px, py)
                 ==> i == (px - x0) / 1024 && j == (py - y0) / 1024
  {
    var xs := Origins(x0, x1);
    var ys := Origins(y0, y1);
    OneOriginPerPixel(x0, x1, px);
    OneOriginPerPixel(y0, y1, py);
    var i := (px - x0) / 1024;
    var j := (py - y0) / 1024;
    BlitCoversIntersection(d, xs[i], ys[j], px, py);
    forall i', j' | 0 <= i' < |xs| && 0 <= j' < |ys| && BlitCovers(d, xs[i'], ys[j'], px, py)
      ensures i' == i && j' == j
    {
      BlitCoversIntersection(d, xs[i'], ys[j'], px, py);
    }
  }

  /** The pass blits every pixel of every consumer's rectangle: the block
      holding the pixel is visited, and the walk draws that consumer's blit for
      the block into the consumer's own target, a blit that copies the pixel. */
  lemma CompositeBlitsEveryPixel(cs: seq<Consumer>, c: Consumer, px: int, py: int)
    requires c in cs && InSource(c.draw, px, py)
    ensures BoundingBox(cs).Some?
    ensures var b := BoundingBox(cs).value;
            var xs := Origins(b.xMin, b.xMax);
            var ys := Origins(b.yMin, b.yMax);
            exists i, j :: && 0 <= i < |xs| && 0 <= j < |ys|
                           && BlitCovers(c.draw, xs[i], ys[j], px, py)
                           && Draw(c.target, BlitFor(c.draw, xs[i], ys[j])) in Composite(cs)
  {
    PixelCopiedOnce(cs, c, px, py);
    var b := BoundingBox(cs).value;
    var xs := Origins(b.xMin, b.xMax);
    var ys := Origins(b.yMin, b.yMax);
    var i, j :| 0 <= i < |xs| && 0 <= j < |ys| && BlitCovers(c.draw, xs[i], ys[j], px, py);
    ConsumerBlitInGrid(cs, c, xs, ys, i, j);
    assert Composite(cs) == Grid(cs, xs, ys);
  }

  /** A consumer's blit for each block of the grid it overlaps is a step of
      the walk over the grid. */
  lemma ConsumerBlitInGrid(cs: seq<Consumer>, c: Consumer, xs: seq<int>, ys: seq<int>, i: nat, j: nat)
    requires c in cs && i < |xs| && j < |ys| && Overlaps(c.draw, xs[i], ys[j])
    ensures Draw(c.target, BlitFor(c.draw, xs[i], ys[j])) in Grid(cs, xs, ys)
  {
    var rel := Relevant(cs, xs[i], ys[j]);
    assert c in rel;
    var k :| 0 <= k < |rel| && rel[k] == c;
    var blk := BlockSteps(cs, xs[i], ys[j]);
    assert blk[k + 1] == Draw(c.target, BlitFor(c.draw, xs[i], ys[j]));
    GridHasBlock(cs, xs, ys, i, j, k + 1);
  }

  /** Each step of block `(xs[i], ys[j])` is a step of the walk over the grid. */
  lemma GridHasBlock(cs: seq<Consumer>, xs: seq<int>, ys: seq<int>, i: nat, j: nat, t: nat)
    requires i < |xs| && j < |ys| && t < |BlockSteps(cs, xs[i], ys[j])|
    ensures BlockSteps(cs, xs[i], ys[j])[t] in Grid(cs, xs, ys)
  {
    var blk := BlockSteps(cs, xs[i], ys[j]);
    // the block's steps sit after the column's earlier blocks ...
    var upper := Column(cs, xs[i], ys[..j]);
    ColumnStep(cs, xs[i], ys, j);
    ConcatIndex(upper, blk, t);
    ColumnPrefix(cs, xs[i], ys, j + 1);
    var column := Column(cs, xs[i], ys);
    PrefixIndex(Column(cs, xs[i], ys[..j + 1]), column, |upper| + t);
    // ... and the column's steps after the grid's earlier columns
    var left := Grid(cs, xs[..i], ys);
    GridStep(cs, xs, ys, i);
    ConcatIndex(left, column, |upper| + t);
    GridPrefix(cs, xs, ys, i + 1);
    PrefixIndex(Grid(cs, xs[..i + 1], ys), Grid(cs, xs, ys), |left| + |upper| + t);
  }

  /** The steps for the first `j + 1` blocks of a column are the steps for
      the first `j` followed by block `j`'s. */
  lemma ColumnStep(cs: seq<Consumer>, xx: int, ys: seq<int>, j: nat)
    requires j < |ys|
    ensures Column(cs, xx, ys[..j + 1]) == Column(cs, xx, ys[..j]) + BlockSteps(cs, xx, ys[j])
  {
    assert ys[..j + 1][..j] == ys[..j];
  }

  /** The steps for the first `m` blocks of a column begin the whole column. */
  lemma {:induction false} ColumnPrefix(cs: seq<Consumer>, xx: int, ys: seq<int>, m: nat)
    requires m <= |ys|
    ensures Column(cs, xx, ys[..m]) <= Column(cs, xx, ys)
  {
    if m < |ys| {
      var n := |ys| - 1;
      ColumnPrefix(cs, xx, ys[..n], m);
      assert ys[..n][..m] == ys[..m];
      ColumnStep(cs, xx, ys, n);
      assert ys[..n + 1] == ys;
      PrefixOfConcat(Column(cs, xx, ys[..m]), Column(cs, xx, ys[..n]), BlockSteps(cs, xx, ys[n]));
    } else {
      assert ys[..m] == ys;
    }
  }

  /** The steps for the first `i + 1` columns are the steps for the first `i`
      followed by column `i`'s. */
  lemma GridStep(cs: seq<Consumer>, xs: seq<int>, ys: seq<int>, i: nat)
    requires i < |xs|
    ensures Grid(cs, xs[..i + 1], ys) == Grid(cs, xs[..i], ys) + Column(cs, xs[i], ys)
  {
    assert xs[..i + 1][..i] == xs[..i];
  }

  /** The steps for the first `m` columns begin the whole grid. */
  lemma {:induction false} GridPrefix(cs: seq<Consumer>, xs: seq<int>, ys: seq<int>, m: nat)
    requires m <= |xs|
    ensures Grid(cs, xs[..m], ys) <= Grid(cs, xs, ys)
  {
    if m < |xs| {
      var n := |xs| - 1;
      GridPrefix(cs, xs[..n], ys, m);
      assert xs[..n][..m] == xs[..m];
      GridStep(cs, xs, ys, n);
      assert xs[..n + 1] == xs;
      PrefixOfConcat(Grid(cs, xs[..m], ys), Grid(cs, xs[..n], ys), Column(cs, xs[n], ys));
    } else {
      assert xs[..m] == xs;
    }
  }

  /** One more turn of a loop over `Origins(lo, hi)`: the origin reached is the
      next element, or the loop stops having visited every element. */
  lemma OriginsStep(lo: int, hi: int, k: nat)
    requires k <= |Origins(lo, hi)|
    ensures lo + 1024 * k < hi ==> k < |Origins(lo, hi)| && Origins(lo, hi)[k] == lo + 1024 * k
                                   && Origins(lo, hi)[..k + 1] == Origins(lo, hi)[..k] + [lo + 1024 * k]
    ensures lo + 1024 * k >= hi ==> Origins(lo, hi)[..k] == Origins(lo, hi)
  {
    OriginsLength(lo, hi, k);
  }

  lemma ColumnSnoc(cs: seq<Consumer>, xx: int, ys: seq<int>, y: int)
    ensures Column(cs, xx, ys + [y]) == Column(cs, xx, ys) + BlockSteps(cs, xx, y)
  {
    assert (ys + [y])[..|ys|] == ys;
  }

  lemma GridSnoc(cs: seq<Consumer>, xs: seq<int>, x: int, ys: seq<int>)
    ensures Grid(cs, xs + [x], ys) == Grid(cs, xs, ys) + Column(cs, x, ys)
  {
    assert (xs + [x])[..|xs|] == xs;
  }

  /** The inner loop over `yy` for one column. */
  method ColumnLoop(cs: seq<Consumer>, xx: int, y0: int, y1: int) returns (column: seq<CompositeStep>)
    ensures column == Column(cs, xx, Origins(y0, y1))
  {
    ghost var ys := Origins(y0, y1);
    column := [];
    var yy := y0;
    ghost var j := 0;
    while yy < y1
      invariant 0 <= j <= |ys| && yy == y0 + 1024 * j
      invariant column == Column(cs, xx, ys[..j])
      decreases y1 - yy
    {
      OriginsStep(y0, y1, j);
      ColumnSnoc(cs, xx, ys[..j], yy);
      column := column + BlockSteps(cs, xx, yy);
      yy := yy + OffscreenSize;
      j := j + 1;
    }
    OriginsStep(y0, y1, j);
  }

  /** The outer loop over `xx`, each turn running the inner loop. */
  method GridLoop(cs: seq<Consumer>, x0: int, y0: int, x1: int, y1: int) returns (steps: seq<CompositeStep>)
    ensures steps == Grid(cs, Origins(x0, x1), Origins(y0, y1))
  {
    ghost var xs := Origins(x0, x1);
    ghost var ys := Origins(y0, y1);
    steps := [];
    var xx := x0;
    ghost var i := 0;
    while xx < x1
      invariant 0 <= i <= |xs| && xx == x0 + 1024 * i
      invariant steps == Grid(cs, xs[..i], ys)
      decreases x1 - xx
    {
      OriginsStep(x0, x1, i);
      GridSnoc(cs, xs[..i], xx, ys);
      var column := ColumnLoop(cs, xx, y0, y1);
      steps := steps + column;
      xx := xx + OffscreenSize;
      i := i + 1;
    }
    OriginsStep(x0, x1, i);
  }

  /** The compositing pass as the renderer runs it: the bounding box, then the
      nested loops over it. */
  method CompositeLoop(cs: seq<Consumer>) returns (steps: seq<CompositeStep>)
    ensures steps == Composite(cs)
  {
    var bb := BoundingBox(cs);
    if bb.None? {
      return [];
    }
    var b := bb.value;
    steps := GridLoop(cs, b.xMin, b.yMin, b.xMax, b.yMax);
  }
}
