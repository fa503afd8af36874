/** The `ebitenglow` package: the `Glow` parameter value, its defaults, and
    `DrawImageAt`, which draws an image with a glow halo.

    The screen is modelled as the sequence of draw requests it has received.
    A `DrawCall` records where the source image is translated to and how its
    alpha channel is scaled; the pixels that Ebiten composites are not part of
    the model. */
module EbitenGlow {
  import opened Kernel

  const BlurDefaultIntensity: real := 0.3
  const BlurDefaultRadius: int := 10
  const BlurDefaultBase: real := 10.0

  /** The tunable glow parameters. The source performs no validation: the
      radius may be negative and the base may cancel a squared distance. */
  datatype Glow = Glow(blurIntensity: real, blurRadius: int, blurBase: real, active: bool)

  /** How one draw scales the source image's alpha. `Unscaled` is a draw with
      default options; `Scaled` multiplies alpha by a finite factor; `NonFinite`
      is a kernel draw whose denominator is exactly zero, where the source
      divides by zero and hands an infinite or NaN factor to Ebiten. */
  datatype AlphaScale = Unscaled | Scaled(factor: real) | NonFinite

  /** One `screen.DrawImage(img, op)`: the translation of `op.GeoM` and the
      alpha scale of `op.ColorScale`. */
  datatype DrawCall = DrawCall(tx: real, ty: real, alpha: AlphaScale)

  /** The parameters `New()` returns. */
  function New(): (g: Glow)
    ensures g.active
    ensures g.blurIntensity == 0.3 && g.blurRadius == 10 && g.blurBase == 10.0
    ensures DrawCount(g) == 21 * 21 + 1
  {
    Glow(BlurDefaultIntensity, BlurDefaultRadius, BlurDefaultBase, true)
  }

  /** Number of draws one `DrawImageAt` issues: a full kernel when the glow is
      active (none when the radius is negative), plus the final sharp draw. */
  function DrawCount(g: Glow): int {
    (if g.active && g.blurRadius >= 0 then Side(g.blurRadius) * Side(g.blurRadius) else 0) + 1
  }

  /** Alpha scale of the kernel draw at offset `o`. */
  function KernelScale(g: Glow, o: Offset): (s: AlphaScale)
    ensures s.NonFinite? <==> g.blurBase == -SquaredDistance(o)
    ensures !s.Unscaled?
  {
    if Denominator(g.blurBase, o) == 0.0 then NonFinite
    else Scaled(Coefficient(g.blurIntensity, g.blurBase, o))
  }

  /** The kernel draw at offset `o` around the destination `(x, y)`. */
  function KernelDraw(g: Glow, x: real, y: real, o: Offset): DrawCall {
    DrawCall(x + o.dx as real, y + o.dy as real, KernelScale(g, o))
  }

  /** The draw that puts the image itself, unscaled, at `(x, y)`. */
  function SharpDraw(x: real, y: real): DrawCall {
    DrawCall(x, y, Unscaled)
  }

  /** The kernel draws for a sequence of offsets, one per offset, in order. */
  function KernelDraws(g: Glow, x: real, y: real, os: seq<Offset>): seq<DrawCall> {
    seq(|os|, k requires 0 <= k < |os| => KernelDraw(g, x, y, os[k]))
  }

  /** Reference definition of the halo: one kernel draw per offset of the
      row-major enumeration of the kernel. */
  function KernelTrace(g: Glow, x: real, y: real): (t: seq<DrawCall>)
    ensures |t| == |Offsets(g.blurRadius)|
    ensures forall k :: 0 <= k < |t| ==> t[k].alpha == KernelScale(g, Offsets(g.blurRadius)[k])
  {
    KernelDraws(g, x, y, Offsets(g.blurRadius))
  }

  /** Reference definition of everything one `DrawImageAt` call draws. */
  function GlowTrace(g: Glow, x: real, y: real): seq<DrawCall> {
    (if g.active then KernelTrace(g, x, y) else []) + [SharpDraw(x, y)]
  }

  /** Drawing for one more offset extends the draws by that offset's kernel draw. */
  lemma KernelDrawsSnoc(g: Glow, x: real, y: real, os: seq<Offset>, o: Offset)
    ensures KernelDraws(g, x, y, os + [o]) == KernelDraws(g, x, y, os) + [KernelDraw(g, x, y, o)]
  {
    assert forall k :: 0 <= k < |os| ==> (os + [o])[k] == os[k];
  }

  /** The halo drawn once the inner loop has passed column `i` of row `j`. */
  function HaloSoFar(g: Glow, x: real, y: real, j: int, i: int): seq<DrawCall> {
    KernelDraws(g, x, y, RowsBefore(g.blurRadius, j) + RowPrefix(g.blurRadius, j, i))
  }

  /** One inner-loop iteration adds the kernel draw for offset `(i, j)`. */
  lemma HaloStep(g: Glow, x: real, y: real, j: int, i: int)
    requires -g.blurRadius <= i
    ensures HaloSoFar(g, x, y, j, i + 1) == HaloSoFar(g, x, y, j, i) + [KernelDraw(g, x, y, Offset(i, j))]
  {
    var r := g.blurRadius;
    assert RowsBefore(r, j) + RowPrefix(r, j, i + 1)
           == (RowsBefore(r, j) + RowPrefix(r, j, i)) + [Offset(i, j)];
    KernelDrawsSnoc(g, x, y, RowsBefore(r, j) + RowPrefix(r, j, i), Offset(i, j));
  }

  /** A row starts with nothing of it drawn, and a finished row completes
      the rows before the next one. */
  lemma HaloRow(g: Glow, x: real, y: real, j: int)
    requires -g.blurRadius <= j
    ensures HaloSoFar(g, x, y, j, -g.blurRadius) == KernelDraws(g, x, y, RowsBefore(g.blurRadius, j))
    ensures HaloSoFar(g, x, y, j, g.blurRadius + 1) == KernelDraws(g, x, y, RowsBefore(g.blurRadius, j + 1))
  {
    var r := g.blurRadius;
    assert RowsBefore(r, j) + RowPrefix(r, j, -r) == RowsBefore(r, j);
  }

  /** When the outer loop stops, every row has been drawn: the whole halo. */
  lemma HaloDone(g: Glow, x: real, y: real, j: int)
    requires j == g.blurRadius + 1 || (g.blurRadius < 0 && j == -g.blurRadius)
    ensures KernelDraws(g, x, y, RowsBefore(g.blurRadius, j)) == KernelTrace(g, x, y)
  {
  }

  /** `(*Glow).DrawImageAt`: appends to the screen the draws of the halo, row
      by row, then the sharp draw at `(x, y)`. */
  method DrawImageAt(g: Glow, screen: seq<DrawCall>, x: real, y: real)
    returns (screen': seq<DrawCall>)
    ensures |screen'| == |screen| + DrawCount(g)
    ensures screen'[..|screen|] == screen
    ensures screen'[|screen'| - 1] == SharpDraw(x, y)
    ensures !g.active || g.blurRadius < 0 ==> screen' == screen + [SharpDraw(x, y)]
    ensures screen' == screen + GlowTrace(g, x, y)
  {
    screen' := screen;
    if g.active {
      var r := g.blurRadius;
      var j := -r;
      while j <= r
        invariant -r <= j && (j <= r + 1 || j == -r)
        invariant screen' == screen + KernelDraws(g, x, y, RowsBefore(r, j))
      {
        HaloRow(g, x, y, j);
        var i := -r;
        while i <= r
          invariant -r <= i <= r + 1
          invariant screen' == screen + HaloSoFar(g, x, y, j, i)
        {
          var o := Offset(i, j);
          var blur := Denominator(g.blurBase, o);
          var alpha := if blur == 0.0 then NonFinite else Scaled(Coefficient(g.blurIntensity, g.blurBase, o));
          assert alpha == KernelScale(g, o);
          HaloStep(g, x, y, j, i);
          screen' := screen' + [DrawCall(x + i as real, y + j as real, alpha)];
          i := i + 1;
        }
        j := j + 1;
      }
      HaloDone(g, x, y, j);
    }
    screen' := screen' + [SharpDraw(x, y)];
    GlowTraceShape(g, x, y);
  }

  /** A call draws `(2r + 1)^2 + 1` times when the glow is active with radius
      `r >= 0`, and otherwise only once; the last draw is always the sharp one. */
  lemma GlowTraceShape(g: Glow, x: real, y: real)
    ensures |GlowTrace(g, x, y)| == DrawCount(g)
    ensures GlowTrace(g, x, y)[|GlowTrace(g, x, y)| - 1] == SharpDraw(x, y)
    ensures !g.active || g.blurRadius < 0 ==> GlowTrace(g, x, y) == [SharpDraw(x, y)]
  {
  }

  /** The draw for offset `(i, j)` of the kernel sits at position
      `(j + r) * (2r + 1) + (i + r)` of the trace, is translated to
      `(x + i, y + j)`, and is scaled by the offset's coefficient. */
  lemma KernelDrawAt(g: Glow, x: real, y: real, o: Offset)
    requires g.active && InKernel(g.blurRadius, o)
    ensures 0 <= Index(g.blurRadius, o) < |GlowTrace(g, x, y)| - 1
    ensures GlowTrace(g, x, y)[Index(g.blurRadius, o)]
            == DrawCall(x + o.dx as real, y + o.dy as real, KernelScale(g, o))
  {
    OffsetAtIndex(g.blurRadius, o);
  }

  /** Conversely, every draw but the last is a kernel draw: the `k`-th one is
      the draw for column `k % (2r + 1) - r` of row `k / (2r + 1) - r`, an
      offset inside the kernel. */
  lemma {:induction false} KernelDrawsInKernel(g: Glow, x: real, y: real, k: int)
    requires 0 <= k < |GlowTrace(g, x, y)| - 1
    ensures g.active && g.blurRadius >= 0
    ensures InKernel(g.blurRadius, Offsets(g.blurRadius)[k])
    ensures Offsets(g.blurRadius)[k]
            == Offset(k % Side(g.blurRadius) - g.blurRadius, k / Side(g.blurRadius) - g.blurRadius)
    ensures GlowTrace(g, x, y)[k] == KernelDraw(g, x, y, Offsets(g.blurRadius)[k])
  {
    OffsetsInKernel(g.blurRadius, k);
    OffsetsClosedForm(g.blurRadius, k);
  }

  /** The halo is drawn in row-major order: of two kernel draws, the earlier
      one is on a higher row, or on the same row and further left. No kernel
      position is drawn twice. */
  lemma KernelDrawsRowMajor(g: Glow, x: real, y: real, k1: int, k2: int)
    requires 0 <= k1 < k2 < |GlowTrace(g, x, y)| - 1
    ensures GlowTrace(g, x, y)[k1].ty < GlowTrace(g, x, y)[k2].ty
            || (GlowTrace(g, x, y)[k1].ty == GlowTrace(g, x, y)[k2].ty
                && GlowTrace(g, x, y)[k1].tx < GlowTrace(g, x, y)[k2].tx)
    ensures GlowTrace(g, x, y)[k1] != GlowTrace(g, x, y)[k2]
  {
    KernelDrawsInKernel(g, x, y, k1);
    KernelDrawsInKernel(g, x, y, k2);
    OffsetsRowMajor(g.blurRadius, k1, k2);
  }

  /** The last draw, and only the last, is the unscaled draw at `(x, y)`. */
  lemma OnlyLastDrawIsSharp(g: Glow, x: real, y: real, k: int)
    requires 0 <= k < |GlowTrace(g, x, y)|
    ensures GlowTrace(g, x, y)[k].alpha.Unscaled? <==> k == |GlowTrace(g, x, y)| - 1
    ensures k == |GlowTrace(g, x, y)| - 1 ==> GlowTrace(g, x, y)[k] == SharpDraw(x, y)
  {
    if k < |GlowTrace(g, x, y)| - 1 {
      KernelDrawsInKernel(g, x, y, k);
    }
  }

  /** Multiplying a kernel draw's finite alpha factor back by its denominator
      gives the intensity: the factor is `BlurIntensity / (i*i + j*j + BlurBase)`. */
  lemma KernelScaleValue(g: Glow, o: Offset)
    requires Denominator(g.blurBase, o) != 0.0
    ensures KernelScale(g, o).Scaled?
    ensures KernelScale(g, o).factor * Denominator(g.blurBase, o) == g.blurIntensity
  {
    CoefficientTimesDenominator(g.blurIntensity, g.blurBase, o);
  }

  /** With a positive base every kernel draw has a finite factor, positive
      exactly when the intensity is, and the draw at the centre of the
      kernel is the brightest of the halo. */
  lemma PositiveBaseHalo(g: Glow, x: real, y: real, k: int)
    requires g.blurBase > 0.0
    requires 0 <= k < |GlowTrace(g, x, y)| - 1
    ensures GlowTrace(g, x, y)[k].alpha.Scaled?
    ensures GlowTrace(g, x, y)[k].alpha.factor > 0.0 <==> g.blurIntensity > 0.0
    ensures g.blurIntensity > 0.0 ==>
              GlowTrace(g, x, y)[Index(g.blurRadius, Offset(0, 0))].alpha.Scaled?
              && GlowTrace(g, x, y)[Index(g.blurRadius, Offset(0, 0))].alpha.factor
                 >= GlowTrace(g, x, y)[k].alpha.factor
  {
    var r := g.blurRadius;
    KernelDrawsInKernel(g, x, y, k);
    var o := Offsets(r)[k];
    SquaredDistanceSign(o);
    if g.blurIntensity > 0.0 {
      var centre := Offset(0, 0);
      KernelDrawAt(g, x, y, centre);
      SquaredDistanceSign(centre);
      CentreIsBrightest(g.blurIntensity, g.blurBase, o);
    }
  }

  /** For an active glow of radius `r >= 0` the halo starts at the top-left
      corner `(x - r, y - r)` and ends at the bottom-right corner
      `(x + r, y + r)`, just before the sharp draw. */
  lemma HaloCorners(g: Glow, x: real, y: real)
    requires g.active && g.blurRadius >= 0
    ensures |GlowTrace(g, x, y)| == Side(g.blurRadius) * Side(g.blurRadius) + 1
    ensures GlowTrace(g, x, y)[0].tx == x - g.blurRadius as real
    ensures GlowTrace(g, x, y)[0].ty == y - g.blurRadius as real
    ensures GlowTrace(g, x, y)[|GlowTrace(g, x, y)| - 2].tx == x + g.blurRadius as real
    ensures GlowTrace(g, x, y)[|GlowTrace(g, x, y)| - 2].ty == y + g.blurRadius as real
  {
    var r := g.blurRadius;
    GlowTraceShape(g, x, y);
    SideSquare(r);
    assert Index(r, Offset(-r, -r)) == 0 by {
      assert (-r + r) * Side(r) == 0;
    }
    KernelDrawAt(g, x, y, Offset(-r, -r));
    KernelDrawAt(g, x, y, Offset(r, r));
    assert GlowTrace(g, x, y)[0] == KernelDraw(g, x, y, Offset(-r, -r));
  }

  /** For an active glow of radius `r >= 0` the draw at the centre `(x, y)`
      is the middle one of the halo, and is scaled as the centre offset
      prescribes. */
  lemma HaloCentre(g: Glow, x: real, y: real)
    requires g.active && g.blurRadius >= 0
    ensures |GlowTrace(g, x, y)| == 2 * Index(g.blurRadius, Offset(0, 0)) + 2
    ensures GlowTrace(g, x, y)[Index(g.blurRadius, Offset(0, 0))]
            == DrawCall(x, y, KernelScale(g, Offset(0, 0)))
  {
    GlowTraceShape(g, x, y);
    SideSquare(g.blurRadius);
    KernelDrawAt(g, x, y, Offset(0, 0));
  }

  /** With a non-zero base the centre offset's alpha factor is
      `BlurIntensity / BlurBase`. */
  lemma CentreScale(g: Glow)
    requires g.blurBase != 0.0
    ensures KernelScale(g, Offset(0, 0)) == Scaled(g.blurIntensity / g.blurBase)
  {
    assert SquaredDistance(Offset(0, 0)) == 0.0;
    CoefficientTimesDenominator(g.blurIntensity, g.blurBase, Offset(0, 0));
  }
}
