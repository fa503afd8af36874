# ebiten-glow draw-call model

ebiten-glow adds a glow to an Ebiten image by drawing the image many times.
`DrawImageAt` puts a halo around the image when the glow is active. The halo
has one translucent copy per offset `(i, j)` of the square
`[-BlurRadius, BlurRadius]^2`. The rows `j` are walked in the outer loop and
the columns `i` in the inner one. The copy at `(i, j)` is translated to
`(x + i, y + j)`, and its alpha is scaled by
`BlurIntensity / (i*i + j*j + BlurBase)`. The call ends with one unscaled draw
of the image at `(x, y)`. The demo program keeps its own copy of this routine,
`Game.drawGlowImage`, which reads its settings from the `Game` fields. Its
`main()` sets those fields to the library defaults.

The model records the screen as the sequence of draw requests it has received.
Each `DrawCall` holds a translation and an alpha scale.

- `kernel.dfy` (module `Kernel`) has three parts:
  - the offset square, enumerated the way the two nested loops walk it: `RowPrefix` holds the columns of one row visited so far, `RowsBefore` the finished rows, and `Offsets` the whole walk;
  - the row-major position `(j + r)(2r + 1) + (i + r)` of each offset, and its closed form `k % (2r + 1)`, `k / (2r + 1)`;
  - the attenuation coefficient, and the facts about both parts: coverage, order, distinctness, and fall-off from the centre.
- `glow.dfy` (module `EbitenGlow`) has these parts:
  - the `Glow` value and `New()`;
  - the reference trace `GlowTrace`;
  - `DrawImageAt` as a loop program, proved to append exactly `GlowTrace`;
  - lemmas about the shape of the trace.
- `demo.dfy` (module `Demo`) has three parts:
  - the glow fields of `Game`;
  - the state `main()` sets up;
  - `DrawGlowImage`, proved to append the same trace as the library.

A kernel draw whose denominator `i*i + j*j + BlurBase` is exactly zero makes
the source divide by zero, which gives Ebiten an infinite or NaN factor. The
model records such a draw as the alpha scale `NonFinite`. The code validates
none of its settings, so the model rejects no input either. An active glow
with a negative radius issues only the sharp draw (apart from the platform's
minimum `int`, see "## Left out").

## Model

| member | source | states |
|---|---|---|
| Kernel.Offsets | glow.go:57-58 | the two nested loops visit `(2r + 1)^2` offsets when `r >= 0`, and none when the radius is negative |
| Kernel.RowPrefixShape | glow.go:58-60 | the inner loop visits the columns of its row left to right: after reaching column `i` it has visited `i + r` offsets, the `c`-th in column `c - r` |
| Kernel.RowsBeforeShape | glow.go:57-60 | after the outer loop reaches row `j` it has visited `(j + r)(2r + 1)` offsets, all inside the square, above row `j`, each at its row-major position |
| Kernel.RowsBeforeContain | glow.go:57-60 | every offset of the square above row `j` has been visited by the time the outer loop reaches `j` |
| Kernel.OffsetsInKernel | glow.go:57-58 | every offset the loops visit lies in `[-r, r]^2`, and the `k`-th one visited sits at row-major position `k` |
| Kernel.OffsetAtIndex | glow.go:57-60 | every offset of the square is visited, at position `(j + r)(2r + 1) + (i + r)` |
| Kernel.OffsetsAreKernel | glow.go:57-58 | the loops visit an offset if and only if it lies in the square |
| Kernel.OffsetsClosedForm | glow.go:57-58 | the `k`-th offset visited is column `k % (2r + 1) - r` of row `k / (2r + 1) - r` |
| Kernel.OffsetsRowMajor | glow.go:57-58 | the visit order is row-major (outer `j`, inner `i`), so no offset is visited twice |
| Kernel.SideSquare | glow.go:57-58 | the last position of the walk is `(2r + 1)^2 - 1`, twice the centre's position |
| Kernel.SquaredDistanceSign | glow.go:62 | `i*i + j*j` is non-negative and is zero only at the centre |
| Kernel.Coefficient | glow.go:62-64 | the alpha factor is zero exactly when the intensity is zero; with a positive denominator it is positive exactly when the intensity is |
| Kernel.CoefficientTimesDenominator | glow.go:62-64 | the factor `(1 / blur) * intensity` times `blur` gives back the intensity |
| Kernel.FalloffMonotone | glow.go:62-64 | with positive base and intensity, an offset at least as near the centre gets at least as large a factor, and a strictly nearer one gets a strictly larger factor |
| Kernel.CentreIsBrightest | glow.go:62-64 | with positive base and intensity, the centre offset has the largest factor, strictly larger than any other offset's |
| EbitenGlow.New | glow.go:30-37 | `New()` returns an active glow with intensity 0.3, radius 10 and base 10.0, which draws 21*21 + 1 times |
| EbitenGlow.KernelScale | glow.go:62-64 | a kernel draw is never unscaled, and its factor is non-finite exactly when `BlurBase == -(i*i + j*j)` |
| EbitenGlow.KernelTrace | glow.go:57-67 | the halo the two loops draw, as a reference: one draw per enumerated offset, in the walk's order, each carrying that offset's `KernelScale`; the whole call's reference trace `GlowTrace` is this halo (when active) followed by the sharp draw |
| EbitenGlow.DrawImageAt | glow.go:50-72 | the call appends `DrawCount` draws and keeps the earlier ones; the last is the sharp draw at `(x, y)`; an inactive glow or a negative radius gives only that draw; the appended draws are exactly the reference trace |
| EbitenGlow.HaloStep | glow.go:58-65 | one inner-loop iteration extends the halo drawn so far by the kernel draw for offset `(i, j)` |
| EbitenGlow.HaloRow | glow.go:57-66 | a row starts with none of its draws made, and a finished row completes the rows before the next one |
| EbitenGlow.HaloDone | glow.go:54-68 | when the outer loop stops, the whole halo has been drawn |
| EbitenGlow.GlowTraceShape | glow.go:54-71 | the trace has `(2r + 1)^2 + 1` draws when the glow is active with `r >= 0`, and only the sharp draw otherwise |
| EbitenGlow.KernelDrawAt | glow.go:57-65 | the draw for offset `(i, j)` sits at position `(j + r)(2r + 1) + (i + r)`, is translated to `(x + i, y + j)` and carries that offset's alpha scale |
| EbitenGlow.KernelDrawsInKernel | glow.go:54-65 | every draw before the last is the kernel draw for column `k % (2r + 1) - r` of row `k / (2r + 1) - r`, an offset inside the square, and such draws exist only for an active glow with `r >= 0` |
| EbitenGlow.KernelDrawsRowMajor | glow.go:57-60 | of two halo draws, the earlier one has a smaller `y` translation, or the same `y` and a smaller `x`; no two are equal |
| EbitenGlow.OnlyLastDrawIsSharp | glow.go:51-71 | the last draw, and only the last, is issued without a `ScaleAlpha` call, and it is at `(x, y)` |
| EbitenGlow.KernelScaleValue | glow.go:62-64 | a kernel draw with a non-zero denominator has a finite factor equal to `BlurIntensity / (i*i + j*j + BlurBase)` |
| EbitenGlow.PositiveBaseHalo | glow.go:62-64 | with a positive base every halo draw is finitely scaled, with a positive factor exactly when the intensity is positive, and then the centre draw is the brightest |
| EbitenGlow.HaloCorners | glow.go:57-60 | an active halo of radius `r >= 0` starts at `(x - r, y - r)` and ends at `(x + r, y + r)`, just before the sharp draw |
| EbitenGlow.HaloCentre | glow.go:57-65 | the halo's draw at the centre `(x, y)` is its middle draw, scaled as the centre offset prescribes |
| EbitenGlow.CentreScale | glow.go:62-64 | with a non-zero base the centre draw's factor is `BlurIntensity / BlurBase` |
| Demo.InitialState | main.go:146-150 | `main()` leaves the glow active with the defaults 0.3, 10 and 10.0, the same settings as the library's `New()` |
| Demo.DrawGlowImage | main.go:71-93 | `drawGlowImage` appends exactly the library's trace for the same settings, with the same count, prefix and final sharp draw |
| Demo.SameTraceAsLibrary | main.go:71-93 | the demo's copy and the library's `DrawImageAt` leave the same screen for any settings, screen and position |

## Left out

- Pixels: Ebiten's compositing of the draws is not modelled. The `img` argument is not recorded either, since every draw of one call uses the same image.
- Floating point: coordinates, the base and the intensity are exact reals. The model does not include the float32 rounding of `1.0 / float32(blur)` and of `coef * BlurIntensity`, nor the float64 rounding of `x + float64(i)`.
- EbitenGlow.New: the default intensity is the exact real 0.3, not the float32 nearest to it.
- Demo.InitialState: the default intensity is the exact real 0.3, not the float32 nearest to it.
- EbitenGlow.KernelScale: all non-finite factors (positive or negative infinity, NaN) are one value, `NonFinite`. A denominator that is non-zero but underflows to zero in float32 is modelled as finite.
- Integer width: integers are unbounded. Go's `int` overflow is not modelled: not for `i*i + j*j` and the loop counters at radii near the platform's maximum, and not for the minimum radius `math.MinInt`, where `-BlurRadius` wraps back to `math.MinInt`. For that radius each loop runs once with `i = j = math.MinInt`, `i*i + j*j` wraps to 0, and the source issues one kernel draw at `(x + math.MinInt, y + math.MinInt)` with factor `BlurIntensity / BlurBase` before the sharp draw.
- EbitenGlow.DrawImageAt: for `BlurRadius == math.MinInt` it promises one draw where the source issues two, because of the wrap-around above.
- EbitenGlow.GlowTraceShape: for `BlurRadius == math.MinInt` it gives one draw where the source issues two, because of the wrap-around above.
- Demo.DrawGlowImage: for `blurRadius == math.MinInt` it promises one draw where the source issues two, because of the wrap-around above.
- EbitenGlow.OnlyLastDrawIsSharp: a kernel draw whose factor is exactly 1 (for instance the centre draw when `BlurIntensity == BlurBase`) is recorded as `Scaled(1.0)`, distinct from `Unscaled`. To Ebiten, `ScaleAlpha(1)` leaves the default colour scale, so such a draw has the same options as an unscaled draw. The lemma distinguishes the draws by whether `ScaleAlpha` is called, not by their effect.
- `Game.Update` (keyboard handling), `Game.Draw` (text overlay and the calls to `drawGlowImage`), `Game.Layout`, window setup and `ebiten.RunGame`: input, rendering of UI and the event loop are outside the draw-call logic.
- `Game.img` and `Game.offscreen`: image handles with no effect on which draws are issued; `offscreen` is never read.
- example/main.go is not part of this model.
- The "Box blur (7x7)" comments in both copies of the loop are stale: the kernel size follows the radius, as the model states.
