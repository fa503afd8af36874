/** The demo program (`package main`): its own copy of the default constants,
    the glow fields of `Game`, the state `main()` sets up, and
    `Game.drawGlowImage`, a copy of `DrawImageAt` that reads `Game`'s fields. */
module Demo {
  import opened Kernel
  import EbitenGlow

  const BlurDefaultIntensity: real := 0.3
  const BlurDefaultRadius: int := 10
  const BlurDefaultBase: real := 10.0

  /** The glow fields of `Game`; the image list and the unused off-screen
      image are not modelled. */
  datatype Game = Game(blurIntensity: real, blurRadius: int, blurBase: real, glowActive: bool)

  /** The library parameter value holding the same four settings. */
  function AsGlow(game: Game): EbitenGlow.Glow {
    EbitenGlow.Glow(game.blurIntensity, game.blurRadius, game.blurBase, game.glowActive)
  }

  /** The glow settings `main()` stores into the zero-valued `Game` before
      running it. They agree with the library's defaults. */
  function InitialState(): (game: Game)
    ensures AsGlow(game) == EbitenGlow.New()
    ensures game.glowActive
    ensures game.blurIntensity == 0.3 && game.blurRadius == 10 && game.blurBase == 10.0
  {
    var zero := Game(0.0, 0, 0.0, false);
    zero.(blurIntensity := BlurDefaultIntensity, blurRadius := BlurDefaultRadius,
          blurBase := BlurDefaultBase, glowActive := true)
  }

  /** `Game.drawGlowImage`: the halo row by row when the glow is active, then
      the sharp draw at `(x, y)`. It draws exactly what the library's
      `DrawImageAt` draws for the same settings. */
  method DrawGlowImage(game: Game, screen: seq<EbitenGlow.DrawCall>, x: real, y: real)
    returns (screen': seq<EbitenGlow.DrawCall>)
    ensures |screen'| == |screen| + EbitenGlow.DrawCount(AsGlow(game))
    ensures screen'[..|screen|] == screen
    ensures screen'[|screen'| - 1] == EbitenGlow.SharpDraw(x, y)
    ensures !game.glowActive || game.blurRadius < 0 ==>
              screen' == screen + [EbitenGlow.SharpDraw(x, y)]
    ensures screen' == screen + EbitenGlow.GlowTrace(AsGlow(game), x, y)
  {
    screen' := screen;
    if game.glowActive {
      ghost var glow := AsGlow(game);
      var r := game.blurRadius;
      var j := -r;
      while j <= r
        invariant -r <= j && (j <= r + 1 || j == -r)
        invariant screen' == screen + EbitenGlow.KernelDraws(glow, x, y, RowsBefore(r, j))
      {
        EbitenGlow.HaloRow(glow, x, y, j);
        var i := -r;
        while i <= r
          invariant -r <= i <= r + 1
          invariant screen' == screen + EbitenGlow.HaloSoFar(glow, x, y, j, i)
        {
          var o := Offset(i, j);
          var blur := Denominator(game.blurBase, o);
          var alpha := if blur == 0.0 then EbitenGlow.NonFinite
                       else EbitenGlow.Scaled(Coefficient(game.blurIntensity, game.blurBase, o));
          assert alpha == EbitenGlow.KernelScale(glow, o);
          EbitenGlow.HaloStep(glow, x, y, j, i);
          screen' := screen' + [EbitenGlow.DrawCall(x + i as real, y + j as real, alpha)];
          i := i + 1;
        }
        j := j + 1;
      }
      EbitenGlow.HaloDone(glow, x, y, j);
    }
    screen' := screen' + [EbitenGlow.SharpDraw(x, y)];
    EbitenGlow.GlowTraceShape(AsGlow(game), x, y);
  }

  /** Drawing through the demo's copy and through the library with the same
      settings leaves the same screen. */
  method SameTraceAsLibrary(game: Game, screen: seq<EbitenGlow.DrawCall>, x: real, y: real)
    returns (demo: seq<EbitenGlow.DrawCall>, library: seq<EbitenGlow.DrawCall>)
    ensures demo == library
    ensures |demo| == |screen| + EbitenGlow.DrawCount(AsGlow(game))
  {
    demo := DrawGlowImage(game, screen, x, y);
    library := EbitenGlow.DrawImageAt(AsGlow(game), screen, x, y);
  }
}
