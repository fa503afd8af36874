/** The blur kernel of the glow effect: the square grid of integer offsets
    `[-radius, radius] x [-radius, radius]` walked in row-major order, and the
    attenuation coefficient `intensity / (dx*dx + dy*dy + base)` of one offset.

    Coordinates and coefficients are modelled over `real`; the source computes
    them in float64/float32. */
module Kernel {

  /** One offset of the kernel: `dx` is the inner (column) index `i`, `dy` the
      outer (row) index `j`. */
  datatype Offset = Offset(dx: int, dy: int)

  /** Number of offsets per row (and per column) of a kernel of this radius. */
  function Side(radius: int): int {
    2 * radius + 1
  }

  /** The offset lies in the square `[-radius, radius]^2`. */
  predicate InKernel(radius: int, o: Offset) {
    -radius <= o.dx <= radius && -radius <= o.dy <= radius
  }

  /** Position of an offset in the row-major walk: rows (dy) outside, columns (dx) inside. */
  function Index(radius: int, o: Offset): int {
    (o.dy + radius) * Side(radius) + (o.dx + radius)
  }

  /** `a` is visited strictly before `b` by a walk with `dy` outside and `dx` inside. */
  predicate RowMajorBefore(a: Offset, b: Offset) {
    a.dy < b.dy || (a.dy == b.dy && a.dx < b.dx)
  }

  /** The offsets of row `j` that the inner loop has visited once its counter
      has reached `i`: columns `-radius .. i - 1`, left to right. */
  function RowPrefix(radius: int, j: int, i: int): seq<Offset>
    decreases i + radius
  {
    if i <= -radius then [] else RowPrefix(radius, j, i - 1) + [Offset(i - 1, j)]
  }

  /** The offsets that the outer loop has visited once its counter has reached
      `j`: the complete rows `-radius .. j - 1`, top to bottom. */
  function RowsBefore(radius: int, j: int): seq<Offset>
    decreases j + radius
  {
    if j <= -radius then [] else RowsBefore(radius, j - 1) + RowPrefix(radius, j - 1, radius + 1)
  }

  /** Every offset the two nested loops visit, in visiting order. A negative
      radius gives no offset at all: the outer loop does not run. */
  function Offsets(radius: int): (os: seq<Offset>)
    ensures radius < 0 ==> |os| == 0
    ensures radius >= 0 ==> |os| == Side(radius) * Side(radius)
  {
    if radius >= 0 then RowsBeforeShape(radius, radius + 1); RowsBefore(radius, radius + 1)
    else RowsBefore(radius, radius + 1)
  }

  // Arithmetic helpers for the row-major position. They have no counterpart
  // in the drawing code.

  lemma MulAtLeast(a: int, n: int)
    requires a >= 1 && n >= 0
    ensures a * n >= n
  {
    assert a * n == (a - 1) * n + n;
  }

  lemma MulNonNegative(a: int, n: int)
    requires a >= 0 && n >= 0
    ensures a * n >= 0
  {
  }

  lemma MulSucc(a: int, n: int)
    ensures (a + 1) * n == a * n + n
  {
  }

  lemma MulCancelLess(a: int, b: int, n: int)
    requires n > 0 && a * n < b * n
    ensures a < b
  {
  }

  /** Euclidean division is unique: `q * n + m` with `0 <= m < n` splits back into `q` and `m`. */
  lemma DivModUnique(n: int, q: int, m: int)
    requires n > 0 && 0 <= m < n
    ensures (q * n + m) / n == q && (q * n + m) % n == m
  {
    var k := q * n + m;
    var q', m' := k / n, k % n;
    assert k == q' * n + m';
    assert (q - q') * n == m' - m;
    if q > q' {
      MulAtLeast(q - q', n);
    } else if q < q' {
      MulAtLeast(q' - q, n);
    }
  }

  /** The kernel's last position is twice the centre's: the centre offset
      `(0, 0)` sits in the middle of the row-major walk. */
  lemma SideSquare(radius: int)
    ensures Index(radius, Offset(radius, radius)) == Side(radius) * Side(radius) - 1
    ensures Index(radius, Offset(radius, radius)) == 2 * Index(radius, Offset(0, 0))
  {
    var n := Side(radius);
    MulSucc(2 * radius, n);
    assert (2 * radius) * n == 2 * (radius * n);
  }

  /** The inner loop visits the columns of its row left to right: the `c`-th
      offset of a row prefix is in column `c - radius`. */
  lemma {:induction false} RowPrefixShape(radius: int, j: int, i: int)
    requires -radius <= i
    ensures |RowPrefix(radius, j, i)| == i + radius
    ensures forall c :: 0 <= c < |RowPrefix(radius, j, i)| ==>
              RowPrefix(radius, j, i)[c] == Offset(c - radius, j)
    decreases i + radius
  {
    if i > -radius {
      RowPrefixShape(radius, j, i - 1);
    }
  }

  /** The outer loop visits whole rows, top to bottom: the rows before `j` hold
      `(j + radius)` rows of `2 * radius + 1` offsets, every one in the kernel,
      above row `j`, and at its row-major position. */
  lemma {:induction false} RowsBeforeShape(radius: int, j: int)
    requires radius >= 0 && -radius <= j
    ensures |RowsBefore(radius, j)| == (j + radius) * Side(radius)
    ensures forall k :: 0 <= k < |RowsBefore(radius, j)| ==>
              -radius <= RowsBefore(radius, j)[k].dx <= radius
              && -radius <= RowsBefore(radius, j)[k].dy < j
              && Index(radius, RowsBefore(radius, j)[k]) == k
    decreases j + radius
  {
    if j > -radius {
      var before, row := RowsBefore(radius, j - 1), RowPrefix(radius, j - 1, radius + 1);
      RowsBeforeShape(radius, j - 1);
      RowPrefixShape(radius, j - 1, radius + 1);
      MulSucc(j - 1 + radius, Side(radius));
      forall k | |before| <= k < |RowsBefore(radius, j)|
        ensures Index(radius, RowsBefore(radius, j)[k]) == k
      {
        assert RowsBefore(radius, j)[k] == row[k - |before|];
      }
    }
  }

  /** Every offset of a row above `j` inside the kernel has been visited by
      the time the outer loop reaches `j`, at its row-major position. */
  lemma {:induction false} RowsBeforeContain(radius: int, j: int, o: Offset)
    requires -radius <= o.dx <= radius && -radius <= o.dy < j
    ensures 0 <= Index(radius, o) < |RowsBefore(radius, j)|
    ensures RowsBefore(radius, j)[Index(radius, o)] == o
    decreases j + radius
  {
    var before := RowsBefore(radius, j - 1);
    RowsBeforeShape(radius, j - 1);
    if o.dy == j - 1 {
      RowPrefixShape(radius, j - 1, radius + 1);
      MulNonNegative(j - 1 + radius, Side(radius));
      assert RowsBefore(radius, j)[Index(radius, o)] == RowPrefix(radius, j - 1, radius + 1)[o.dx + radius];
    } else {
      RowsBeforeContain(radius, j - 1, o);
    }
  }

  /** Every enumerated offset lies in the kernel, and it sits at the position
      the row-major formula gives it. */
  lemma {:induction false} OffsetsInKernel(radius: int, k: int)
    requires 0 <= k < |Offsets(radius)|
    ensures InKernel(radius, Offsets(radius)[k])
    ensures Index(radius, Offsets(radius)[k]) == k
  {
    RowsBeforeShape(radius, radius + 1);
  }

  /** Every offset of the square is enumerated, at its row-major position. */
  lemma {:induction false} OffsetAtIndex(radius: int, o: Offset)
    requires InKernel(radius, o)
    ensures 0 <= Index(radius, o) < |Offsets(radius)|
    ensures Offsets(radius)[Index(radius, o)] == o
  {
    RowsBeforeContain(radius, radius + 1, o);
  }

  /** The enumeration holds exactly the offsets of the square, in both directions. */
  lemma {:induction false} OffsetsAreKernel(radius: int, o: Offset)
    ensures o in Offsets(radius) <==> InKernel(radius, o)
  {
    if o in Offsets(radius) {
      var k :| 0 <= k < |Offsets(radius)| && Offsets(radius)[k] == o;
      OffsetsInKernel(radius, k);
    }
    if InKernel(radius, o) {
      OffsetAtIndex(radius, o);
    }
  }

  /** The `k`-th offset visited is in column `k % (2r + 1) - r` of row
      `k / (2r + 1) - r`: the closed form of the row-major walk. */
  lemma {:induction false} OffsetsClosedForm(radius: int, k: int)
    requires 0 <= k < |Offsets(radius)|
    ensures Offsets(radius)[k]
            == Offset(k % Side(radius) - radius, k / Side(radius) - radius)
  {
    var o := Offsets(radius)[k];
    OffsetsInKernel(radius, k);
    DivModUnique(Side(radius), o.dy + radius, o.dx + radius);
  }

  /** The walk is row-major: an earlier position holds an offset with a smaller
      row, or the same row and a smaller column. In particular no offset is
      visited twice. */
  lemma {:induction false} OffsetsRowMajor(radius: int, k1: int, k2: int)
    requires 0 <= k1 < k2 < |Offsets(radius)|
    ensures RowMajorBefore(Offsets(radius)[k1], Offsets(radius)[k2])
    ensures Offsets(radius)[k1] != Offsets(radius)[k2]
  {
    var a, b := Offsets(radius)[k1], Offsets(radius)[k2];
    var n := Side(radius);
    OffsetsInKernel(radius, k1);
    OffsetsInKernel(radius, k2);
    var ra, rb := a.dy + radius, b.dy + radius;
    assert k1 == ra * n + (a.dx + radius);
    assert k2 == rb * n + (b.dx + radius);
    MulSucc(rb, n);
    MulCancelLess(ra, rb + 1, n);
  }

  /** Squared distance `i*i + j*j` of an offset from the centre, as the
      float64 the source converts it to. */
  function SquaredDistance(o: Offset): real {
    var x, y := o.dx as real, o.dy as real;
    x * x + y * y
  }

  /** Only the centre of the kernel is at distance zero; every other offset is
      strictly farther. */
  lemma SquaredDistanceSign(o: Offset)
    ensures SquaredDistance(o) >= 0.0
    ensures o == Offset(0, 0) <==> SquaredDistance(o) == 0.0
  {
    var x, y := o.dx as real, o.dy as real;
    assert x * x >= 0.0 && y * y >= 0.0;
    if x != 0.0 {
      assert x * x > 0.0;
    }
    if y != 0.0 {
      assert y * y > 0.0;
    }
  }

  /** The denominator `float64(i*i + j*j) + base` of one offset. */
  function Denominator(base: real, o: Offset): real {
    SquaredDistance(o) + base
  }

  /** Alpha scale of one kernel draw: the reciprocal of the denominator,
      multiplied by the intensity. Undefined when the denominator is zero. */
  function Coefficient(intensity: real, base: real, o: Offset): (c: real)
    requires Denominator(base, o) != 0.0
    ensures Denominator(base, o) > 0.0 ==> (c > 0.0 <==> intensity > 0.0)
    ensures c == 0.0 <==> intensity == 0.0
  {
    (1.0 / Denominator(base, o)) * intensity
  }

  /** Multiplying the coefficient back by its denominator gives the intensity:
      the coefficient is exactly `intensity / (i*i + j*j + base)`. */
  lemma CoefficientTimesDenominator(intensity: real, base: real, o: Offset)
    requires Denominator(base, o) != 0.0
    ensures Coefficient(intensity, base, o) * Denominator(base, o) == intensity
  {
  }

  /** Two positive reciprocals of the same positive numerator are ordered
      inversely to their denominators. */
  lemma ReciprocalOrder(num: real, cn: real, dn: real, cf: real, df: real)
    requires num > 0.0 && 0.0 < dn <= df
    requires cn * dn == num && cf * df == num
    ensures cn >= cf
    ensures dn < df ==> cn > cf
  {
    assert cf > 0.0;
    assert cf * dn <= cf * df;
    assert (cn - cf) * dn >= 0.0;
    if dn < df {
      assert cf * dn < cf * df;
      assert (cn - cf) * dn > 0.0;
    }
  }

  /** With a positive base and intensity, the coefficient falls off with the
      distance from the centre: a nearer offset is at least as bright, and
      strictly brighter when it is strictly nearer. */
  lemma FalloffMonotone(intensity: real, base: real, near: Offset, far: Offset)
    requires intensity > 0.0 && base > 0.0
    requires SquaredDistance(near) <= SquaredDistance(far)
    ensures Coefficient(intensity, base, near) >= Coefficient(intensity, base, far)
    ensures SquaredDistance(near) < SquaredDistance(far) ==>
              Coefficient(intensity, base, near) > Coefficient(intensity, base, far)
  {
    SquaredDistanceSign(near);
    CoefficientTimesDenominator(intensity, base, near);
    CoefficientTimesDenominator(intensity, base, far);
    ReciprocalOrder(intensity, Coefficient(intensity, base, near), Denominator(base, near),
                    Coefficient(intensity, base, far), Denominator(base, far));
  }

  /** The centre of the kernel carries the largest coefficient, strictly
      larger than that of any other offset. */
  lemma CentreIsBrightest(intensity: real, base: real, o: Offset)
    requires intensity > 0.0 && base > 0.0
    ensures Coefficient(intensity, base, Offset(0, 0)) >= Coefficient(intensity, base, o)
    ensures o != Offset(0, 0) ==>
              Coefficient(intensity, base, Offset(0, 0)) > Coefficient(intensity, base, o)
  {
    SquaredDistanceSign(o);
    SquaredDistanceSign(Offset(0, 0));
    FalloffMonotone(intensity, base, Offset(0, 0), o);
  }
}
