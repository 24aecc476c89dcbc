/** Vector helpers of the engine (components/GameMap.tsx:9-30).

    The engine calls `Math.sqrt` and, for wandering and spawning, `cos` and
    `sin`. Those are not computable on reals, so they arrive as the oracle
    `Maths`; lemmas that need a true square root assume `IsSqrt`. The
    engine's range tests compare a distance with a non-negative constant,
    and its nearest-target scans compare one distance with the running
    minimum of others; the model performs both on squared distances, which
    `DistanceTestOnSquares` and `Steering.ScanOnSquares` show to decide
    the same.

    The solver is weak at chaining facts about products, so every step
    that needs one lives in a small lemma over plain reals. */
module VectorMath {
  import opened Types

  /** `sqrt` stands for `Math.sqrt`, `cosSin(a)` for `(cos a, sin a)`. */
  datatype Maths = Maths(sqrt: real -> real, cosSin: real -> Vec)

  /** `sqrt` is the true square root on non-negative reals. */
  ghost predicate IsSqrt(sqrt: real -> real) {
    forall x: real {:trigger sqrt(x)} :: 0.0 <= x ==> 0.0 <= sqrt(x) && sqrt(x) * sqrt(x) == x
  }

  /** `cosSin` lands on the unit circle, as `(cos a, sin a)` does. */
  ghost predicate IsCosSin(cosSin: real -> Vec) {
    forall a: real {:trigger cosSin(a)} :: MagSq(cosSin(a)) == 1.0
  }

  function Add(a: Vec, b: Vec): Vec {
    Vec(a.x + b.x, a.y + b.y)
  }

  function Sub(a: Vec, b: Vec): Vec {
    Vec(a.x - b.x, a.y - b.y)
  }

  function Scale(v: Vec, s: real): Vec {
    Vec(v.x * s, v.y * s)
  }

  function Square(a: real): real {
    a * a
  }

  /** Squared magnitude. */
  function MagSq(v: Vec): real {
    v.x * v.x + v.y * v.y
  }

  /** A point read as a vector (`{x: p.lat, y: p.lng}`). */
  function AsVec(p: Coord): Vec {
    Vec(p.lat, p.lng)
  }

  /** `position += velocity`. */
  function Offset(p: Coord, v: Vec): Coord {
    Coord(p.lat + v.x, p.lng + v.y)
  }

  /** Squared Euclidean distance between two points; the engine's
      `getVecDistance` is its square root. */
  function DistSq(p: Coord, q: Coord): real {
    MagSq(Sub(AsVec(p), AsVec(q)))
  }

  /** `normalize`: divides by the magnitude, and maps a vector whose
      magnitude is zero to the zero vector, so it never divides by zero. */
  function Normalize(m: Maths, v: Vec): (r: Vec)
    ensures v == Zero ==> r == Zero
    ensures m.sqrt(MagSq(v)) == 0.0 ==> r == Zero
  {
    var mag := m.sqrt(MagSq(v));
    if mag == 0.0 then Zero else Vec(v.x / mag, v.y / mag)
  }

  /** `limitVec`: unchanged while its squared magnitude is within `max`
      squared, otherwise rescaled (see `LimitCaps`). */
  function Limit(m: Maths, v: Vec, max: real): (r: Vec)
    ensures MagSq(v) <= max * max ==> r == v
    ensures MagSq(v) > max * max ==> r == Scale(Normalize(m, v), max)
  {
    if MagSq(v) > max * max then Scale(Normalize(m, v), max) else v
  }

  lemma SquareNonNegative(a: real)
    ensures 0.0 <= a * a
  {}

  lemma SquareIsNonNegative(a: real)
    ensures 0.0 <= Square(a)
  {
    SquareNonNegative(a);
  }

  lemma ProductPositive(a: real, b: real)
    requires 0.0 < a && 0.0 < b
    ensures 0.0 < a * b
  {}

  lemma DifferenceOfSquares(a: real, b: real)
    ensures b * b - a * a == (b - a) * (b + a)
  {}

  lemma DivideByScaling(x: real, m: real)
    requires m != 0.0
    ensures x / m == x * (1.0 / m)
  {}

  lemma InverseSquared(m: real)
    requires m != 0.0
    ensures ((1.0 / m) * (1.0 / m)) * (m * m) == 1.0
  {}

  lemma TimesOne(a: real)
    ensures a * 1.0 == a
  {}

  lemma MagSqNonNegative(v: Vec)
    ensures 0.0 <= MagSq(v)
  {
    SquareNonNegative(v.x);
    SquareNonNegative(v.y);
  }

  lemma ScaleMagSq(v: Vec, s: real)
    ensures MagSq(Scale(v, s)) == (s * s) * MagSq(v)
  {
    calc {
      MagSq(Scale(v, s));
      (v.x * s) * (v.x * s) + (v.y * s) * (v.y * s);
      (s * s) * (v.x * v.x) + (s * s) * (v.y * v.y);
    }
  }

  /** With a true square root, a vector of positive magnitude normalizes to
      a unit vector. */
  lemma NormalizeIsUnit(m: Maths, v: Vec)
    requires IsSqrt(m.sqrt)
    requires 0.0 < MagSq(v)
    ensures MagSq(Normalize(m, v)) == 1.0
  {
    var mag := m.sqrt(MagSq(v));
    assert mag * mag == MagSq(v);
    DivideByScaling(v.x, mag);
    DivideByScaling(v.y, mag);
    assert Normalize(m, v) == Scale(v, 1.0 / mag);
    ScaleMagSq(v, 1.0 / mag);
    InverseSquared(mag);
  }

  /** With a true square root, `limitVec` returns a vector of squared
      magnitude at most `max` squared: the input itself when it is within
      the cap, and one of magnitude exactly `max` otherwise. */
  lemma LimitCaps(m: Maths, v: Vec, max: real)
    requires IsSqrt(m.sqrt)
    ensures MagSq(Limit(m, v, max)) <= max * max
    ensures MagSq(v) > max * max ==> MagSq(Limit(m, v, max)) == max * max
  {
    if MagSq(v) > max * max {
      SquareNonNegative(max);
      NormalizeIsUnit(m, v);
      ScaleMagSq(Normalize(m, v), max);
      TimesOne(max * max);
    }
  }

  lemma SquareStrict(a: real, b: real)
    requires 0.0 <= a < b
    ensures a * a < b * b
  {
    DifferenceOfSquares(a, b);
    ProductPositive(b - a, b + a);
  }

  /** For non-negative reals, comparing two values and comparing their
      squares agree. */
  lemma SquaresOrdered(a: real, b: real)
    requires 0.0 <= a && 0.0 <= b
    ensures a < b <==> a * a < b * b
    ensures a <= b <==> a * a <= b * b
  {
    if a < b {
      SquareStrict(a, b);
    } else if b < a {
      SquareStrict(b, a);
    }
  }

  /** The engine's distance tests `dist(p, q) < c`, `dist(p, q) <= c`,
      `dist(p, q) > c` and `dist(p, q) > 0` decide the same as the squared
      tests the model performs. */
  lemma DistanceTestOnSquares(m: Maths, p: Coord, q: Coord, c: real)
    requires IsSqrt(m.sqrt)
    requires 0.0 <= c
    ensures m.sqrt(DistSq(p, q)) < c <==> DistSq(p, q) < c * c
    ensures m.sqrt(DistSq(p, q)) <= c <==> DistSq(p, q) <= c * c
    ensures m.sqrt(DistSq(p, q)) > c <==> DistSq(p, q) > c * c
    ensures 0.0 < m.sqrt(DistSq(p, q)) <==> 0.0 < DistSq(p, q)
  {
    MagSqNonNegative(Sub(AsVec(p), AsVec(q)));
    var d := m.sqrt(DistSq(p, q));
    assert d * d == DistSq(p, q);
    SquaresOrdered(d, c);
    SquaresOrdered(0.0, d);
  }
}
