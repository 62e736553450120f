/**
 * The evaluation function of the search (Lib/PlayerAI.cs, class AIParameters):
 * each of the three features (disc count, mobility, stable discs) is weighted
 * by a polynomial in the move number, given by its coefficients in order of
 * increasing power. Doubles are modelled as reals and Math.Pow with a whole
 * exponent as an exact power.
 */
module Evaluation {

  /** The three coefficient arrays _count, _mobility and _stability. */
  datatype AIParameters = AIParameters(count: seq<real>, mobility: seq<real>, stability: seq<real>)

  /** Math.Pow(x, n) for a whole exponent n. */
  function Power(x: real, n: nat): real {
    if n == 0 then 1.0 else x * Power(x, n - 1)
  }

  /** The sum of coeffs[i] * x^i over i < n: what an accumulation loop holds after n rounds. */
  function PolyUpTo(coeffs: seq<real>, x: real, n: nat): real
    requires n <= |coeffs|
  {
    if n == 0 then 0.0 else PolyUpTo(coeffs, x, n - 1) + coeffs[n - 1] * Power(x, n - 1)
  }

  /** The value at x of the polynomial with the given coefficients, lowest power first. */
  function Poly(coeffs: seq<real>, x: real): real {
    PolyUpTo(coeffs, x, |coeffs|)
  }

  /** Horner's rule: an independent evaluation of the same polynomial. */
  function Horner(coeffs: seq<real>, x: real): real {
    if |coeffs| == 0 then 0.0 else coeffs[0] + x * Horner(coeffs[1..], x)
  }

  /** Dropping the constant coefficient divides the rest of the sum by x. */
  lemma {:induction false} PolyUpToShift(coeffs: seq<real>, x: real, n: nat)
    requires 1 <= n <= |coeffs|
    ensures PolyUpTo(coeffs, x, n) == coeffs[0] + x * PolyUpTo(coeffs[1..], x, n - 1)
  {
    if n > 1 {
      PolyUpToShift(coeffs, x, n - 1);
      var rest := PolyUpTo(coeffs[1..], x, n - 2);
      var p := Power(x, n - 2);
      var c := coeffs[n - 1];
      assert PolyUpTo(coeffs, x, n) == coeffs[0] + x * rest + c * (x * p);
      assert c * (x * p) == x * (c * p);
      assert x * rest + x * (c * p) == x * (rest + c * p);
      assert coeffs[1..][n - 2] == c;
    }
  }

  /** The power sum the source accumulates equals Horner's evaluation. */
  lemma {:induction false} PolyIsHorner(coeffs: seq<real>, x: real)
    ensures Poly(coeffs, x) == Horner(coeffs, x)
    decreases |coeffs|
  {
    if |coeffs| > 0 {
      PolyUpToShift(coeffs, x, |coeffs|);
      PolyIsHorner(coeffs[1..], x);
    }
  }

  /** The score GetScore returns: each feature times its multiplier at the move number. */
  function Score(p: AIParameters, move: int, count: int, mobility: int, stability: int): real {
    var n := move as real;
    count as real * Poly(p.count, n) + mobility as real * Poly(p.mobility, n) + stability as real * Poly(p.stability, n)
  }

  /** An empty coefficient array weighs its feature by zero: the score is the same as with that feature at 0. */
  lemma ScoreEmpty(p: AIParameters, move: int, count: int, mobility: int, stability: int)
    ensures p.count == [] ==> Score(p, move, count, mobility, stability) == Score(p, move, 0, mobility, stability)
    ensures p.mobility == [] ==> Score(p, move, count, mobility, stability) == Score(p, move, count, 0, stability)
    ensures p.stability == [] ==> Score(p, move, count, mobility, stability) == Score(p, move, count, mobility, 0)
  {
  }

  /** Evaluated by Horner's rule, the score reads the same. */
  lemma ScoreByHorner(p: AIParameters, move: int, count: int, mobility: int, stability: int)
    ensures var n := move as real;
      Score(p, move, count, mobility, stability) ==
      count as real * Horner(p.count, n) + mobility as real * Horner(p.mobility, n) + stability as real * Horner(p.stability, n)
  {
    PolyIsHorner(p.count, move as real);
    PolyIsHorner(p.mobility, move as real);
    PolyIsHorner(p.stability, move as real);
  }

  /** One accumulation loop of GetScore: the multiplier of a feature at move number n. */
  method Multiplier(coeffs: seq<real>, n: real) returns (mult: real)
    ensures mult == Poly(coeffs, n)
  {
    mult := 0.0;
    for i := 0 to |coeffs|
      invariant mult == PolyUpTo(coeffs, n, i)
    {
      mult := mult + coeffs[i] * Power(n, i);
    }
  }

  /** GetScore: the three multipliers accumulated in loops, then the weighted sum of the features. */
  method GetScore(p: AIParameters, move: int, count: int, mobility: int, stability: int) returns (score: real)
    ensures score == Score(p, move, count, mobility, stability)
  {
    var cMult := Multiplier(p.count, move as real);
    var mMult := Multiplier(p.mobility, move as real);
    var sMult := Multiplier(p.stability, move as real);
    score := count as real * cMult + mobility as real * mMult + stability as real * sMult;
  }

  /** FromPointsLinear: the coefficients [b, m] of the line through (x1, y1) and (x2, y2). */
  function FromPointsLinear(x1: real, y1: real, x2: real, y2: real): (r: seq<real>)
    requires x1 != x2
    ensures |r| == 2
    ensures r[0] + r[1] * x1 == y1 && r[0] + r[1] * x2 == y2
  {
    var m := (y2 - y1) / (x2 - x1);
    assert m * (x2 - x1) == y2 - y1;
    var b := y1 - m * x1;
    [b, m]
  }

  /** Two distinct points fix the line: any [b, m] through both is the one FromPointsLinear returns. */
  lemma LinearUnique(x1: real, y1: real, x2: real, y2: real, b: real, m: real)
    requires x1 != x2
    requires b + m * x1 == y1 && b + m * x2 == y2
    ensures FromPointsLinear(x1, y1, x2, y2) == [b, m]
  {
    var r := FromPointsLinear(x1, y1, x2, y2);
    var k := r[1] - m;
    assert k * x2 - k * x1 == 0.0;
    assert k * (x2 - x1) == 0.0;
    assert k == 0.0;
  }
}
