/**
 The single-bin filter of the DTMF receiver over exact reals, with cos w and sin w replaced by
 any c, s such that c*c + s*s == 1. Proved equal to one bin of the discrete Fourier transform.
 */
module Goertzel {

  datatype Complex = Complex(re: real, im: real)

  function Plus(a: Complex, b: Complex): Complex {
    Complex(a.re + b.re, a.im + b.im)
  }

  function Times(a: Complex, b: Complex): Complex {
    Complex(a.re * b.re - a.im * b.im, a.re * b.im + a.im * b.re)
  }

  function Scale(x: real, a: Complex): Complex {
    Complex(x * a.re, x * a.im)
  }

  function Conjugate(a: Complex): Complex {
    Complex(a.re, -a.im)
  }

  function Norm(a: Complex): real {
    a.re * a.re + a.im * a.im
  }

  function Power(z: Complex, n: nat): Complex {
    if n == 0 then Complex(1.0, 0.0) else Times(z, Power(z, n - 1))
  }

  ghost predicate Unit(z: Complex) {
    Norm(z) == 1.0
  }

  /** The bin of the transform at rotation z: the sum of x[k] * conj(z)^k. */
  function Bin(z: Complex, x: seq<real>): Complex {
    if x == [] then Complex(0.0, 0.0)
    else Plus(Bin(z, x[..|x| - 1]), Scale(x[|x| - 1], Power(Conjugate(z), |x| - 1)))
  }

  /** The filter's two delay elements. */
  datatype State = State(q0: real, q1: real)

  function Step(c: real, st: State, sample: real): State {
    State(2.0 * c * st.q0 - st.q1 + sample, st.q0)
  }

  function Run(c: real, x: seq<real>): State {
    if x == [] then State(0.0, 0.0) else Step(c, Run(c, x[..|x| - 1]), x[|x| - 1])
  }

  function ResultOf(z: Complex, st: State): Complex {
    Complex(z.re * st.q0 - st.q1, z.im * st.q0)
  }

  function PowerOf(c: real, st: State): real {
    st.q0 * st.q0 + st.q1 * st.q1 - st.q0 * st.q1 * (2.0 * c)
  }

  class Goertzel {
    var cosw: real
    var sinw: real
    var twoCosw: real
    var q0: real
    var q1: real

    ghost predicate Valid()
      reads this
    {
      twoCosw == 2.0 * cosw
    }

    ghost function Rotation(): Complex
      reads this
    {
      Complex(cosw, sinw)
    }

    ghost function Delays(): State
      reads this
    {
      State(q0, q1)
    }

    /** initialize, given cos w and sin w. */
    constructor (c: real, s: real)
      ensures Valid() && Rotation() == Complex(c, s) && Delays() == Run(c, [])
      ensures q0 == 0.0 && q1 == 0.0
    {
      cosw := c;
      sinw := s;
      twoCosw := 2.0 * c;
      q0 := 0.0;
      q1 := 0.0;
    }

    method Reset()
      modifies this`q0, this`q1
      ensures Delays() == Run(cosw, []) && q0 == 0.0 && q1 == 0.0
    {
      q1 := 0.0;
      q0 := q1;
    }

    method Calc(sample: real)
      requires Valid()
      modifies this`q0, this`q1
      ensures Valid() && Delays() == Step(cosw, old(Delays()), sample)
      ensures q0 == 2.0 * cosw * old(q0) - old(q1) + sample && q1 == old(q0)
    {
      var q2 := q1;
      q1 := q0;
      q0 := twoCosw * q1 - q2 + sample;
    }

    method Result() returns (r: Complex)
      ensures r == ResultOf(Rotation(), Delays()) && r.re == cosw * q0 - q1 && r.im == sinw * q0
    {
      r := Complex(cosw * q0 - q1, sinw * q0);
    }

    method MagnitudeSquared() returns (m: real)
      requires Valid()
      ensures m == PowerOf(cosw, Delays()) == q0 * q0 + q1 * q1 - q0 * q1 * (2.0 * cosw)
    {
      m := q0 * q0 + q1 * q1 - q0 * q1 * twoCosw;
    }
  }

  // ---------------------------------------------------------------- algebra

  lemma ComplexTable(a: Complex, b: Complex, v: real)
    ensures Times(a, b) == Complex(a.re * b.re - a.im * b.im, a.re * b.im + a.im * b.re)
    ensures Plus(a, Scale(v, b)) == Complex(a.re + v * b.re, a.im + v * b.im)
  {
  }

  /** The transform, one sample further: sample number n is turned back n times. */
  lemma BinNext(z: Complex, x: seq<real>, v: real)
    ensures Bin(z, []) == Complex(0.0, 0.0)
    ensures var b, p := Bin(z, x), Power(Complex(z.re, -z.im), |x|);
      Bin(z, x + [v]) == Complex(b.re + v * p.re, b.im + v * p.im)
  {
    hide Power, Plus, Scale, Conjugate, Times, Bin;
    BinAppend(z, x, v);
    ConjugateIs(z);
    ComplexTable(Bin(z, x), Power(Conjugate(z), |x|), v);
  }

  lemma ConjugateIs(a: Complex)
    ensures Conjugate(a) == Complex(a.re, -a.im)
  {
  }

  lemma BinAppend(z: Complex, x: seq<real>, v: real)
    ensures Bin(z, []) == Complex(0.0, 0.0)
    ensures Bin(z, x + [v]) == Plus(Bin(z, x), Scale(v, Power(Conjugate(z), |x|)))
  {
    hide Power, Plus, Scale, Conjugate;
    assert (x + [v])[..|x|] == x;
  }

  /** Turning once more. */
  lemma PowerNext(z: Complex, n: nat)
    ensures Power(z, 0) == Complex(1.0, 0.0)
    ensures var p := Power(z, n);
      Power(z, n + 1) == Complex(z.re * p.re - z.im * p.im, z.re * p.im + z.im * p.re)
  {
    hide Times;
    ComplexTable(z, Power(z, n), 0.0);
  }

  lemma NormIs(a: Complex)
    ensures Norm(a) == a.re * a.re + a.im * a.im
  {
  }

  lemma TimesAssociative(a: Complex, b: Complex, c: Complex)
    ensures Times(Times(a, b), c) == Times(a, Times(b, c))
  {
    assert (a.re * b.re - a.im * b.im) * c.re == a.re * (b.re * c.re) - a.im * (b.im * c.re);
    assert (a.re * b.im + a.im * b.re) * c.im == a.re * (b.im * c.im) + a.im * (b.re * c.im);
    assert (a.re * b.re - a.im * b.im) * c.im == a.re * (b.re * c.im) - a.im * (b.im * c.im);
    assert (a.re * b.im + a.im * b.re) * c.re == a.re * (b.im * c.re) + a.im * (b.re * c.re);
  }

  lemma TimesPlus(a: Complex, b: Complex, c: Complex)
    ensures Times(a, Plus(b, c)) == Plus(Times(a, b), Times(a, c))
  {
  }

  lemma TimesScale(a: Complex, x: real, b: Complex)
    ensures Times(a, Scale(x, b)) == Scale(x, Times(a, b))
  {
    assert a.re * (x * b.re) == x * (a.re * b.re) && a.im * (x * b.im) == x * (a.im * b.im);
    assert a.re * (x * b.im) == x * (a.re * b.im) && a.im * (x * b.re) == x * (a.im * b.re);
  }

  lemma TimesCommutes(a: Complex, b: Complex)
    ensures Times(a, b) == Times(b, a)
  {
  }

  lemma NormTimes(a: Complex, b: Complex)
    ensures Norm(Times(a, b)) == Norm(a) * Norm(b)
  {
    var p, q, r, s := a.re * b.re, a.im * b.im, a.re * b.im, a.im * b.re;
    assert (p - q) * (p - q) == p * p - 2.0 * (p * q) + q * q;
    assert (r + s) * (r + s) == r * r + 2.0 * (r * s) + s * s;
    SwapMiddle(a.re, b.re, a.im, b.im);
    SwapMiddle(a.re, b.re, a.re, b.re);
    SwapMiddle(a.im, b.im, a.im, b.im);
    SwapMiddle(a.re, b.im, a.re, b.im);
    SwapMiddle(a.im, b.re, a.im, b.re);
    SwapMiddle(a.re, b.im, a.im, b.re);
  }

  /** (u v)(w x) == (u w)(v x) */
  lemma SwapMiddle(u: real, v: real, w: real, x: real)
    ensures (u * v) * (w * x) == (u * w) * (v * x)
  {
  }

  lemma {:induction false} UnitPower(z: Complex, n: nat)
    requires Unit(z)
    ensures Unit(Power(z, n))
  {
    if n > 0 {
      UnitPower(z, n - 1);
      NormTimes(z, Power(z, n - 1));
    }
  }

  lemma ConjugateInverts(z: Complex)
    requires Unit(z)
    ensures Times(z, Conjugate(z)) == Complex(1.0, 0.0)
  {
  }

  lemma TimesOne(a: Complex)
    ensures Times(Complex(1.0, 0.0), a) == a
  {
  }

  lemma {:induction false} PowerInverse(z: Complex, n: nat)
    requires Unit(z)
    ensures Times(Power(z, n), Power(Conjugate(z), n)) == Complex(1.0, 0.0)
  {
    if n > 0 {
      hide Times;
      var w := Conjugate(z);
      var a, b := Power(z, n - 1), Power(w, n - 1);
      PowerInverse(z, n - 1);
      TimesCommutes(z, a);
      TimesAssociative(a, z, Times(w, b));
      TimesAssociative(z, w, b);
      ConjugateInverts(z);
      TimesOne(b);
    } else {
      TimesOne(Complex(1.0, 0.0));
    }
  }

  /** One sample: add it and rotate. */
  lemma StepRotates(z: Complex, st: State, v: real)
    requires Unit(z)
    ensures ResultOf(z, Step(z.re, st, v)) == Times(z, Plus(ResultOf(z, st), Complex(v, 0.0)))
  {
    StepRealPart(z.re, z.im, st.q0, st.q1, v);
    StepImaginaryPart(z.re, z.im, st.q0, st.q1, v);
  }

  lemma StepRealPart(c: real, s: real, q0: real, q1: real, v: real)
    requires c * c + s * s == 1.0
    ensures c * (2.0 * c * q0 - q1 + v) - q0 == c * (c * q0 - q1 + v) - s * (s * q0 + 0.0)
  {
    var a, b := c * c * q0, s * s * q0;
    assert a + b == (c * c + s * s) * q0 == q0;
    assert c * (2.0 * c * q0 - q1 + v) == 2.0 * a + c * (v - q1);
    assert c * (c * q0 - q1 + v) == a + c * (v - q1);
    assert s * (s * q0 + 0.0) == b;
  }

  lemma StepImaginaryPart(c: real, s: real, q0: real, q1: real, v: real)
    ensures s * (2.0 * c * q0 - q1 + v) == c * (s * q0 + 0.0) + s * (c * q0 - q1 + v)
  {
    var a := c * s * q0;
    assert s * (2.0 * c * q0 - q1 + v) == 2.0 * a + s * (v - q1);
    assert s * (c * q0 - q1 + v) == a + s * (v - q1);
    assert c * (s * q0 + 0.0) == a;
  }

  /** result() after a block is the transform's bin, turned by one rotation per sample. */
  lemma {:induction false} ResultIsBin(z: Complex, x: seq<real>)
    requires Unit(z)
    ensures ResultOf(z, Run(z.re, x)) == Times(Power(z, |x|), Bin(z, x))
  {
    if x != [] {
      hide Times, Plus, Scale, ResultOf, Step;
      var n := |x| - 1;
      var y, v := x[..n], x[n];
      var zn, wn := Power(z, n), Power(Conjugate(z), n);
      ResultIsBin(z, y);
      StepRotates(z, Run(z.re, y), v);
      PowerInverse(z, n);
      calc {
        ResultOf(z, Run(z.re, x));
        Times(z, Plus(Times(zn, Bin(z, y)), Complex(v, 0.0)));
        { AsScaled(v); TimesScale(zn, v, wn); }
        Times(z, Plus(Times(zn, Bin(z, y)), Times(zn, Scale(v, wn))));
        { TimesPlus(zn, Bin(z, y), Scale(v, wn)); }
        Times(z, Times(zn, Bin(z, x)));
        { TimesAssociative(z, zn, Bin(z, x)); }
        Times(Power(z, |x|), Bin(z, x));
      }
    }
  }

  lemma AsScaled(v: real)
    ensures Complex(v, 0.0) == Scale(v, Complex(1.0, 0.0))
  {
  }

  lemma PowerIsNorm(z: Complex, st: State)
    requires Unit(z)
    ensures PowerOf(z.re, st) == Norm(ResultOf(z, st))
  {
    var c, s, a, b := z.re, z.im, st.q0, st.q1;
    assert (c * a - b) * (c * a - b) == c * a * (c * a) - 2.0 * (a * b * c) + b * b;
    assert a * b * (2.0 * c) == 2.0 * (a * b * c);
    assert c * a * (c * a) + s * a * (s * a) == (c * c + s * s) * (a * a);
  }

  /** magnitudeSquared() after a block is the squared modulus of the transform's bin. */
  lemma MagnitudeIsBinPower(z: Complex, x: seq<real>)
    requires Unit(z)
    ensures PowerOf(z.re, Run(z.re, x)) == Norm(Bin(z, x))
  {
    hide Norm, Times, Power, Bin, Run;
    PowerIsNorm(z, Run(z.re, x));
    ResultIsBin(z, x);
    UnitPower(z, |x|);
    NormTimes(Power(z, |x|), Bin(z, x));
  }

  lemma ProductPositive(a: real, b: real)
    requires a > 0.0 && b > 0.0
    ensures a * b > 0.0
  {
  }

  lemma DifferenceOfSquares(a: real, b: real)
    ensures (a - b) * (a + b) == a * a - b * b
  {
  }

  lemma SquareBound(r: real, n: real)
    requires 0.0 <= n && r * r <= n * n
    ensures -n <= r <= n
  {
    DifferenceOfSquares(r, n);
    DifferenceOfSquares(-r, n);
    if r > n {
      ProductPositive(r - n, r + n);
    } else if r < -n {
      ProductPositive(-r - n, -r + n);
    }
  }

  function Square(r: real): real {
    r * r
  }

  lemma RotationKeepsNorm(z: Complex, a: Complex)
    requires Unit(z)
    ensures Norm(Times(z, a)) == Norm(a)
  {
    NormTimes(z, a);
  }

  lemma Triangle(a: Complex, v: real, n: real)
    requires 0.0 <= n && Norm(a) <= Square(n) && -1.0 <= v <= 1.0
    ensures Norm(Plus(a, Complex(v, 0.0))) <= Square(n + 1.0)
  {
    assert a.im * a.im >= 0.0;
    SquareBound(a.re, n);
    assert v * v <= 1.0;
    assert v * a.re <= n by {
      if v >= 0.0 {
        assert v * a.re <= v * n <= 1.0 * n;
      } else {
        assert (-v) * (-a.re) <= (-v) * n <= 1.0 * n;
      }
    }
    assert (a.re + v) * (a.re + v) == a.re * a.re + 2.0 * (v * a.re) + v * v;
  }

  /** With samples in [-1, 1] the power of n of them lies between 0 and n squared. */
  lemma {:induction false} PowerBounded(z: Complex, x: seq<real>)
    requires Unit(z) && forall v <- x :: -1.0 <= v <= 1.0
    ensures 0.0 <= PowerOf(z.re, Run(z.re, x)) <= Square(|x| as real)
  {
    ResultBounded(z, x);
    PowerIsNorm(z, Run(z.re, x));
    var r := ResultOf(z, Run(z.re, x));
    assert r.re * r.re >= 0.0 && r.im * r.im >= 0.0;
  }

  lemma {:induction false} ResultBounded(z: Complex, x: seq<real>)
    requires Unit(z) && forall v <- x :: -1.0 <= v <= 1.0
    ensures Norm(ResultOf(z, Run(z.re, x))) <= Square(|x| as real)
  {
    if x != [] {
      hide Norm, Times, Plus, ResultOf, Step, Square;
      var n := |x| - 1;
      var y, v := x[..n], x[n];
      assert forall u <- y :: u in x;
      ResultBounded(z, y);
      StepRotates(z, Run(z.re, y), v);
      var r := ResultOf(z, Run(z.re, y));
      var m := n as real;
      assert Norm(r) <= Square(m) && v in x;
      Triangle(r, v, m);
      RotationKeepsNorm(z, Plus(r, Complex(v, 0.0)));
      assert |x| as real == m + 1.0;
    } else {
      assert ResultOf(z, State(0.0, 0.0)) == Complex(0.0, 0.0);
    }
  }
}
