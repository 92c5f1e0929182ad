/** The radix-2 Cooley-Tukey engine: the recursive in-place forward
    (decimation-in-time) and inverse (decimation-in-frequency) combines, the
    `fft` and `ifft` front ends that pad and convert the buffer, and
    `magnitude`. */
module Transform {

  import opened ComplexNumbers
  import opened PowersOfTwo
  import Arithmetic
  import opened Options
  import opened Buffers
  import opened BitReversal

  /** `Wn.clone().pow(e)` where `Wn = Complex.fromPolar(1, ±2π / FN)`: the
      twiddle factor for transform length FN and exponent e. The library
      computes it with floating-point trigonometry, so it is a parameter:
      one function for the forward transform and one for the inverse. */
  type Twiddle = (nat, nat) -> Complex

  /** The exponent the butterfly at offset k of an n-slot range applies:
      starting from zero it grows by FN / n per butterfly, FN / (2 * step)
      with step = n / 2. */
  function Exponent(k: nat, n: nat, fn: nat): (e: nat)
    requires n > 0
    ensures e == k * (fn / n)
  {
    if k == 0 then 0
    else
      Arithmetic.Distributes(k - 1, 1, fn / n);
      Exponent(k - 1, n, fn) + fn / n
  }

  /** The exponent as the loop computes it, `currentPower * FN / (2 * step)`
      with step = n / 2, is an exact integer division whose quotient is
      Exponent(k, n, FN). */
  lemma TwiddleExponent(k: nat, n: nat, fn: nat)
    requires IsPow2(n) && n >= 2 && IsPow2(fn) && n <= fn
    ensures (k * fn) % (2 * (n / 2)) == 0
    ensures (k * fn) / (2 * (n / 2)) == Exponent(k, n, fn)
  {
    HalfOfPow2(n);
    Pow2Divides(n, fn);
    var q := fn / n;
    assert k * fn == (k * q) * n by {
      Arithmetic.Associates(k, q, n);
    }
    Arithmetic.DivModOfProduct(k * q, n);
  }

  /** Every butterfly of an n-slot stage uses an exponent below FN / 2. */
  lemma ExponentBelowHalf(k: nat, n: nat, fn: nat)
    requires IsPow2(n) && n >= 2 && IsPow2(fn) && n <= fn && k < n / 2
    ensures Exponent(k, n, fn) < fn / 2
  {
    HalfOfPow2(n);
    Pow2Divides(n, fn);
    var q := fn / n;
    var h := n / 2;
    assert fn == (h * q) * 2 by {
      Arithmetic.Rearranges(q, h, 2);
    }
    Arithmetic.DivModUnique(fn, 2, h * q, 0);
    Arithmetic.MulMonotone(k, h - 1, q);
    Arithmetic.Distributes(h - 1, 1, q);
  }

  /** The forward butterfly on a, b with factor w: a + w·b ... */
  function ButterflySum(a: Complex, b: Complex, w: Complex): Complex {
    Add(a, Mul(w, b))
  }

  /** ... and a − w·b. */
  function ButterflyDifference(a: Complex, b: Complex, w: Complex): Complex {
    Sub(a, Mul(w, b))
  }

  /** The inverse butterfly on a, b with factor w: (a + b) / 2 ... */
  function HalfSum(a: Complex, b: Complex): Complex {
    Scale(Add(a, b), 0.5)
  }

  /** ... and w·(a − b) / 2. */
  function HalfDifference(a: Complex, b: Complex, w: Complex): Complex {
    Mul(w, Scale(Sub(a, b), 0.5))
  }

  /** The inverse butterfly with the reciprocal factor undoes the forward one. */
  lemma ButterflyInverts(a: Complex, b: Complex, wf: Complex, wi: Complex)
    requires Reciprocal(wi, wf)
    ensures HalfSum(ButterflySum(a, b, wf), ButterflyDifference(a, b, wf)) == a
    ensures HalfDifference(ButterflySum(a, b, wf), ButterflyDifference(a, b, wf), wi) == b
  {
    var m := Mul(wf, b);
    assert Scale(Sub(Add(a, m), Sub(a, m)), 0.5) == m;
    MulByReciprocal(wi, wf, b);
  }

  /** One forward stage over n = |s| slots: the n/2 butterflies applied in
      order, as the loop of `internal_fft` applies them; CombineAt states
      what the stage leaves in each slot. */
  function Combine(s: seq<Complex>, fn: nat, w: Twiddle): (r: seq<Complex>)
    requires |s| >= 2 && |s| % 2 == 0
    ensures |r| == |s|
  {
    PartlyCombined(s, fn, w, |s| / 2)
  }

  /** The range after the first m butterflies of the forward stage: the
      pairs (j, j + n/2) with j < m hold their outputs, every other slot its
      input. */
  function PartlyCombined(s: seq<Complex>, fn: nat, w: Twiddle, m: nat): (t: seq<Complex>)
    requires |s| >= 2 && |s| % 2 == 0 && m <= |s| / 2
    ensures |t| == |s|
    decreases m
  {
    if m == 0 then s
    else
      var h, j := |s| / 2, m - 1;
      var wj := w(fn, Exponent(j, |s|, fn));
      PartlyCombined(s, fn, w, j)[j := ButterflySum(s[j], s[j + h], wj)][j + h := ButterflyDifference(s[j], s[j + h], wj)]
  }

  /** Slots the first m butterflies have not reached keep their input. */
  lemma {:induction false} PartlyCombinedUntouched(s: seq<Complex>, fn: nat, w: Twiddle, m: nat, j: nat)
    requires |s| >= 2 && |s| % 2 == 0 && m <= |s| / 2
    requires m <= j < |s| / 2 || |s| / 2 + m <= j < |s|
    ensures PartlyCombined(s, fn, w, m)[j] == s[j]
    decreases m
  {
    if m > 0 {
      PartlyCombinedUntouched(s, fn, w, m - 1, j);
    }
  }

  /** The pair butterfly j < m has written holds its two outputs. */
  lemma {:induction false} PartlyCombinedReached(s: seq<Complex>, fn: nat, w: Twiddle, m: nat, j: nat)
    requires |s| >= 2 && |s| % 2 == 0 && j < m <= |s| / 2
    ensures PartlyCombined(s, fn, w, m)[j]
         == ButterflySum(s[j], s[j + |s| / 2], w(fn, Exponent(j, |s|, fn)))
    ensures PartlyCombined(s, fn, w, m)[j + |s| / 2]
         == ButterflyDifference(s[j], s[j + |s| / 2], w(fn, Exponent(j, |s|, fn)))
    decreases m
  {
    if j < m - 1 {
      PartlyCombinedReached(s, fn, w, m - 1, j);
    }
  }

  /** The forward stage pairs slot j < n/2 with slot j + n/2 and leaves
      s[j] + w·s[j + n/2] in the first and s[j] − w·s[j + n/2] in the second,
      w being the twiddle factor for exponent j·(FN/n). */
  lemma CombineAt(s: seq<Complex>, fn: nat, w: Twiddle, j: nat)
    requires |s| >= 2 && |s| % 2 == 0 && j < |s| / 2
    ensures Combine(s, fn, w)[j] == ButterflySum(s[j], s[j + |s| / 2], w(fn, Exponent(j, |s|, fn)))
    ensures Combine(s, fn, w)[j + |s| / 2]
         == ButterflyDifference(s[j], s[j + |s| / 2], w(fn, Exponent(j, |s|, fn)))
  {
    PartlyCombinedReached(s, fn, w, |s| / 2, j);
  }

  /** One inverse stage over n = |s| slots: the n/2 inverse butterflies
      applied in order, as the loop of `internal_ifft` applies them. */
  function InverseCombine(s: seq<Complex>, fn: nat, w: Twiddle): (r: seq<Complex>)
    requires |s| >= 2 && |s| % 2 == 0
    ensures |r| == |s|
  {
    PartlyInverted(s, fn, w, |s| / 2)
  }

  /** The range after the first m butterflies of the inverse stage. */
  function PartlyInverted(s: seq<Complex>, fn: nat, w: Twiddle, m: nat): (t: seq<Complex>)
    requires |s| >= 2 && |s| % 2 == 0 && m <= |s| / 2
    ensures |t| == |s|
    decreases m
  {
    if m == 0 then s
    else
      var h, j := |s| / 2, m - 1;
      var wj := w(fn, Exponent(j, |s|, fn));
      PartlyInverted(s, fn, w, j)[j := HalfSum(s[j], s[j + h])][j + h := HalfDifference(s[j], s[j + h], wj)]
  }

  lemma {:induction false} PartlyInvertedUntouched(s: seq<Complex>, fn: nat, w: Twiddle, m: nat, j: nat)
    requires |s| >= 2 && |s| % 2 == 0 && m <= |s| / 2
    requires m <= j < |s| / 2 || |s| / 2 + m <= j < |s|
    ensures PartlyInverted(s, fn, w, m)[j] == s[j]
    decreases m
  {
    if m > 0 {
      PartlyInvertedUntouched(s, fn, w, m - 1, j);
    }
  }

  lemma {:induction false} PartlyInvertedReached(s: seq<Complex>, fn: nat, w: Twiddle, m: nat, j: nat)
    requires |s| >= 2 && |s| % 2 == 0 && j < m <= |s| / 2
    ensures PartlyInverted(s, fn, w, m)[j] == HalfSum(s[j], s[j + |s| / 2])
    ensures PartlyInverted(s, fn, w, m)[j + |s| / 2]
         == HalfDifference(s[j], s[j + |s| / 2], w(fn, Exponent(j, |s|, fn)))
    decreases m
  {
    if j < m - 1 {
      PartlyInvertedReached(s, fn, w, m - 1, j);
    }
  }

  /** The inverse stage leaves (s[j] + s[j + n/2])/2 in slot j < n/2 and
      w·(s[j] − s[j + n/2])/2 in slot j + n/2. */
  lemma InverseCombineAt(s: seq<Complex>, fn: nat, w: Twiddle, j: nat)
    requires |s| >= 2 && |s| % 2 == 0 && j < |s| / 2
    ensures InverseCombine(s, fn, w)[j] == HalfSum(s[j], s[j + |s| / 2])
    ensures InverseCombine(s, fn, w)[j + |s| / 2]
         == HalfDifference(s[j], s[j + |s| / 2], w(fn, Exponent(j, |s|, fn)))
  {
    PartlyInvertedReached(s, fn, w, |s| / 2, j);
  }

  /** The forward transform of a range: transform both halves, then combine
      (post-order, decimation in time). */
  function Dit(s: seq<Complex>, fn: nat, w: Twiddle): (r: seq<Complex>)
    requires IsPow2(|s|)
    ensures |r| == |s|
    decreases |s|
  {
    if |s| == 1 then s
    else
      HalfOfPow2(|s|);
      var h := |s| / 2;
      Combine(Dit(s[..h], fn, w) + Dit(s[h..], fn, w), fn, w)
  }

  /** The inverse transform of a range: combine, then transform both halves
      (pre-order, decimation in frequency). */
  function Dif(s: seq<Complex>, fn: nat, w: Twiddle): (r: seq<Complex>)
    requires IsPow2(|s|)
    ensures |r| == |s|
    decreases |s|
  {
    if |s| == 1 then s
    else
      HalfOfPow2(|s|);
      var h := |s| / 2;
      var t := InverseCombine(s, fn, w);
      Dif(t[..h], fn, w) + Dif(t[h..], fn, w)
  }

  /** The inverse twiddle factor is the reciprocal of the forward one for
      every exponent a butterfly of a length-FN transform uses. For
      e^(-2πi e/FN) and e^(2πi e/FN) this holds exactly. */
  ghost predicate ReciprocalTwiddles(wf: Twiddle, wi: Twiddle, fn: nat) {
    forall e: nat :: e < fn / 2 ==> Reciprocal(wi(fn, e), wf(fn, e))
  }

  /** The inverse stage undoes the forward stage on the pair (k, k + n/2). */
  lemma InverseCombineUndoesCombinePair(s: seq<Complex>, fn: nat, wf: Twiddle, wi: Twiddle, k: nat)
    requires IsPow2(|s|) && |s| >= 2 && IsPow2(fn) && |s| <= fn && k < |s| / 2
    requires ReciprocalTwiddles(wf, wi, fn)
    ensures InverseCombine(Combine(s, fn, wf), fn, wi)[k] == s[k]
    ensures InverseCombine(Combine(s, fn, wf), fn, wi)[k + |s| / 2] == s[k + |s| / 2]
  {
    var h := |s| / 2;
    var t := Combine(s, fn, wf);
    ExponentBelowHalf(k, |s|, fn);
    var e := Exponent(k, |s|, fn);
    CombineAt(s, fn, wf, k);
    InverseCombineAt(t, fn, wi, k);
    ButterflyInverts(s[k], s[k + h], wf(fn, e), wi(fn, e));
  }

  /** ... and so on every slot. */
  lemma InverseCombineUndoesCombineAt(s: seq<Complex>, fn: nat, wf: Twiddle, wi: Twiddle, j: nat)
    requires IsPow2(|s|) && |s| >= 2 && IsPow2(fn) && |s| <= fn && j < |s|
    requires ReciprocalTwiddles(wf, wi, fn)
    ensures InverseCombine(Combine(s, fn, wf), fn, wi)[j] == s[j]
  {
    HalfOfPow2(|s|);
    if j < |s| / 2 {
      InverseCombineUndoesCombinePair(s, fn, wf, wi, j);
    } else {
      InverseCombineUndoesCombinePair(s, fn, wf, wi, j - |s| / 2);
    }
  }

  /** The inverse stage undoes the forward stage. */
  lemma InverseCombineUndoesCombine(s: seq<Complex>, fn: nat, wf: Twiddle, wi: Twiddle)
    requires IsPow2(|s|) && |s| >= 2 && IsPow2(fn) && |s| <= fn
    requires ReciprocalTwiddles(wf, wi, fn)
    ensures InverseCombine(Combine(s, fn, wf), fn, wi) == s
  {
    forall j | 0 <= j < |s|
      ensures InverseCombine(Combine(s, fn, wf), fn, wi)[j] == s[j]
    {
      InverseCombineUndoesCombineAt(s, fn, wf, wi, j);
    }
  }

  /** The inverse transform of a range whose inverse stage leaves a + b is
      the inverse transforms of a and b side by side. */
  lemma DifOfCombined(t: seq<Complex>, fn: nat, w: Twiddle, a: seq<Complex>, b: seq<Complex>)
    requires IsPow2(|t|) && |t| >= 2 && |a| == |b| == |t| / 2
    requires InverseCombine(t, fn, w) == a + b
    ensures IsPow2(|a|) && IsPow2(|b|)
    ensures Dif(t, fn, w) == Dif(a, fn, w) + Dif(b, fn, w)
  {
    HalfOfPow2(|t|);
    var u := InverseCombine(t, fn, w);
    assert u[..|a|] == a && u[|a|..] == b;
  }

  /** Inverting the forward stage over two transformed halves a and b leaves
      the inverse transforms of a and b side by side. */
  lemma DifOfCombine(a: seq<Complex>, b: seq<Complex>, fn: nat, wf: Twiddle, wi: Twiddle)
    requires IsPow2(|a|) && |b| == |a| && IsPow2(fn) && 2 * |a| <= fn
    requires ReciprocalTwiddles(wf, wi, fn)
    ensures IsPow2(|a + b|) && |a + b| >= 2
    ensures Dif(Combine(a + b, fn, wf), fn, wi) == Dif(a, fn, wi) + Dif(b, fn, wi)
  {
    assert IsPow2(|a + b|) by {
      assert (|a| + |b|) / 2 == |a|;
    }
    InverseCombineUndoesCombine(a + b, fn, wf, wi);
    DifOfCombined(Combine(a + b, fn, wf), fn, wi, a, b);
  }

  /** Exact round trip of the recursive combines: with reciprocal twiddle
      factors and exact arithmetic, the inverse transform of the forward
      transform of a range is the range itself. */
  lemma {:induction false} DifUndoesDit(s: seq<Complex>, fn: nat, wf: Twiddle, wi: Twiddle)
    requires IsPow2(|s|) && IsPow2(fn) && |s| <= fn
    requires ReciprocalTwiddles(wf, wi, fn)
    ensures Dif(Dit(s, fn, wf), fn, wi) == s
    decreases |s|
  {
    if |s| > 1 {
      HalfOfPow2(|s|);
      var h := |s| / 2;
      var left, right := s[..h], s[h..];
      assert |left| == h && |right| == h && left + right == s;
      DifUndoesDit(left, fn, wf, wi);
      DifUndoesDit(right, fn, wf, wi);
      DifOfCombine(Dit(left, fn, wf), Dit(right, fn, wf), fn, wf, wi);
    }
  }

  /** The forward butterfly as the loop computes it: x2 := x2·w, then
      x1 + x2 and −x2 + x1. */
  lemma ButterflyAsComputed(a: Complex, b: Complex, w: Complex)
    ensures Add(a, Mul(b, w)) == ButterflySum(a, b, w)
    ensures Add(Neg(Mul(b, w)), a) == ButterflyDifference(a, b, w)
  {
    MulCommutes(b, w);
  }

  /** The inverse butterfly as the loop computes it: (x1 + x2)·½, and
      (−x2 + x1)·(w·½). */
  lemma HalfButterflyAsComputed(a: Complex, b: Complex, w: Complex)
    ensures Mul(Add(a, b), OneHalf) == HalfSum(a, b)
    ensures Mul(Add(Neg(b), a), Mul(w, OneHalf)) == HalfDifference(a, b, w)
  {
    var d := Sub(a, b);
    assert Add(Neg(b), a) == d;
    assert Mul(d, Mul(w, OneHalf)).re == Mul(w, Scale(d, 0.5)).re;
    assert Mul(d, Mul(w, OneHalf)).im == Mul(w, Scale(d, 0.5)).im;
  }

  /** Before butterfly m of a forward stage, slots i = start + m and
      i + step, step = n/2, still hold the stage inputs s[m] and s[m + step]. */
  lemma ForwardReads(xs: seq<Value>, start: nat, s: seq<Complex>, fn: nat, w: Twiddle,
                     m: nat, i: nat, step: nat)
    requires IsPow2(|s|) && |s| >= 2 && m < |s| / 2 && i == start + m && step == |s| / 2
    requires Holds(xs, start, PartlyCombined(s, fn, w, m))
    ensures i + step < |xs| && xs[i] == Cplx(s[m]) && xs[i + step] == Cplx(s[m + step])
  {
    HalfOfPow2(|s|);
    var t := PartlyCombined(s, fn, w, m);
    PartlyCombinedUntouched(s, fn, w, m, m);
    PartlyCombinedUntouched(s, fn, w, m, m + step);
    HoldsAt(xs, start, t, m);
    HoldsAt(xs, start, t, m + step);
  }

  /** Writing the two outputs of butterfly m into slots i and i + step
      extends the forward stage from m to m + 1 pairs, and touches nothing
      outside the range. */
  lemma ForwardWrites(xs: seq<Value>, before: seq<Value>, start: nat, s: seq<Complex>, fn: nat, w: Twiddle,
                      m: nat, i: nat, step: nat, y1: Complex, y2: Complex)
    requires IsPow2(|s|) && |s| >= 2 && m < |s| / 2 && i == start + m && step == |s| / 2
    requires Holds(xs, start, PartlyCombined(s, fn, w, m)) && SameOutside(xs, before, start, |s|)
    requires y1 == ButterflySum(s[m], s[m + step], w(fn, Exponent(m, |s|, fn)))
    requires y2 == ButterflyDifference(s[m], s[m + step], w(fn, Exponent(m, |s|, fn)))
    ensures var ys := xs[i := Cplx(y1)][i + step := Cplx(y2)];
            Holds(ys, start, PartlyCombined(s, fn, w, m + 1)) && SameOutside(ys, before, start, |s|)
  {
    HalfOfPow2(|s|);
    PairWritten(xs, before, start, PartlyCombined(s, fn, w, m), m, step, y1, y2);
  }

  /** One turn of the forward stage loop on slots i = start + m and
      i + step, step = n/2: it reads the stage inputs s[m] and s[m + n/2]
      there, and what it writes extends the butterflies done from m to
      m + 1, touching nothing outside the range. */
  lemma ForwardStep(xs: seq<Value>, before: seq<Value>, start: nat, s: seq<Complex>, fn: nat, w: Twiddle,
                    m: nat, i: nat, step: nat, wm: Complex)
    requires IsPow2(|s|) && |s| >= 2 && m < |s| / 2 && i == start + m && step == |s| / 2
    requires Holds(xs, start, PartlyCombined(s, fn, w, m)) && SameOutside(xs, before, start, |s|)
    requires wm == w(fn, Exponent(m, |s|, fn))
    ensures i + step < |xs| && xs[i] == Cplx(s[m]) && xs[i + step] == Cplx(s[m + step])
    ensures var x1, x2 := xs[i].z, Mul(xs[i + step].z, wm);
            var ys := xs[i := Cplx(Add(x1, x2))][i + step := Cplx(Add(Neg(x2), x1))];
            Holds(ys, start, PartlyCombined(s, fn, w, m + 1)) && SameOutside(ys, before, start, |s|)
  {
    ForwardReads(xs, start, s, fn, w, m, i, step);
    var a, b := s[m], Mul(s[m + step], wm);
    ButterflyAsComputed(a, s[m + step], wm);
    ForwardWrites(xs, before, start, s, fn, w, m, i, step, Add(a, b), Add(Neg(b), a));
  }

  /** Before butterfly m of an inverse stage, slots i and i + step still
      hold the stage inputs. */
  lemma InverseReads(xs: seq<Value>, start: nat, s: seq<Complex>, fn: nat, w: Twiddle,
                     m: nat, i: nat, step: nat)
    requires IsPow2(|s|) && |s| >= 2 && m < |s| / 2 && i == start + m && step == |s| / 2
    requires Holds(xs, start, PartlyInverted(s, fn, w, m))
    ensures i + step < |xs| && xs[i] == Cplx(s[m]) && xs[i + step] == Cplx(s[m + step])
  {
    HalfOfPow2(|s|);
    var t := PartlyInverted(s, fn, w, m);
    PartlyInvertedUntouched(s, fn, w, m, m);
    PartlyInvertedUntouched(s, fn, w, m, m + step);
    HoldsAt(xs, start, t, m);
    HoldsAt(xs, start, t, m + step);
  }

  /** Writing the two outputs of inverse butterfly m extends the inverse
      stage from m to m + 1 pairs, and touches nothing outside the range. */
  lemma InverseWrites(xs: seq<Value>, before: seq<Value>, start: nat, s: seq<Complex>, fn: nat, w: Twiddle,
                      m: nat, i: nat, step: nat, y1: Complex, y2: Complex)
    requires IsPow2(|s|) && |s| >= 2 && m < |s| / 2 && i == start + m && step == |s| / 2
    requires Holds(xs, start, PartlyInverted(s, fn, w, m)) && SameOutside(xs, before, start, |s|)
    requires y1 == HalfSum(s[m], s[m + step])
    requires y2 == HalfDifference(s[m], s[m + step], w(fn, Exponent(m, |s|, fn)))
    ensures var ys := xs[i := Cplx(y1)][i + step := Cplx(y2)];
            Holds(ys, start, PartlyInverted(s, fn, w, m + 1)) && SameOutside(ys, before, start, |s|)
  {
    HalfOfPow2(|s|);
    PairWritten(xs, before, start, PartlyInverted(s, fn, w, m), m, step, y1, y2);
  }

  /** One turn of the inverse stage loop, likewise. */
  lemma InverseStep(xs: seq<Value>, before: seq<Value>, start: nat, s: seq<Complex>, fn: nat, w: Twiddle,
                    m: nat, i: nat, step: nat, wm: Complex)
    requires IsPow2(|s|) && |s| >= 2 && m < |s| / 2 && i == start + m && step == |s| / 2
    requires Holds(xs, start, PartlyInverted(s, fn, w, m)) && SameOutside(xs, before, start, |s|)
    requires wm == w(fn, Exponent(m, |s|, fn))
    ensures i + step < |xs| && xs[i] == Cplx(s[m]) && xs[i + step] == Cplx(s[m + step])
    ensures var x1, x2 := xs[i].z, xs[i + step].z;
            var ys := xs[i := Cplx(Mul(Add(x1, x2), OneHalf))]
                        [i + step := Cplx(Mul(Add(Neg(x2), x1), Mul(wm, OneHalf)))];
            Holds(ys, start, PartlyInverted(s, fn, w, m + 1)) && SameOutside(ys, before, start, |s|)
  {
    InverseReads(xs, start, s, fn, w, m, i, step);
    var a, b := s[m], s[m + step];
    HalfButterflyAsComputed(a, b, wm);
    InverseWrites(xs, before, start, s, fn, w, m, i, step,
                  Mul(Add(a, b), OneHalf), Mul(Add(Neg(b), a), Mul(wm, OneHalf)));
  }

  /** The combine loop of `internal_fft`: for each offset below N/2, the
      butterfly on slots start + k and start + k + N/2, in place. */
  method ForwardStage(x: Signal, start: nat, n: nat, fn: nat, w: Twiddle, ghost s0: seq<Complex>)
    requires IsPow2(n) && n >= 2 && IsPow2(fn) && n <= fn
    requires |s0| == n && Holds(x.items, start, s0)
    modifies x
    ensures SameOutside(x.items, old(x.items), start, n)
    ensures Holds(x.items, start, Combine(s0, fn, w))
  {
    HalfOfPow2(n);
    var limit := n / 2;
    var step := n / 2;
    var end := start + limit;
    ghost var before := x.items;

    var currentPower := 0;
    var i := start;
    while i < end
      invariant start <= i <= end && currentPower == i - start
      invariant SameOutside(x.items, before, start, n)
      invariant Holds(x.items, start, PartlyCombined(s0, fn, w, currentPower))
    {
      TwiddleExponent(currentPower, n, fn);
      // the twiddle factor of this butterfly scales the second slot
      var currentWn := w(fn, currentPower * fn / (2 * step));
      ForwardStep(x.items, before, start, s0, fn, w, currentPower, i, step, currentWn);
      var x1 := x.items[i].z;
      var x2 := x.items[i + step].z;
      x2 := Mul(x2, currentWn);
      var oldX1 := x1;
      x1 := Add(x1, x2);
      x2 := Add(Neg(x2), oldX1);
      x.items := x.items[i := Cplx(x1)][i + step := Cplx(x2)];
      i := i + 1;
      currentPower := currentPower + 1;
    }
  }

  /** The combine loop of `internal_ifft`: for each offset below N/2, the
      inverse butterfly on slots start + k and start + k + N/2, in place. */
  method InverseStage(x: Signal, start: nat, n: nat, fn: nat, w: Twiddle, ghost s0: seq<Complex>)
    requires IsPow2(n) && n >= 2 && IsPow2(fn) && n <= fn
    requires |s0| == n && Holds(x.items, start, s0)
    modifies x
    ensures SameOutside(x.items, old(x.items), start, n)
    ensures Holds(x.items, start, InverseCombine(s0, fn, w))
  {
    HalfOfPow2(n);
    var limit := n / 2;
    var step := n / 2;
    var end := start + limit;
    ghost var before := x.items;
    var oneHalf := OneHalf;

    var currentPower := 0;
    var i := start;
    while i < end
      invariant start <= i <= end && currentPower == i - start
      invariant SameOutside(x.items, before, start, n)
      invariant Holds(x.items, start, PartlyInverted(s0, fn, w, currentPower))
    {
      TwiddleExponent(currentPower, n, fn);
      var currentWn := w(fn, currentPower * fn / (2 * step));
      InverseStep(x.items, before, start, s0, fn, w, currentPower, i, step, currentWn);
      var x1 := x.items[i].z;
      var x2 := x.items[i + step].z;
      var oldX1 := x1;
      x1 := Mul(Add(x1, x2), oneHalf);
      x2 := Add(Neg(x2), oldX1);
      // the twiddle factor, halved, scales the difference
      x2 := Mul(x2, Mul(currentWn, oneHalf));
      x.items := x.items[i := Cplx(x1)][i + step := Cplx(x2)];
      i := i + 1;
      currentPower := currentPower + 1;
    }
  }

  /** `internal_fft(x, start, N, FN)`: when slots [start, start + N) hold
      the complex values s, it leaves them holding Dit(s) and writes no other
      slot; the recursion halves N down to 1, Log2(N) levels deep. */
  method InternalFft(x: Signal, start: nat, n: nat, fn: nat, w: Twiddle, ghost s: seq<Complex>)
    returns (ghost depth: nat)
    requires IsPow2(n) && IsPow2(fn) && n <= fn
    requires |s| == n && Holds(x.items, start, s)
    modifies x
    ensures SameOutside(x.items, old(x.items), start, n)
    ensures Holds(x.items, start, Dit(s, fn, w))
    ensures depth == Log2(n)
    decreases n
  {
    if n == 1 {
      return 0;
    }
    HalfOfPow2(n);
    var limit := n / 2;
    var end := start + limit;
    ghost var x0 := x.items;
    ghost var left, right := s[..limit], s[limit..];
    assert |left| == limit && |right| == limit;
    HoldsSplit(x.items, start, s, limit);

    // both halves are transformed before the stage that joins them
    ghost var d1 := InternalFft(x, start, limit, fn, w, left);
    ghost var x1 := x.items;
    HoldsFramed(x.items, x0, start, limit, end, right);
    ghost var d2 := InternalFft(x, end, limit, fn, w, right);
    depth := d1 + 1;
    ghost var x2 := x.items;
    HalvesJoined(x0, x1, x2, start, limit, end, Dit(left, fn, w), Dit(right, fn, w));

    ForwardStage(x, start, n, fn, w, Dit(left, fn, w) + Dit(right, fn, w));
    SameOutsideTrans(x.items, x2, x0, start, n);
  }

  /** `internal_ifft(x, start, N, FN)`: when slots [start, start + N) hold
      the complex values s, it leaves them holding Dif(s) and writes no other
      slot; it combines before it recurses into the halves, Log2(N) levels
      deep. */
  method InternalIfft(x: Signal, start: nat, n: nat, fn: nat, w: Twiddle, ghost s: seq<Complex>)
    returns (ghost depth: nat)
    requires IsPow2(n) && IsPow2(fn) && n <= fn
    requires |s| == n && Holds(x.items, start, s)
    modifies x
    ensures SameOutside(x.items, old(x.items), start, n)
    ensures Holds(x.items, start, Dif(s, fn, w))
    ensures depth == Log2(n)
    decreases n
  {
    if n == 1 {
      return 0;
    }
    HalfOfPow2(n);
    var limit := n / 2;
    var end := start + limit;
    ghost var x0 := x.items;
    InverseStage(x, start, n, fn, w, s);
    ghost var combined := InverseCombine(s, fn, w);
    ghost var left, right := combined[..limit], combined[limit..];
    assert |left| == limit && |right| == limit;
    HoldsSplit(x.items, start, combined, limit);

    // the stage has split the range; now each half is inverted
    ghost var x1 := x.items;
    ghost var d1 := InternalIfft(x, start, limit, fn, w, left);
    ghost var x2 := x.items;
    HoldsFramed(x.items, x1, start, limit, end, right);
    ghost var d2 := InternalIfft(x, end, limit, fn, w, right);
    depth := d1 + 1;
    HalvesJoined(x1, x2, x.items, start, limit, end, Dif(left, fn, w), Dif(right, fn, w));
    SameOutsideTrans(x.items, x1, x0, start, n);
  }

  /** Why `ifft` stops. */
  datatype TransformError = MissingLength

  /** The length `fft` pads to: the given N, or else the smallest power of
      two not below the current length. */
  function PaddedLength(len: nat, target: Option<nat>): nat {
    match target
    case None => CeilPow2(len)
    case Some(n) => n
  }

  /** What `fft` needs of its caller to terminate: a non-empty buffer, of at
      most MaxExactLength slots so that the padding test is exact, when N is
      left out; else a power of two N not below the length that a JavaScript
      array can hold. */
  predicate FftCallable(len: nat, target: Option<nat>) {
    match target
    case None => 0 < len <= MaxExactLength
    case Some(n) => IsPow2(n) && len <= n < Word
  }

  lemma PaddedLengthValid(len: nat, target: Option<nat>)
    requires FftCallable(len, target)
    ensures IsPow2(PaddedLength(len, target)) && len <= PaddedLength(len, target) < Word
    ensures target.None? ==> PaddedLength(len, target) <= MaxExactLength
  {
    if target.None? {
      MaxExactLengthIsPow2();
      CeilPow2Least(len, MaxExactLength);
    }
  }

  /** The buffer `fft(x, N)` leaves: x padded with zeros, bit-reversed, made
      complex and transformed. */
  function FftOf(s: seq<Value>, target: Option<nat>, w: Twiddle): (r: seq<Value>)
    requires FftCallable(|s|, target)
    ensures |r| == PaddedLength(|s|, target)
  {
    PaddedLengthValid(|s|, target);
    var n := PaddedLength(|s|, target);
    Lift(Dit(Lower(BitReversed(Padded(s, n))), n, w))
  }

  /** The buffer `ifft(x, N)` leaves: x padded with zeros to N, made complex,
      inverse-transformed and bit-reversed. */
  function IfftOf(s: seq<Value>, n: nat, w: Twiddle): (r: seq<Value>)
    requires IsPow2(n) && |s| <= n
    ensures |r| == n
  {
    BitReversed(Lift(Dif(Lower(Padded(s, n)), n, w)))
  }

  /** `fft(x, N)`: pads x, reorders it, converts it and transforms it in
      place. */
  method Fft(x: Signal, target: Option<nat>, w: Twiddle)
    requires FftCallable(|x.items|, target)
    modifies x
    ensures x.items == FftOf(old(x.items), target, w)
  {
    PaddedLengthValid(|x.items|, target);
    match target {
      case None =>
        PadToPowerOfTwo(x);
      case Some(n) =>
        PadToLength(x, n);
    }
    BitwiseReorder(x);
    ConvertToComplex(x);
    ghost var s := Lower(x.items);
    HoldsLowered(x.items);
    ghost var depth := InternalFft(x, 0, |x.items|, |x.items|, w, s);
    HoldsLifted(x.items, Dit(s, |s|, w));
  }

  /** `ifft(x, N)`: fails with MissingLength, leaving x alone, when N is
      missing; otherwise pads x to N, converts it, inverse-transforms it in
      place and reorders it. */
  method Ifft(x: Signal, target: Option<nat>, w: Twiddle) returns (outcome: Outcome<TransformError>)
    requires target.Some? ==> IsPow2(target.value) && |x.items| <= target.value < Word
    modifies x
    ensures target.None? ==> outcome == Fail(MissingLength) && x.items == old(x.items)
    ensures target.Some? ==> outcome == Pass && x.items == IfftOf(old(x.items), target.value, w)
  {
    if target.None? {
      return Fail(MissingLength);
    }
    PadToLength(x, target.value);
    ConvertToComplex(x);
    ghost var s := Lower(x.items);
    HoldsLowered(x.items);
    ghost var depth := InternalIfft(x, 0, |x.items|, |x.items|, w, s);
    HoldsLifted(x.items, Dif(s, |s|, w));
    BitwiseReorder(x);
    return Pass;
  }

  lemma LiftBitReversed(zs: seq<Complex>)
    requires IsPow2(|zs|)
    ensures BitReversed(Lift(zs)) == Lift(BitReversed(zs))
  {
  }

  /** Exact round trip: with reciprocal twiddle factors and exact arithmetic,
      `ifft(x, N)` after `fft(x, N)` gives back the padded input, each
      number r now the complex value r + 0i. */
  lemma FftThenIfft(s: seq<Value>, target: Option<nat>, wf: Twiddle, wi: Twiddle)
    requires FftCallable(|s|, target)
    requires ReciprocalTwiddles(wf, wi, PaddedLength(|s|, target))
    ensures IfftOf(FftOf(s, target, wf), PaddedLength(|s|, target), wi)
         == Lift(Lower(Padded(s, PaddedLength(|s|, target))))
  {
    PaddedLengthValid(|s|, target);
    var n := PaddedLength(|s|, target);
    var p := Padded(s, n);
    var y := Lower(BitReversed(p));
    var f := FftOf(s, target, wf);
    assert f == Lift(Dit(y, n, wf));
    assert Padded(f, n) == f;
    DifUndoesDit(y, n, wf, wi);
    LowerBitReversed(p);
    LiftBitReversed(y);
    BitReversedInvolution(Lower(p));
  }

  /** `Math.abs`. */
  function Abs(r: real): (a: real)
    ensures a >= 0.0 && (a == r || a == -r)
  {
    if r < 0.0 then -r else r
  }

  /** `magnitude(x)`: a new array holding |modulus(x[i])| for every slot;
      x is only read. `modulus` stands for the library's `magnitude()`. */
  method Magnitude(x: Signal, modulus: Complex -> real) returns (ret: seq<real>)
    requires AllComplex(x.items)
    ensures |ret| == |x.items|
    ensures forall i :: 0 <= i < |ret| ==> ret[i] >= 0.0 && ret[i] == Abs(modulus(x.items[i].z))
  {
    ret := [];
    var i := 0;
    while i < |x.items|
      invariant 0 <= i <= |x.items| && |ret| == i
      invariant forall k :: 0 <= k < i ==> ret[k] == Abs(modulus(x.items[k].z))
    {
      ret := ret + [Abs(modulus(x.items[i].z))];
      i := i + 1;
    }
  }
}
