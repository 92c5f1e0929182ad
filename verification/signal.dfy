/** The signal buffer: the JavaScript array the engine pads with `push` and
    rewrites slot by slot. Its slots hold plain numbers (samples, and the
    zeros padding appends) until `Complex.from` turns each into a complex
    value. */
module Buffers {

  import opened ComplexNumbers
  import opened PowersOfTwo

  /** What one slot of the array holds. */
  datatype Value = Num(r: real) | Cplx(z: Complex)

  /** `Complex.from(v)`: a number r becomes r + 0i, a complex value stays. */
  function ToComplex(v: Value): (z: Complex)
    ensures v.Num? ==> z.re == v.r && z.im == 0.0
    ensures v.Cplx? ==> z == v.z
  {
    match v
    case Num(r) => FromReal(r)
    case Cplx(z) => z
  }

  predicate AllComplex(s: seq<Value>) {
    forall k :: 0 <= k < |s| ==> s[k].Cplx?
  }

  /** The complex values of a stretch of slots. */
  function Lower(s: seq<Value>): (zs: seq<Complex>)
    ensures |zs| == |s|
    ensures forall k :: 0 <= k < |s| ==> zs[k] == ToComplex(s[k])
  {
    seq(|s|, k requires 0 <= k < |s| => ToComplex(s[k]))
  }

  /** Complex values stored back into slots. */
  function Lift(zs: seq<Complex>): (s: seq<Value>)
    ensures |s| == |zs| && AllComplex(s)
    ensures Lower(s) == zs
    ensures forall k :: 0 <= k < |zs| ==> s[k] == Cplx(zs[k])
  {
    seq(|zs|, k requires 0 <= k < |zs| => Cplx(zs[k]))
  }

  /** The value in slot k of s. */
  function Slot(s: seq<Value>, k: nat): Value
    requires k < |s|
  {
    s[k]
  }

  /** Slots [start, start + |zs|) of s hold the complex values zs. */
  predicate Holds(s: seq<Value>, start: nat, zs: seq<Complex>) {
    start + |zs| <= |s| && forall k :: start <= k < start + |zs| ==> Slot(s, k) == Cplx(zs[k - start])
  }

  /** Slot start + j of a stretch that holds zs holds zs[j]. */
  lemma HoldsAt(s: seq<Value>, start: nat, zs: seq<Complex>, j: nat)
    requires Holds(s, start, zs) && j < |zs|
    ensures s[start + j] == Cplx(zs[j])
  {
    assert Slot(s, start + j) == Cplx(zs[j]);
  }

  /** Writing one complex value into the stretch keeps the two in step. */
  lemma HoldsUpdate(s: seq<Value>, start: nat, zs: seq<Complex>, j: nat, v: Complex)
    requires Holds(s, start, zs) && j < |zs|
    ensures Holds(s[start + j := Cplx(v)], start, zs[j := v])
  {
    var t := s[start + j := Cplx(v)];
    forall k | start <= k < start + |zs|
      ensures Slot(t, k) == Cplx(zs[j := v][k - start])
    {
      assert Slot(s, k) == Cplx(zs[k - start]);
    }
  }

  /** s and t have the same length and agree outside [start, start + n). */
  predicate SameOutside(s: seq<Value>, t: seq<Value>, start: nat, n: nat) {
    |s| == |t| && forall k :: 0 <= k < |s| && !(start <= k < start + n) ==> Slot(s, k) == Slot(t, k)
  }

  /** Writing inside the stretch keeps the outside. */
  lemma SameOutsideUpdate(s: seq<Value>, t: seq<Value>, start: nat, n: nat, j: nat, v: Value)
    requires SameOutside(s, t, start, n) && start <= j < start + n && j < |s|
    ensures SameOutside(s[j := v], t, start, n)
  {
    var u := s[j := v];
    forall k | 0 <= k < |u| && !(start <= k < start + n)
      ensures Slot(u, k) == Slot(t, k)
    {
      assert Slot(s, k) == Slot(t, k);
    }
  }

  /** Writing the two slots of a pair (m, m + step) of the stretch keeps the
      stretch and its contents in step and the outside unchanged. */
  lemma PairWritten(s: seq<Value>, before: seq<Value>, start: nat, zs: seq<Complex>, m: nat, step: nat,
                    y1: Complex, y2: Complex)
    requires Holds(s, start, zs) && SameOutside(s, before, start, |zs|)
    requires 1 <= step && m + step < |zs|
    ensures var t := s[start + m := Cplx(y1)][start + m + step := Cplx(y2)];
            Holds(t, start, zs[m := y1][m + step := y2]) && SameOutside(t, before, start, |zs|)
  {
    var s1 := s[start + m := Cplx(y1)];
    HoldsUpdate(s, start, zs, m, y1);
    HoldsUpdate(s1, start, zs[m := y1], m + step, y2);
    SameOutsideUpdate(s, before, start, |zs|, start + m, Cplx(y1));
    SameOutsideUpdate(s1, before, start, |zs|, start + m + step, Cplx(y2));
  }

  /** A stretch that holds zs holds both parts of zs. */
  lemma HoldsSplit(s: seq<Value>, start: nat, zs: seq<Complex>, m: nat)
    requires Holds(s, start, zs) && m <= |zs|
    ensures Holds(s, start, zs[..m]) && Holds(s, start + m, zs[m..])
  {
    forall k | start <= k < start + m
      ensures Slot(s, k) == Cplx(zs[..m][k - start])
    {
      assert Slot(s, k) == Cplx(zs[k - start]);
    }
    forall k | start + m <= k < start + |zs|
      ensures Slot(s, k) == Cplx(zs[m..][k - (start + m)])
    {
      assert Slot(s, k) == Cplx(zs[k - start]);
      assert zs[m..][k - (start + m)] == zs[k - start];
    }
  }

  /** Two adjacent stretches make one. */
  lemma HoldsJoin(s: seq<Value>, start: nat, ys: seq<Complex>, mid: nat, zs: seq<Complex>)
    requires mid == start + |ys| && Holds(s, start, ys) && Holds(s, mid, zs)
    ensures Holds(s, start, ys + zs)
  {
    forall k | start <= k < start + |ys| + |zs|
      ensures Slot(s, k) == Cplx((ys + zs)[k - start])
    {
      if k < mid {
        assert Slot(s, k) == Cplx(ys[k - start]);
      } else {
        assert Slot(s, k) == Cplx(zs[k - mid]);
        assert (ys + zs)[k - start] == zs[k - mid];
      }
    }
  }

  /** A stretch outside the written range still holds what it held. */
  lemma HoldsFramed(s: seq<Value>, t: seq<Value>, a: nat, n: nat, start: nat, zs: seq<Complex>)
    requires SameOutside(s, t, a, n) && Holds(t, start, zs)
    requires start + |zs| <= a || a + n <= start
    ensures Holds(s, start, zs)
  {
    forall k | start <= k < start + |zs|
      ensures Slot(s, k) == Cplx(zs[k - start])
    {
      assert Slot(s, k) == Slot(t, k);
      assert Slot(t, k) == Cplx(zs[k - start]);
    }
  }

  /** Agreeing outside a range means agreeing outside any range around it. */
  lemma SameOutsideWiden(s: seq<Value>, t: seq<Value>, b: nat, m: nat, a: nat, n: nat)
    requires SameOutside(s, t, b, m) && a <= b && b + m <= a + n
    ensures SameOutside(s, t, a, n)
  {
    forall k | 0 <= k < |s| && !(a <= k < a + n)
      ensures Slot(s, k) == Slot(t, k)
    {
      assert !(b <= k < b + m);
    }
  }

  lemma SameOutsideTrans(s: seq<Value>, t: seq<Value>, u: seq<Value>, a: nat, n: nat)
    requires SameOutside(s, t, a, n) && SameOutside(t, u, a, n)
    ensures SameOutside(s, u, a, n)
  {
    forall k | 0 <= k < |s| && !(a <= k < a + n)
      ensures Slot(s, k) == Slot(u, k)
    {
      assert Slot(s, k) == Slot(t, k);
      assert Slot(t, k) == Slot(u, k);
    }
  }

  /** Two adjacent stretches of `limit` slots each, filled one after the
      other: the first holds a from the first write on, the second b after
      the second write, and nothing outside the two was written. */
  lemma HalvesJoined(x0: seq<Value>, x1: seq<Value>, x2: seq<Value>, start: nat, limit: nat, mid: nat,
                     a: seq<Complex>, b: seq<Complex>)
    requires mid == start + limit
    requires SameOutside(x1, x0, start, limit) && SameOutside(x2, x1, mid, limit)
    requires |a| == limit && Holds(x1, start, a) && Holds(x2, mid, b)
    ensures Holds(x2, start, a + b) && SameOutside(x2, x0, start, 2 * limit)
  {
    HoldsFramed(x2, x1, mid, limit, start, a);
    HoldsJoin(x2, start, a, mid, b);
    SameOutsideWiden(x1, x0, start, limit, start, 2 * limit);
    SameOutsideWiden(x2, x1, mid, limit, start, 2 * limit);
    SameOutsideTrans(x2, x1, x0, start, 2 * limit);
  }

  /** Complex slots hold their own values. */
  lemma HoldsLowered(s: seq<Value>)
    requires AllComplex(s)
    ensures Holds(s, 0, Lower(s))
  {
    forall k | 0 <= k < |s|
      ensures Slot(s, k) == Cplx(Lower(s)[k])
    {
      assert s[k].Cplx?;
    }
  }

  /** Slots that all hold the values zs are Lift(zs). */
  lemma HoldsLifted(s: seq<Value>, zs: seq<Complex>)
    requires |s| == |zs| && Holds(s, 0, zs)
    ensures s == Lift(zs)
  {
    forall k | 0 <= k < |s|
      ensures s[k] == Lift(zs)[k]
    {
      assert Slot(s, k) == Cplx(zs[k]);
    }
  }

  /** k zeros, as `x.push(0)` appends them. */
  function Zeros(k: nat): seq<Value> {
    seq(k, _ => Num(0.0))
  }

  /** s followed by zeros up to length n. */
  function Padded(s: seq<Value>, n: nat): (p: seq<Value>)
    requires |s| <= n
    ensures |p| == n && p[..|s|] == s
    ensures forall k :: |s| <= k < n ==> p[k] == Num(0.0)
  {
    s + Zeros(n - |s|)
  }

  /** The JavaScript array `x` the transforms take and change in place. */
  class Signal {
    var items: seq<Value>

    constructor (init: seq<Value>)
      ensures items == init
    {
      items := init;
    }

    /** `x.push(v)`. */
    method Push(v: Value)
      modifies this
      ensures items == old(items) + [v]
    {
      items := items + [v];
    }
  }

  /** `while (x.length != N) x.push(0);`: terminates only when N is not below
      the current length, which the callers make sure of. */
  method PadToLength(x: Signal, n: nat)
    requires |x.items| <= n
    modifies x
    ensures x.items == Padded(old(x.items), n)
  {
    while |x.items| != n
      invariant |old(x.items)| <= |x.items| <= n
      invariant x.items == old(x.items) + Zeros(|x.items| - |old(x.items)|)
      decreases n - |x.items|
    {
      x.Push(Num(0.0));
    }
  }

  /** The longest buffer the loop of `PadToPowerOfTwo` is modelled on: 2^28.
      In double precision, `log2(n) != Math.floor(log2(n))` is true exactly
      when n is not a power of two for every n below 2^29, and the loop, started
      from at most 2^28 slots, only sees such lengths; a start above 2^28 can
      reach 2^29, which the test misreads as not a power of two. */
  const MaxExactLength: nat := 0x1000_0000

  lemma MaxExactLengthIsPow2()
    ensures Pow2(28) == MaxExactLength && IsPow2(MaxExactLength)
  {
    assert Pow2(4) == 16;
    Pow2Add(4, 4);
    assert Pow2(8) == 0x100;
    Pow2Add(8, 8);
    assert Pow2(16) == 0x1_0000;
    Pow2Add(16, 8);
    assert Pow2(24) == 0x100_0000;
    Pow2Add(24, 4);
    Pow2IsPow2(28);
  }

  /** `while (log2(x.length) != Math.floor(log2(x.length))) x.push(0);`:
      appends zeros until the length is a power of two. The test is read as
      "is not a power of two", which it is on every length the loop passes
      through when it starts from at most MaxExactLength slots. */
  method PadToPowerOfTwo(x: Signal)
    requires 0 < |x.items| <= MaxExactLength
    modifies x
    ensures x.items == Padded(old(x.items), CeilPow2(|old(x.items)|))
  {
    ghost var target := CeilPow2(|x.items|);
    while !IsPow2(|x.items|)
      invariant |old(x.items)| <= |x.items| <= target
      invariant x.items == old(x.items) + Zeros(|x.items| - |old(x.items)|)
      decreases target - |x.items|
    {
      x.Push(Num(0.0));
    }
    CeilPow2Least(|old(x.items)|, |x.items|);
  }

  /** `for (i...) x[i] = Complex.from(x[i]);` */
  method ConvertToComplex(x: Signal)
    modifies x
    ensures x.items == Lift(Lower(old(x.items)))
  {
    var i := 0;
    while i < |x.items|
      invariant 0 <= i <= |x.items| == |old(x.items)|
      invariant forall k :: 0 <= k < i ==> x.items[k] == Cplx(ToComplex(old(x.items)[k]))
      invariant forall k :: i <= k < |x.items| ==> x.items[k] == old(x.items)[k]
    {
      x.items := x.items[i := Cplx(ToComplex(x.items[i]))];
      i := i + 1;
    }
  }
}
