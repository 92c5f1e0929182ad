/** The bit-reversal permutation (`bitwise_reorder`): slot n of a buffer of
    length N = 2^bits is exchanged with the slot whose index is n's low `bits`
    bits read backwards. */
module BitReversal {

  import opened PowersOfTwo
  import Arithmetic
  import opened Buffers

  /** JavaScript's shift and bitwise operators work on 32-bit integers; the
      model keeps their unsigned representation, a number below 2^32. */
  const Word: nat := 0x1_0000_0000

  lemma Pow2Word()
    ensures Pow2(32) == Word
  {
    assert Pow2(2) == 4;
    Pow2Add(2, 2);
    Pow2Add(4, 4);
    Pow2Add(8, 8);
    Pow2Add(16, 16);
  }

  /** `x << k` on the unsigned 32-bit representation of x, for a shift count
      below 32 (JavaScript takes the count modulo 32). A shift by at least one
      leaves bit 0 clear, so an `|` of one bit that follows it is an
      addition. */
  function ShiftLeft(x: nat, k: nat): (r: nat)
    requires k < 32
    ensures r < Word
    ensures k >= 1 ==> r % 2 == 0
  {
    ShiftedIsEven(x, k);
    (x * Pow2(k)) % Word
  }

  lemma ShiftedIsEven(x: nat, k: nat)
    ensures k >= 1 ==> ((x * Pow2(k)) % Word) % 2 == 0
  {
    if k >= 1 {
      var m := x * Pow2(k - 1);
      assert x * Pow2(k) == m * 2;
      Arithmetic.DivModOfProduct(m, 2);
      Arithmetic.ModOfModMultiple(m * 2, 2, Word / 2, Word);
    }
  }

  /** Bit i of x. */
  function Bit(x: nat, i: nat): (r: nat)
    ensures r <= 1
  {
    if i == 0 then x % 2 else Bit(x / 2, i - 1)
  }

  /** The value bit 0 of m takes when it is moved to bit b-1. */
  function LowBitMovedUp(m: nat, b: nat): (v: nat)
    requires b >= 1
    ensures v == 0 || v == Pow2(b - 1)
    ensures v == (m % 2) * Pow2(b - 1)
  {
    if m % 2 == 0 then 0 else Pow2(b - 1)
  }

  /** The low b bits of m in reverse order: bit 0 of m goes to bit b-1 and the
      remaining b-1 bits are reversed below it. */
  function Rev(m: nat, b: nat): (r: nat)
    ensures r < Pow2(b)
  {
    if b == 0 then 0 else LowBitMovedUp(m, b) + Rev(m / 2, b - 1)
  }

  /** A bit c placed above a number r that fits in k bits: bit k is c and the
      bits below are those of r. */
  lemma {:induction false} BitOfTopAndRest(c: nat, k: nat, r: nat, i: nat)
    requires c <= 1 && r < Pow2(k) && i <= k
    ensures Bit(c * Pow2(k) + r, i) == if i == k then c else Bit(r, i)
    decreases i
  {
    var x := c * Pow2(k) + r;
    if i == 0 {
      if k > 0 {
        assert x == (c * Pow2(k - 1)) * 2 + r;
        Arithmetic.ModAddMultiple(r, c * Pow2(k - 1), 2);
      }
    } else {
      assert x == r % 2 + (c * Pow2(k - 1) + r / 2) * 2;
      Arithmetic.DivModUnique(x, 2, c * Pow2(k - 1) + r / 2, r % 2);
      BitOfTopAndRest(c, k - 1, r / 2, i - 1);
    }
  }

  /** Rev does what its name says: bit i of Rev(m, b) is bit b-1-i of m. */
  lemma {:induction false} RevBit(m: nat, b: nat, i: nat)
    requires i < b
    ensures Bit(Rev(m, b), i) == Bit(m, b - 1 - i)
    decreases b
  {
    BitOfTopAndRest(m % 2, b - 1, Rev(m / 2, b - 1), i);
    if i < b - 1 {
      RevBit(m / 2, b - 1, i);
    }
  }

  /** Two numbers below 2^b with the same low b bits are equal. */
  lemma {:induction false} BitsDetermine(x: nat, y: nat, b: nat)
    requires x < Pow2(b) && y < Pow2(b)
    requires forall i: nat :: i < b ==> Bit(x, i) == Bit(y, i)
    ensures x == y
    decreases b
  {
    if b > 0 {
      assert Bit(x, 0) == Bit(y, 0);
      forall i: nat | i < b - 1
        ensures Bit(x / 2, i) == Bit(y / 2, i)
      {
        assert Bit(x, i + 1) == Bit(y, i + 1);
      }
      BitsDetermine(x / 2, y / 2, b - 1);
    }
  }

  /** Reversing the low b bits twice gives back any number below 2^b. */
  lemma RevInvolutive(m: nat, b: nat)
    requires m < Pow2(b)
    ensures Rev(Rev(m, b), b) == m
  {
    forall i: nat | i < b
      ensures Bit(Rev(Rev(m, b), b), i) == Bit(m, i)
    {
      RevBit(Rev(m, b), b, i);
      RevBit(m, b, b - 1 - i);
    }
    BitsDetermine(Rev(Rev(m, b), b), m, b);
  }

  lemma {:induction false} RevOfZero(b: nat)
    ensures Rev(0, b) == 0
  {
    if b > 0 {
      RevOfZero(b - 1);
    }
  }

  lemma {:induction false} RevOfAllOnes(b: nat)
    ensures Rev(Pow2(b) - 1, b) == Pow2(b) - 1
  {
    if b > 0 {
      RevOfAllOnes(b - 1);
      var m := Pow2(b) - 1;
      Arithmetic.DivModUnique(m, 2, Pow2(b - 1) - 1, 1);
    }
  }

  /** Index 0 and index 2^b - 1 are their own reverses. */
  lemma RevEnds(b: nat)
    ensures Rev(0, b) == 0
    ensures Rev(Pow2(b) - 1, b) == Pow2(b) - 1
  {
    RevOfZero(b);
    RevOfAllOnes(b);
  }

  /** One more bit: reversing b+1 bits shifts the reversed b bits up and puts
      bit b of m below them. */
  lemma {:induction false} RevStep(m: nat, b: nat)
    ensures Rev(m, b + 1) == 2 * Rev(m, b) + (m / Pow2(b)) % 2
    decreases b
  {
    if b > 0 {
      RevStep(m / 2, b - 1);
      Arithmetic.DivDiv(m, 2, Pow2(b - 1));
    }
  }

  /** A number that fits in j bits has zeros above them, and these become
      low zeros when its b >= j bits are reversed. */
  lemma {:induction false} RevLeadingZeros(m: nat, j: nat, b: nat)
    requires m < Pow2(j) && j <= b
    ensures Rev(m, b) == Rev(m, j) * Pow2(b - j)
    decreases j
  {
    if j == 0 {
      RevOfZero(b);
    } else {
      var P := Pow2(b - j);
      var rest := Rev(m / 2, j - 1);
      RevLeadingZeros(m / 2, j - 1, b - 1);
      Pow2Add(j - 1, b - j);
      assert Rev(m, j) == (m % 2) * Pow2(j - 1) + rest;
      assert Rev(m, b) == (m % 2) * Pow2(b - 1) + rest * P;
      ScaledSum(m % 2, Pow2(j - 1), P, Pow2(b - 1), rest);
    }
  }

  /** What `nreversed` holds after j iterations of the inner loop, before
      the 32-bit wrap-around: n shifted up by j bits with the j bits above
      bit 0 of n reversed below it. */
  function Accumulated(n: nat, j: nat): nat {
    n * Pow2(j) + Rev(n / 2, j)
  }

  /** A product that splits into a multiple of N and the reversed index:
      the value the inner loop has built, shifted by the missed iterations. */
  lemma ShiftedSplits(n: nat, j: nat, bits: nat)
    requires 1 <= n && j + 1 <= bits
    requires n / 2 < Pow2(j)
    ensures Accumulated(n, j) * Pow2(bits - 1 - j) == (n / 2) * Pow2(bits) + Rev(n, bits)
    ensures (Accumulated(n, j) * Pow2(bits - 1 - j)) % Pow2(bits) == Rev(n, bits)
  {
    var P, H, Q := Pow2(bits - 1 - j), Pow2(bits - 1), Pow2(j);
    var rest := Rev(n / 2, j);
    var half := n / 2;
    var r := Rev(n, bits);
    Pow2Add(j, bits - 1 - j);
    // bit 0 of n goes to the top; the bits of n / 2 follow below it
    assert r == LowBitMovedUp(n, bits) + Rev(half, bits - 1);
    RevLeadingZeros(half, j, bits - 1);
    ShiftedSum(n, half, n % 2, Q, P, H, rest, Pow2(bits));
    assert Accumulated(n, j) == n * Q + rest;
    Arithmetic.DivModUnique((n * Q + rest) * P, Pow2(bits), half, r);
  }

  /** Shifting left in 32 bits and then keeping the low `bits` bits is
      multiplying and keeping the low `bits` bits, whatever the 32-bit
      wrap-around dropped. */
  lemma ShiftThenMask(a: nat, c: nat, bits: nat)
    requires bits <= 32
    requires c < 32
    ensures ShiftLeft(a % Word, c) % Pow2(bits) == (a * Pow2(c)) % Pow2(bits)
  {
    var N, P, K := Pow2(bits), Pow2(c), Pow2(32 - bits);
    assert Word == N * K by {
      Pow2Add(bits, 32 - bits);
      Pow2Word();
    }
    var x := (a % Word) * P;
    assert ShiftLeft(a % Word, c) == x % Word;
    Arithmetic.ModOfModMultiple(x, N, K, Word);
    Arithmetic.ModMulModMultiple(a, P, N, K, Word);
  }

  /** One iteration of the inner loop doubles the accumulated value and adds
      the next bit of n. */
  lemma AccumulatedStep(n: nat, j: nat)
    ensures Accumulated(n, j + 1) == 2 * Accumulated(n, j) + ((n / 2) / Pow2(j)) % 2
  {
    RevStep(n / 2, j);
    assert Pow2(j + 1) == 2 * Pow2(j);
    Doubles(n, Pow2(j), Pow2(j + 1));
  }

  /** n times a doubled factor is twice n times the factor. */
  lemma Doubles(n: int, p: int, q: int)
    requires q == 2 * p
    ensures n * q == 2 * (n * p)
  {
  }

  /** The last two statements of the inner loop: shifting the accumulated
      value by the count of missed iterations and masking with N-1 leave
      exactly the reversed index. */
  lemma CompensateAndMask(n: nat, j: nat, bits: nat, a: nat)
    requires 1 <= n < Pow2(bits) && j + 1 <= bits <= 31
    requires n / 2 < Pow2(j)
    requires a == Accumulated(n, j)
    ensures ShiftLeft(a % Word, bits - 1 - j) % Pow2(bits) == Rev(n, bits)
  {
    ShiftThenMask(a, bits - 1 - j, bits);
    ShiftedSplits(n, j, bits);
  }

  /** The algebra of RevLeadingZeros: a sum c * A + rest scaled by P, where
      A * P == B. */
  lemma ScaledSum(c: int, a: int, p: int, b: int, rest: int)
    requires b == a * p
    ensures (c * a + rest) * p == c * b + rest * p
  {
    Arithmetic.Distributes(c * a, rest, p);
    Arithmetic.Associates(c, a, p);
  }

  /** The algebra of ShiftedSplits: n = 2 * half + low shifted by Q * P = H. */
  lemma ShiftedSum(n: int, half: int, low: int, Q: int, P: int, H: int, rest: int, B: int)
    requires n == 2 * half + low && Q * P == H && B == 2 * H
    ensures (n * Q + rest) * P == half * B + (low * H + rest * P)
  {
    Arithmetic.Distributes(n * Q, rest, P);
    Arithmetic.Associates(n, Q, P);
    Arithmetic.Distributes(2 * half, low, H);
    Arithmetic.Associates(half, 2, H);
  }

  /** The inner loop of `bitwise_reorder`: builds the bit-reversed index of n
      with 32-bit shifts and masks. The shift count `count` never becomes
      negative. */
  method ReversedIndex(n: nat, bits: nat) returns (nreversed: nat)
    requires 1 <= n < Pow2(bits) && bits <= 31
    ensures nreversed == Rev(n, bits)
    ensures nreversed < Pow2(bits)
  {
    var N := Pow2(bits);
    nreversed := n;
    var count: int := bits - 1;
    var nforward: nat := n / 2;  // n >> 1
    ghost var j: nat := 0;
    assert nreversed == Accumulated(n, 0) % Word by {
      Pow2Monotone(bits, 32);
      Pow2Word();
      Arithmetic.DivModUnique(n, Word, 0, n);
    }
    while nforward != 0
      invariant count == bits - 1 - j && count >= 0
      invariant nforward == (n / 2) / Pow2(j)
      invariant nreversed == Accumulated(n, j) % Word
    {
      // an iteration runs only while bits remain above bit j of n / 2
      assert j < bits - 1 by {
        Arithmetic.NonzeroQuotient(n / 2, Pow2(j));
        Pow2ExponentsOrdered(j, bits - 1);
      }
      ghost var a := Accumulated(n, j);
      var bit := nforward % 2;  // nforward & 1
      nreversed := ShiftLeft(nreversed, 1);
      // the shift leaves the lowest bit clear, so `|` adds the bit
      assert nreversed % 2 == 0;
      ShiftStep(a, bit);
      nreversed := nreversed + bit;
      AccumulatedStep(n, j);
      Arithmetic.DivDiv(n / 2, Pow2(j), 2);
      nforward := nforward / 2;  // nforward >>= 1
      count := count - 1;
      j := j + 1;
    }
    Arithmetic.ZeroQuotient(n / 2, Pow2(j));
    CompensateAndMask(n, j, bits, Accumulated(n, j));
    nreversed := ShiftLeft(nreversed, count);  // nreversed <<= count
    nreversed := nreversed % N;  // nreversed &= N - 1
  }

  /** One step of the inner loop on the unsigned 32-bit representation. */
  lemma ShiftStep(a: nat, bit: nat)
    requires bit <= 1
    ensures ShiftLeft(a % Word, 1) + bit == (2 * a + bit) % Word
  {
    var q, r := a / Word, a % Word;
    if 2 * r < Word {
      Arithmetic.DivModUnique(2 * r, Word, 0, 2 * r);
      Arithmetic.DivModUnique(2 * a + bit, Word, 2 * q, 2 * r + bit);
    } else {
      Arithmetic.DivModUnique(2 * r, Word, 1, 2 * r - Word);
      Arithmetic.DivModUnique(2 * a + bit, Word, 2 * q + 1, 2 * r - Word + bit);
    }
  }

  /** The slot whose original value slot k holds once the outer loop has
      handled every n in [1, m): a pair (k, Rev(k)) is exchanged when its
      smaller index is among those. */
  function Partner(k: nat, b: nat, m: nat): nat {
    var r := Rev(k, b);
    if (1 <= k < m && k < r) || (1 <= r < m && r < k) then r else k
  }

  /** The buffer after the outer loop has handled every n in [1, m). */
  function PartlyReordered<T>(s: seq<T>, m: nat): (t: seq<T>)
    requires IsPow2(|s|)
    ensures |t| == |s|
  {
    seq(|s|, k requires 0 <= k < |s| => s[Partner(k, Log2(|s|), m)])
  }

  /** The bit-reversal permutation of a power-of-two-length sequence: slot k
      receives the value of slot Rev(k). */
  function BitReversed<T>(s: seq<T>): (t: seq<T>)
    requires IsPow2(|s|)
    ensures |t| == |s|
  {
    seq(|s|, k requires 0 <= k < |s| => s[Rev(k, Log2(|s|))])
  }

  /** Exchanging two slots: each takes the other's value, and every other
      slot keeps its own. */
  function Swap<T>(s: seq<T>, i: nat, j: nat): (r: seq<T>)
    requires i < |s| && j < |s|
    ensures |r| == |s| && r[i] == s[j] && r[j] == s[i]
    ensures forall k :: 0 <= k < |s| && k != i && k != j ==> r[k] == s[k]
  {
    s[i := s[j]][j := s[i]]
  }

  lemma SwapKeepsMultiset<T>(s: seq<T>, i: nat, j: nat)
    requires i < |s| && j < |s|
    ensures multiset(Swap(s, i, j)) == multiset(s)
  {
    var t := s[i := s[j]];
    assert multiset(t) == multiset(s) - multiset{s[i]} + multiset{s[j]};
    assert multiset(t[j := s[i]]) == multiset(t) - multiset{t[j]} + multiset{s[i]};
  }

  lemma PartlyReorderedStart<T>(s: seq<T>)
    requires IsPow2(|s|)
    ensures PartlyReordered(s, 1) == s
  {
  }

  /** Handling n = m moves only the slots m and Rev(m), and those only when
      m < Rev(m). */
  lemma PartnerStep(k: nat, b: nat, m: nat)
    requires 1 <= m < Pow2(b) && k < Pow2(b)
    ensures Partner(k, b, m + 1)
         == if m < Rev(m, b) && k == m then Rev(m, b)
            else if m < Rev(m, b) && k == Rev(m, b) then m
            else Partner(k, b, m)
  {
    RevInvolutive(m, b);
    RevInvolutive(k, b);
  }

  /** Handling n = m exchanges slots m and Rev(m) exactly when m < Rev(m). */
  lemma PartlyReorderedStep<T>(s: seq<T>, m: nat)
    requires IsPow2(|s|) && 1 <= m < |s|
    ensures Rev(m, Log2(|s|)) < |s|
    ensures PartlyReordered(s, m + 1)
         == if m < Rev(m, Log2(|s|)) then Swap(PartlyReordered(s, m), m, Rev(m, Log2(|s|)))
            else PartlyReordered(s, m)
  {
    var b := Log2(|s|);
    var r := Rev(m, b);
    var t, u := PartlyReordered(s, m), PartlyReordered(s, m + 1);
    var v := if m < r then Swap(t, m, r) else t;
    if m < r {
      assert Partner(m, b, m) == m && Partner(r, b, m) == r by {
        RevInvolutive(m, b);
      }
    }
    forall k | 0 <= k < |s|
      ensures u[k] == v[k]
    {
      PartnerStep(k, b, m);
    }
  }

  /** Once every n in [1, N-1) is handled, the buffer is bit-reversed. */
  lemma PartlyReorderedDone<T>(s: seq<T>, m: nat)
    requires IsPow2(|s|) && m >= 1 && m + 1 >= |s|
    ensures PartlyReordered(s, m) == BitReversed(s)
  {
    var b := Log2(|s|);
    RevEnds(b);
    forall k | 0 <= k < |s|
      ensures Partner(k, b, m) == Rev(k, b)
    {
      RevInvolutive(k, b);
    }
  }

  /** Bit reversal is a permutation: it keeps every value and its count. */
  lemma BitReversedPermutation<T>(s: seq<T>)
    requires IsPow2(|s|)
    ensures multiset(BitReversed(s)) == multiset(s)
  {
    var m := 1;
    PartlyReorderedStart(s);
    while m + 1 < |s|
      invariant 1 <= m
      invariant multiset(PartlyReordered(s, m)) == multiset(s)
    {
      PartlyReorderedStep(s, m);
      var r := Rev(m, Log2(|s|));
      if m < r {
        SwapKeepsMultiset(PartlyReordered(s, m), m, r);
      }
      m := m + 1;
    }
    PartlyReorderedDone(s, m);
  }

  /** Bit reversal is an involution: applying it twice restores the input. */
  lemma BitReversedInvolution<T>(s: seq<T>)
    requires IsPow2(|s|)
    ensures BitReversed(BitReversed(s)) == s
  {
    var b := Log2(|s|);
    forall k | 0 <= k < |s|
      ensures BitReversed(BitReversed(s))[k] == s[k]
    {
      RevInvolutive(k, b);
    }
  }

  /** The first and the last slot never move. */
  lemma BitReversedFixesEnds<T>(s: seq<T>)
    requires IsPow2(|s|)
    ensures BitReversed(s)[0] == s[0]
    ensures BitReversed(s)[|s| - 1] == s[|s| - 1]
  {
    RevEnds(Log2(|s|));
  }

  /** Bit reversal moves slots, not what they hold, so it commutes with
      reading the complex value of every slot. */
  lemma LowerBitReversed(s: seq<Value>)
    requires IsPow2(|s|)
    ensures Lower(BitReversed(s)) == BitReversed(Lower(s))
  {
  }

  /** `bitwise_reorder(x)`: for n in [1, N-1), swaps x[n] and x[Rev(n)] when
      n < Rev(n). */
  method BitwiseReorder(x: Signal)
    requires IsPow2(|x.items|) && |x.items| < Word
    modifies x
    ensures x.items == BitReversed(old(x.items))
    ensures multiset(x.items) == multiset(old(x.items))
  {
    ghost var s := x.items;
    var N := |x.items|;
    var bits := Log2(N);
    assert bits <= 31 by {
      if bits > 31 {
        Pow2Monotone(32, bits);
        Pow2Word();
      }
    }
    var n := 1;
    PartlyReorderedStart(s);
    while n < N - 1
      invariant 1 <= n && (N >= 2 ==> n <= N - 1)
      invariant x.items == PartlyReordered(s, n)
    {
      var nreversed := ReversedIndex(n, bits);
      PartlyReorderedStep(s, n);
      if n < nreversed {
        var temp := x.items[n];
        x.items := x.items[n := x.items[nreversed]];
        x.items := x.items[nreversed := temp];
      }
      n := n + 1;
    }
    PartlyReorderedDone(s, n);
    BitReversedPermutation(s);
  }
}
