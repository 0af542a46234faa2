/** Binary form of unsigned 8-bit integers as boolean vectors, most-significant
    bit first: the `bin_u8` and `bin_vec_u8` helpers of the encoder. */
module Binary {

  /** Rust's `u8`. */
  newtype u8 = x: int | 0 <= x < 256

  /** 2 to the power n. */
  function Pow2(n: nat): (r: nat)
    ensures r > 0
  {
    if n == 0 then 1 else 2 * Pow2(n - 1)
  }

  /** x halved n times, each time rounding down (x >> n). */
  function Halve(x: nat, n: nat): nat
  {
    if n == 0 then x else Halve(x, n - 1) / 2
  }

  /** Bit k of x (bit 0 is the least significant) is set. */
  predicate BitSet(x: nat, k: nat)
  {
    Halve(x, k) % 2 == 1
  }

  /** The n low bits of x, most-significant first: element k is bit n-1-k. */
  function MsbBits(x: nat, n: nat): seq<bool>
  {
    seq(n, k requires 0 <= k < n => BitSet(x, n - 1 - k))
  }

  /** The eight bits of a byte, most-significant first. */
  function MsbFirst(x: u8): seq<bool>
  {
    MsbBits(x as nat, 8)
  }

  /** The number a bit vector denotes, read most-significant bit first. */
  function Value(bits: seq<bool>): nat
  {
    if bits == [] then 0
    else 2 * Value(bits[..|bits| - 1]) + (if bits[|bits| - 1] then 1 else 0)
  }

  /** The elements of s in the opposite order. */
  function Reversed<T>(s: seq<T>): seq<T>
  {
    seq(|s|, k requires 0 <= k < |s| => s[|s| - 1 - k])
  }

  /** The bytes of xs expanded to bits, eight per byte, in input order. */
  function Flatten(xs: seq<u8>): (r: seq<bool>)
    ensures |r| == 8 * |xs|
  {
    if xs == [] then [] else Flatten(xs[..|xs| - 1]) + MsbFirst(xs[|xs| - 1])
  }

  /** `bin_u8`: collects the low bit of x and halves x, eight times, then
      reverses the collected bits. */
  method BinU8(x: u8) returns (output: seq<bool>)
    ensures output == MsbFirst(x)
  {
    var y := x;
    var lsbFirst: seq<bool> := [];
    for i := 0 to 8
      invariant |lsbFirst| == i
      invariant y as nat == Halve(x as nat, i)
      invariant forall k :: 0 <= k < i ==> lsbFirst[k] == BitSet(x as nat, k)
    {
      lsbFirst := lsbFirst + [y % 2 == 1];
      y := y / 2;
    }
    output := Reversed(lsbFirst);
  }

  /** `bin_vec_u8`: appends the bits of every byte, in order, to one vector. */
  method BinVecU8(x: seq<u8>) returns (output: seq<bool>)
    ensures output == Flatten(x)
  {
    output := [];
    for j := 0 to |x|
      invariant output == Flatten(x[..j])
    {
      var bits := BinU8(x[j]);
      for k := 0 to |bits|
        invariant output == Flatten(x[..j]) + bits[..k]
      {
        output := output + [bits[k]];
      }
      assert x[..j + 1][..j] == x[..j];
    }
    assert x[..|x|] == x;
  }

  /** Halving and dividing by a power of two agree. */
  lemma DivHalf(a: nat, b: nat)
    requires b > 0
    ensures a / b / 2 == a / (2 * b)
  {
    var q, r := a / b, a % b;
    var q2, r2 := q / 2, q % 2;
    assert a == q2 * (2 * b) + (r2 * b + r) by {
      assert a == q * b + r;
      assert q == 2 * q2 + r2;
    }
    assert 0 <= r2 * b + r < 2 * b;
    DivUnique(a, 2 * b, q2, r2 * b + r);
  }

  /** Euclidean division has one quotient: any q with a == q * d + r and
      r < d is a / d. */
  lemma DivUnique(a: nat, d: nat, q: nat, r: nat)
    requires d > 0 && r < d && a == q * d + r
    ensures a / d == q
  {
    var q', r' := a / d, a % d;
    if q' < q {
      MulAtLeast(q - q', d);
    } else if q' > q {
      MulAtLeast(q' - q, d);
    }
  }

  lemma {:induction false} MulAtLeast(m: nat, d: nat)
    requires m >= 1
    ensures m * d >= d
  {
    if m > 1 {
      MulAtLeast(m - 1, d);
      assert m * d == (m - 1) * d + d;
    }
  }

  /** x halved k times is x divided by 2^k: BitSet is the usual bit test. */
  lemma {:induction false} HalveIsDivision(x: nat, k: nat)
    ensures Halve(x, k) == x / Pow2(k)
  {
    if k > 0 {
      HalveIsDivision(x, k - 1);
      DivHalf(x, Pow2(k - 1));
    }
  }

  /** Halving n+1 times is halving once, then n times. */
  lemma {:induction false} HalveShift(x: nat, n: nat)
    ensures Halve(x, n + 1) == Halve(x / 2, n)
  {
    if n > 0 {
      HalveShift(x, n - 1);
    }
  }

  /** A number below 2^n has nothing left after halving n times. */
  lemma {:induction false} HalveSmall(x: nat, n: nat)
    requires x < Pow2(n)
    ensures Halve(x, n) == 0
  {
    if n > 0 {
      HalveShift(x, n - 1);
      HalveSmall(x / 2, n - 1);
    }
  }

  /** Dropping the lowest of n+1 bits of x leaves the n low bits of x / 2. */
  lemma MsbBitsInit(x: nat, n: nat)
    ensures MsbBits(x, n + 1)[..n] == MsbBits(x / 2, n)
  {
    forall k | 0 <= k < n
      ensures MsbBits(x, n + 1)[k] == MsbBits(x / 2, n)[k]
    {
      assert MsbBits(x, n + 1)[k] == BitSet(x, n - k);
      assert MsbBits(x / 2, n)[k] == BitSet(x / 2, n - 1 - k);
      HalveShift(x, n - 1 - k);
    }
  }

  /** The n low bits of x, read back, give x without its part above 2^n. */
  lemma {:induction false} ValueOfMsbBits(x: nat, n: nat)
    ensures Value(MsbBits(x, n)) + Halve(x, n) * Pow2(n) == x
  {
    if n > 0 {
      var s := MsbBits(x, n);
      MsbBitsInit(x, n - 1);
      assert s[n - 1] == BitSet(x, 0);
      assert s[n - 1] == (x % 2 == 1);
      ValueOfMsbBits(x / 2, n - 1);
      HalveShift(x, n - 1);
      var v, h, p := Value(MsbBits(x / 2, n - 1)), Halve(x / 2, n - 1), Pow2(n - 1);
      assert Value(s) == 2 * v + x % 2;
      assert h * (2 * p) == 2 * (h * p);
    }
  }

  /** bin_u8 loses no information: its bits, read back, give the byte. */
  lemma MsbFirstValue(x: u8)
    ensures Value(MsbFirst(x)) == x as nat
  {
    ValueOfMsbBits(x as nat, 8);
    HalveSmall(x as nat, 8);
  }

  /** Two bytes with the same binary form are equal. */
  lemma MsbFirstInjective(x: u8, y: u8)
    requires MsbFirst(x) == MsbFirst(y)
    ensures x == y
  {
    MsbFirstValue(x);
    MsbFirstValue(y);
  }

  /** The documented example: 5 is 0000 0101. */
  lemma MsbFirstFive()
    ensures MsbFirst(5) == [false, false, false, false, false, true, false, true]
  {
    assert Halve(5, 1) == 2 && Halve(5, 2) == 1 && Halve(5, 3) == 0;
    assert Halve(5, 4) == 0 && Halve(5, 5) == 0 && Halve(5, 6) == 0 && Halve(5, 7) == 0;
    var bits := MsbBits(5, 8);
    assert MsbFirst(5) == bits;
    assert bits[0] == BitSet(5, 7) && bits[1] == BitSet(5, 6);
    assert bits[2] == BitSet(5, 5) && bits[3] == BitSet(5, 4);
    assert bits[4] == BitSet(5, 3) && bits[5] == BitSet(5, 2);
    assert bits[6] == BitSet(5, 1) && bits[7] == BitSet(5, 0);
  }

  /** Bits 8j..8j+7 of the flattened vector are the bits of byte j. */
  lemma {:induction false} FlattenAt(xs: seq<u8>, j: nat, k: nat)
    requires j < |xs| && k < 8
    ensures Flatten(xs)[8 * j + k] == MsbFirst(xs[j])[k]
  {
    var init := xs[..|xs| - 1];
    if j < |xs| - 1 {
      FlattenAt(init, j, k);
      assert init[j] == xs[j];
    }
  }

  /** bin_vec_u8 loses no information: different messages give different bits. */
  lemma FlattenInjective(xs: seq<u8>, ys: seq<u8>)
    requires Flatten(xs) == Flatten(ys)
    ensures xs == ys
  {
    assert |xs| == |ys|;
    forall j | 0 <= j < |xs|
      ensures xs[j] == ys[j]
    {
      forall k | 0 <= k < 8
        ensures MsbFirst(xs[j])[k] == MsbFirst(ys[j])[k]
      {
        FlattenAt(xs, j, k);
        FlattenAt(ys, j, k);
      }
      MsbFirstInjective(xs[j], ys[j]);
    }
  }

  /** The documented example: [5, 9] is 0000 0101 0000 1001. */
  lemma FlattenFiveNine()
    ensures Flatten([5, 9]) == [false, false, false, false, false, true, false, true,
                                false, false, false, false, true, false, false, true]
  {
    MsbFirstFive();
    assert Halve(9, 1) == 4 && Halve(9, 2) == 2 && Halve(9, 3) == 1 && Halve(9, 4) == 0;
    assert Halve(9, 5) == 0 && Halve(9, 6) == 0 && Halve(9, 7) == 0;
    assert MsbFirst(9) == [false, false, false, false, true, false, false, true];
    assert [5, 9][..1] == [5 as u8];
    assert [5 as u8][..0] == [];
  }
}
