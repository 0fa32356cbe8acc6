/**
 * `generateBinaries(n)`: the numbers 0 ..< 2^n written out as lists of `n`
 * binary digits, most significant digit first, in increasing order.
 */
module Binaries {

  /** 2^t. */
  function Pow2(t: nat): (r: nat)
    ensures r >= 1
  {
    if t == 0 then 1 else 2 * Pow2(t - 1)
  }

  /** `x` shifted right by `t` binary places: what is left of `x` after `t` halvings. */
  function Shr(x: nat, t: nat): nat
  {
    if t == 0 then x else Shr(x, t - 1) / 2
  }

  /**
   * The `w` binary digits of `x`, most significant first: digit `k` is bit
   * `w - 1 - k` of `x`.
   */
  function ToBinary(x: nat, w: nat): (r: seq<int>)
    ensures |r| == w && IsBinary(r)
  {
    seq(w, k requires 0 <= k < w => Shr(x, w - 1 - k) % 2)
  }

  /** The number a list of binary digits stands for, most significant first. */
  function FromBinary(bits: seq<int>): int
    decreases |bits|
  {
    if bits == [] then 0 else 2 * FromBinary(bits[..|bits| - 1]) + bits[|bits| - 1]
  }

  /** Every entry is a binary digit. */
  ghost predicate IsBinary(bits: seq<int>)
  {
    forall k | 0 <= k < |bits| :: bits[k] == 0 || bits[k] == 1
  }

  /**
   * The number of rows: `1 << n` on a 64-bit integer. A shift by 64 places
   * or more leaves 0 and a negative shift count shifts right, leaving 0 too;
   * a shift by 63 places gives a negative bound, on which the range traps.
   */
  function RowCount(n: int): nat
    requires n != 63
  {
    if 0 <= n <= 62 then Pow2(n) else 0
  }

  /** The integer length of `x` in binary digits (0 for 0). */
  function BitLength(x: nat): nat
  {
    if x == 0 then 0 else 1 + BitLength(x / 2)
  }

  /** Halving `x` before a shift is a shift by one more place. */
  lemma {:induction false} ShrHalf(x: nat, t: nat)
    ensures Shr(x / 2, t) == Shr(x, t + 1)
  {
    if t > 0 {
      ShrHalf(x, t - 1);
    }
  }

  /** A number below 2^w has fewer than w - t binary digits left after a shift by t. */
  lemma {:induction false} ShrBound(x: nat, w: nat, t: nat)
    requires x < Pow2(w) && t <= w
    ensures Shr(x, t) < Pow2(w - t)
  {
    if t > 0 {
      ShrBound(x, w, t - 1);
    }
  }

  /** Once the shifted value is zero, shifting further leaves zero. */
  lemma {:induction false} ShrZero(x: nat, t: nat, u: nat)
    requires Shr(x, t) == 0 && t <= u
    ensures Shr(x, u) == 0
    decreases u - t
  {
    if t < u {
      ShrZero(x, t, u - 1);
    }
  }

  /**
   * `generateBinaries(n)`: for each `i` in 0 ..< (1 << n) a row of `n`
   * zeros gets the binary digits of `i`, least significant first, written
   * from its right end leftwards. Row `i` is the `n`-digit binary form of
   * `i`.
   */
  method GenerateBinaries(n: int) returns (output: seq<seq<int>>)
    requires n != 63
    ensures |output| == RowCount(n)
    ensures forall i | 0 <= i < |output| :: output[i] == ToBinary(i, n)
  {
    output := [];
    for i := 0 to RowCount(n)
      invariant |output| == i
      invariant forall m | 0 <= m < i :: output[m] == ToBinary(m, n)
    {
      var iAsBinary := seq(n, _ => 0);
      var remainder := i;
      var bitCount := BitLength(i);
      var j := bitCount;
      ghost var t: nat := 0;
      ShrBound(i, n, 0);
      while remainder >= 1
        invariant t <= n && remainder == Shr(i, t) && j == bitCount - t
        invariant |iAsBinary| == n
        invariant forall k | 0 <= k < n - t :: iAsBinary[k] == 0
        invariant forall k | n - t <= k < n :: iAsBinary[k] == Shr(i, n - 1 - k) % 2
        decreases remainder
      {
        ShrBound(i, n, t);
        var bit := remainder % 2;
        remainder := remainder / 2;
        iAsBinary := iAsBinary[n - bitCount + j - 1 := bit];
        j := j - 1;
        t := t + 1;
      }
      forall k | 0 <= k < n - t ensures iAsBinary[k] == Shr(i, n - 1 - k) % 2 {
        ShrZero(i, t, n - 1 - k);
      }
      output := output + [iAsBinary];
    }
  }

  /** The `w` digits of `x`, read back, give `x` when it is below 2^w. */
  lemma {:induction false} FromToBinary(x: nat, w: nat)
    requires x < Pow2(w)
    ensures FromBinary(ToBinary(x, w)) == x
  {
    if w > 0 {
      var bits := ToBinary(x, w);
      FromToBinary(x / 2, w - 1);
      assert bits[..w - 1] == ToBinary(x / 2, w - 1) by {
        forall k | 0 <= k < w - 1 ensures bits[k] == ToBinary(x / 2, w - 1)[k] {
          ShrHalf(x, w - 2 - k);
        }
      }
      assert bits[w - 1] == Shr(x, 0) % 2 == x % 2;
      assert FromBinary(bits) == 2 * FromBinary(bits[..w - 1]) + bits[w - 1];
    }
  }

  /** Reading a list of binary digits gives a number below 2^length. */
  lemma {:induction false} FromBinaryBound(bits: seq<int>)
    requires IsBinary(bits)
    ensures 0 <= FromBinary(bits) < Pow2(|bits|)
    decreases |bits|
  {
    if bits != [] {
      FromBinaryBound(bits[..|bits| - 1]);
    }
  }

  /** Writing out a list of binary digits after reading it gives the list back. */
  lemma {:induction false} ToFromBinary(bits: seq<int>)
    requires IsBinary(bits)
    ensures FromBinary(bits) >= 0 && ToBinary(FromBinary(bits), |bits|) == bits
    decreases |bits|
  {
    FromBinaryBound(bits);
    if bits != [] {
      var w := |bits|;
      var front := bits[..w - 1];
      ToFromBinary(front);
      FromBinaryBound(front);
      var x := FromBinary(bits);
      assert x / 2 == FromBinary(front);
      forall k | 0 <= k < w ensures ToBinary(x, w)[k] == bits[k] {
        if k < w - 1 {
          ShrHalf(x, w - 2 - k);
          assert ToBinary(x, w)[k] == Shr(x / 2, w - 2 - k) % 2;
          assert ToBinary(FromBinary(front), w - 1)[k] == front[k];
        } else {
          assert ToBinary(x, w)[k] == Shr(x, 0) % 2 == x % 2;
          assert bits[w - 1] == 0 || bits[w - 1] == 1;
          assert x == 2 * FromBinary(front) + bits[w - 1];
        }
      }
    }
  }

  /**
   * The rows of `generateBinaries(n)` are exactly the lists of `n` binary
   * digits: each row is one, each such list is the row at the index it
   * stands for, and no two rows are equal.
   */
  lemma BinariesEnumerate(n: nat, output: seq<seq<int>>)
    requires n <= 62
    requires |output| == RowCount(n) && forall i | 0 <= i < |output| :: output[i] == ToBinary(i, n)
    ensures forall i | 0 <= i < |output| :: |output[i]| == n && IsBinary(output[i])
    ensures forall bits: seq<int> | |bits| == n && IsBinary(bits) ::
              0 <= FromBinary(bits) < |output| && output[FromBinary(bits)] == bits
    ensures forall i, j | 0 <= i < j < |output| :: output[i] != output[j]
  {
    forall bits: seq<int> | |bits| == n && IsBinary(bits)
      ensures 0 <= FromBinary(bits) < |output| && output[FromBinary(bits)] == bits
    {
      FromBinaryBound(bits);
      ToFromBinary(bits);
    }
    forall i, j | 0 <= i < j < |output| ensures output[i] != output[j] {
      FromToBinary(i, n);
      FromToBinary(j, n);
    }
  }

  /** The tests' count: `generateBinaries(6)` has 1 << 6 = 64 rows. */
  lemma GenerateSixRows()
    ensures RowCount(6) == 64
  {
    assert Pow2(3) == 8;
  }
}
