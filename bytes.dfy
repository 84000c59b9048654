/** Results and the errors a frame can be rejected with. */
module Wrappers {

  datatype Option<+T> = None | Some(value: T)

  /** Every way the framing layer rejects its input. */
  datatype Error =
    | BadMagic               // the frame does not start with 28 B5 2F FD
    | ReservedDescriptorBit  // bit 3 of the Frame_Header_Descriptor is set
    | ReservedBlockType      // a block header carries Block_Type 3
    | Truncated              // the input ends before a block with Last_Block set

  datatype Result<+T> = Ok(value: T) | Err(error: Error)
}

/** Bytes, powers of two, Python-style slices and little-endian integers. */
module Bytes {

  type byte = b: int | 0 <= b < 256

  function Pow2(n: nat): (r: nat)
    ensures r >= 1
  {
    if n == 0 then 1 else 2 * Pow2(n - 1)
  }

  lemma {:induction false} Pow2Add(a: nat, b: nat)
    ensures Pow2(a + b) == Pow2(a) * Pow2(b)
  {
    if b > 0 {
      Pow2Add(a, b - 1);
      assert Pow2(a + b) == 2 * Pow2(a + b - 1);
    }
  }

  lemma {:induction false} Pow2Monotone(a: nat, b: nat)
    requires a <= b
    ensures Pow2(a) <= Pow2(b)
  {
    if a < b {
      Pow2Monotone(a, b - 1);
    }
  }

  /** Python's `x >> n` on a non-negative integer: n halvings. */
  function ShiftRight(x: nat, n: nat): nat {
    if n == 0 then x else ShiftRight(x / 2, n - 1)
  }

  lemma MulAtLeast(d: int, m: int)
    requires d > 0 && m > 0
    ensures d * m >= d
  {
    assert d * m == d + d * (m - 1);
  }

  /** The quotient is the only q with x == d * q + r and 0 <= r < d. */
  lemma DivisionUnique(x: int, d: int, q: int, r: int)
    requires d > 0 && 0 <= r < d && x == d * q + r
    ensures x / d == q
  {
    var q0 := x / d;
    assert x == d * q0 + x % d;
    if q0 < q {
      MulAtLeast(d, q - q0);
    } else if q0 > q {
      MulAtLeast(d, q0 - q);
    }
  }

  /** Halving, then dividing by k, is dividing by 2k. */
  lemma HalveThenDivide(x: nat, k: nat)
    requires k > 0
    ensures x / 2 / k == x / (2 * k)
  {
    var q, r := x / (2 * k), x % (2 * k);
    assert x == 2 * k * q + r;
    assert 2 * (k * q + r / 2) + r % 2 == x;
    DivisionUnique(x, 2, k * q + r / 2, r % 2);
    DivisionUnique(x / 2, k, q, r / 2);
  }

  /** Shifting right by n divides by 2^n. */
  lemma {:induction false} ShiftRightIsDiv(x: nat, n: nat)
    ensures ShiftRight(x, n) == x / Pow2(n)
  {
    if n > 0 {
      ShiftRightIsDiv(x / 2, n - 1);
      HalveThenDivide(x, Pow2(n - 1));
    }
  }

  /** 256 to the power n: one more than the largest n-byte unsigned value. */
  function Pow256(n: nat): (r: nat)
    ensures r >= 1
  {
    if n == 0 then 1 else 256 * Pow256(n - 1)
  }

  function Min(a: int, b: int): int {
    if a <= b then a else b
  }

  /**
   * Python's `data[lo:lo + n]` for non-negative `lo` and `n`: the bytes at
   * `lo`, `lo + 1`, ... up to `n` of them, cut short where the input ends,
   * and empty when `lo` is at or past the end.
   */
  function Slice(data: seq<byte>, lo: nat, n: nat): (r: seq<byte>)
    ensures |r| == if lo >= |data| then 0 else Min(n, |data| - lo)
    ensures |r| <= n
    ensures lo + n <= |data| ==> |r| == n
  {
    if lo >= |data| then [] else data[lo..Min(lo + n, |data|)]
  }

  /** Each byte of a slice is the input byte at the same distance from `lo`. */
  lemma SliceIndex(data: seq<byte>, lo: nat, n: nat)
    ensures var r := Slice(data, lo, n);
      forall i :: 0 <= i < |r| ==> r[i] == data[lo + i]
  {
  }

  /** Python's `int.from_bytes(s, byteorder='little')`; the empty sequence reads as 0. */
  function LittleEndian(s: seq<byte>): nat {
    if s == [] then 0 else s[0] + 256 * LittleEndian(s[1..])
  }

  lemma {:induction false} LittleEndianBound(s: seq<byte>)
    ensures LittleEndian(s) < Pow256(|s|)
  {
    if s != [] {
      LittleEndianBound(s[1..]);
    }
  }

  /** The `k`-byte little-endian encoding of `n`: the inverse of LittleEndian. */
  function ToLittleEndian(n: nat, k: nat): (s: seq<byte>)
    requires n < Pow256(k)
    ensures |s| == k
  {
    if k == 0 then [] else [n % 256] + ToLittleEndian(n / 256, k - 1)
  }

  lemma {:induction false} LittleEndianOfToLittleEndian(n: nat, k: nat)
    requires n < Pow256(k)
    ensures LittleEndian(ToLittleEndian(n, k)) == n
  {
    if k > 0 {
      var s := ToLittleEndian(n, k);
      LittleEndianOfToLittleEndian(n / 256, k - 1);
      assert s[1..] == ToLittleEndian(n / 256, k - 1);
    }
  }

  lemma {:induction false} ToLittleEndianOfLittleEndian(s: seq<byte>)
    ensures LittleEndian(s) < Pow256(|s|)
    ensures ToLittleEndian(LittleEndian(s), |s|) == s
  {
    LittleEndianBound(s);
    if s != [] {
      ToLittleEndianOfLittleEndian(s[1..]);
      var n := LittleEndian(s);
      assert n % 256 == s[0] && n / 256 == LittleEndian(s[1..]);
    }
  }
}
