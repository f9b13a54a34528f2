/**
 * Bytes, 64-bit unsigned integers and their big-endian byte form
 * (`u64::to_be_bytes`).
 */
module ByteSeq {

  /** A `u8`. */
  type Byte = x: int | 0 <= x < 256

  /** One more than `u64::MAX`. */
  const U64_LIMIT: int := 0x1_0000_0000_0000_0000

  /** A `u64`. */
  type U64 = x: int | 0 <= x < 0x1_0000_0000_0000_0000

  predicate AllZero(b: seq<Byte>) {
    forall i :: 0 <= i < |b| ==> b[i] == 0
  }

  function Zeros(n: nat): (z: seq<Byte>)
    ensures |z| == n && AllZero(z)
  {
    seq(n, _ => 0)
  }

  /** `b` without its leading zero bytes. */
  function TrimLeadingZeroes(b: seq<Byte>): (r: seq<Byte>)
    ensures r == [] <==> AllZero(b)
    ensures r != [] ==> r[0] != 0
    ensures |r| <= |b| && b == Zeros(|b| - |r|) + r
  {
    if b == [] then []
    else if b[0] != 0 then
      assert b == Zeros(0) + b;
      b
    else
      var r := TrimLeadingZeroes(b[1..]);
      assert b == [0] + b[1..];
      assert Zeros(|b| - |r|) == [0] + Zeros(|b[1..]| - |r|);
      r
  }

  /** Leading zero bytes are all trimmed, whatever follows them. */
  lemma {:induction false} TrimZerosPrefix(z: nat, t: seq<Byte>)
    ensures TrimLeadingZeroes(Zeros(z) + t) == TrimLeadingZeroes(t)
  {
    var b := Zeros(z) + t;
    if z > 0 {
      assert b[0] == 0 && b[1..] == Zeros(z - 1) + t;
      TrimZerosPrefix(z - 1, t);
    } else {
      assert b == t;
    }
  }

  /**
   * The canonical byte form of the unsigned integer that `b` spells in big
   * endian: leading zero bytes dropped, and zero itself as the one byte 0.
   */
  function Canonical(b: seq<Byte>): seq<Byte> {
    if AllZero(b) then [0] else TrimLeadingZeroes(b)
  }

  /** The unsigned integer that `b` spells in big endian. */
  function BytesValue(b: seq<Byte>): nat {
    if b == [] then 0 else BytesValue(b[..|b| - 1]) * 256 + b[|b| - 1]
  }

  function Pow256(k: nat): (p: nat)
    ensures p >= 1
  {
    if k == 0 then 1 else 256 * Pow256(k - 1)
  }

  /**
   * `n.to_be_bytes()` for a `k`-byte integer: the low `k` bytes of `n`,
   * most significant first, which spell `n` whenever it fits in `k` bytes.
   */
  function ToBeBytes(n: nat, k: nat): (b: seq<Byte>)
    ensures |b| == k
    ensures n < Pow256(k) ==> BytesValue(b) == n
  {
    if k == 0 then []
    else
      var p := ToBeBytes(n / 256, k - 1);
      var b := p + [n % 256];
      assert b[..|b| - 1] == p;
      assert n < Pow256(k) ==> n / 256 < Pow256(k - 1);
      b
  }

  /** Zero is `k` zero bytes. */
  lemma {:induction false} ToBeBytesZero(k: nat)
    ensures ToBeBytes(0, k) == Zeros(k)
  {
    if k > 0 {
      ToBeBytesZero(k - 1);
      assert Zeros(k) == Zeros(k - 1) + [0];
    }
  }

  /** A number below 256 occupies only the last of `k` big-endian bytes. */
  lemma ToBeBytesSmall(n: nat, k: nat)
    requires n < 256 && k >= 1
    ensures ToBeBytes(n, k) == Zeros(k - 1) + [n]
  {
    assert n / 256 == 0 && n % 256 == n;
    ToBeBytesZero(k - 1);
  }

  lemma {:induction false} ZeroValue(b: seq<Byte>)
    ensures AllZero(b) <==> BytesValue(b) == 0
  {
    if b != [] {
      ZeroValue(b[..|b| - 1]);
      if AllZero(b) {
        assert AllZero(b[..|b| - 1]);
      } else if AllZero(b[..|b| - 1]) {
        assert b[|b| - 1] != 0;
      }
    }
  }

  /** The eight big-endian bytes of a `u64` are all zero exactly when it is zero. */
  lemma U64BytesZero(n: U64)
    ensures |ToBeBytes(n, 8)| == 8
    ensures BytesValue(ToBeBytes(n, 8)) == n
    ensures AllZero(ToBeBytes(n, 8)) <==> n == 0
  {
    assert Pow256(8) == U64_LIMIT;
    ZeroValue(ToBeBytes(n, 8));
  }
}
