/**
 * Text-level steps shared by the hex codecs: the `0x` prefix, padding an odd
 * digit count with one `'0'` nibble, and the minimal encoding policy, which
 * hex-encodes a buffer and drops the leading `'0'` digits.
 */
module HexText {
  import opened Wrappers
  import opened ByteSeq
  import opened Base16

  predicate HasPrefix(s: string) {
    |s| >= 2 && s[0] == '0' && s[1] == 'x'
  }

  /** `s.strip_prefix("0x")`. */
  function StripPrefix(s: string): (r: Option<string>)
    ensures r.Some? <==> HasPrefix(s)
    ensures r.Some? ==> s == "0x" + r.value
  {
    if HasPrefix(s) then Some(s[2..]) else None
  }

  lemma StripPrefixOf(rest: string)
    ensures StripPrefix("0x" + rest) == Some(rest)
  {
    assert ("0x" + rest)[2..] == rest;
  }

  function Repeat(c: char, n: nat): (r: string)
    ensures |r| == n && forall k :: 0 <= k < n ==> r[k] == c
  {
    seq(n, _ => c)
  }

  predicate AllZeroDigits(h: string) {
    forall k :: 0 <= k < |h| ==> h[k] == '0'
  }

  /** `h.find(|c| c != '0')`: the position of the first digit that is not `'0'`. */
  function FindNonZero(h: string): (r: Option<nat>)
    ensures r.Some? ==> r.value < |h| && h[r.value] != '0' && AllZeroDigits(h[..r.value])
    ensures r.None? <==> AllZeroDigits(h)
  {
    if h == [] then None
    else if h[0] != '0' then Some(0)
    else match FindNonZero(h[1..])
      case Some(i) =>
        assert h[..i + 1] == [h[0]] + h[1..][..i];
        Some(i + 1)
      case None => None
  }

  lemma FindNonZeroAt(h: string, i: nat)
    requires i < |h| && h[i] != '0' && AllZeroDigits(h[..i])
    ensures FindNonZero(h) == Some(i)
  {
  }

  /** Prepends one `'0'` nibble to an odd number of digits. */
  function PadOdd(s: string): (r: string)
    ensures |r| % 2 == 0
    ensures |s| % 2 != 0 ==> r == "0" + s
    ensures |s| % 2 == 0 ==> r == s
  {
    if |s| % 2 != 0 then "0" + s else s
  }

  /**
   * The minimal policy: `0x` and the encoding of `buf` without its leading
   * `'0'` digits, or `default` when no digit is left. The digits kept, with
   * the dropped `'0'`s put back in front, are the full encoding.
   */
  function Minimal(buf: seq<Byte>, default: string): (r: string)
    ensures AllZero(buf) ==> r == default
    ensures !AllZero(buf) ==> HasPrefix(r) && |r| > 2 && r[2] != '0' && AllLowerHex(r[2..])
    ensures !AllZero(buf) ==> |r| - 2 <= 2 * |buf|
    ensures !AllZero(buf) ==> Encode(buf) == Repeat('0', 2 * |buf| - (|r| - 2)) + r[2..]
  {
    var h := Encode(buf);
    EncodeZero(buf);
    match FindNonZero(h)
    case Some(i) =>
      var r := "0x" + h[i..];
      assert r[2..] == h[i..] && |r| - 2 == |h| - i;
      SplitAtZeros(h, i);
      r
    case None => default
  }

  /** Digits whose first `i` are `'0'` are `i` zeros followed by the rest. */
  lemma SplitAtZeros(h: string, i: nat)
    requires i <= |h| && AllZeroDigits(h[..i])
    ensures h == Repeat('0', i) + h[i..]
  {
    assert h[..i] == Repeat('0', i);
    assert h == h[..i] + h[i..];
  }

  /** The digits the minimal policy keeps are those from the first non-`'0'` digit on. */
  lemma MinimalRest(buf: seq<Byte>, default: string)
    requires !AllZero(buf)
    ensures FindNonZero(Encode(buf)).Some?
    ensures Minimal(buf, default)[2..] == Encode(buf)[FindNonZero(Encode(buf)).value..]
  {
    EncodeZero(buf);
  }

  lemma EncodeZeros(z: nat)
    ensures Encode(Zeros(z)) == Repeat('0', 2 * z)
  {
    EncodeZero(Zeros(z));
  }

  lemma EncodeAfterZeros(z: nat, t: seq<Byte>)
    ensures Encode(Zeros(z) + t) == Repeat('0', 2 * z) + Encode(t)
  {
    EncodeAppend(Zeros(z), t);
    EncodeZeros(z);
  }

  /** A non-zero first byte has a non-`'0'` first digit, or else a non-`'0'` second one. */
  lemma LeadingDigits(t: seq<Byte>)
    requires t != [] && t[0] != 0
    ensures |Encode(t)| >= 2
    ensures (Encode(t)[0] != '0') == (t[0] / 16 != 0)
    ensures Encode(t)[0] != '0' || Encode(t)[1] != '0'
  {
    EncodeAt(t, 0);
    var x := t[0];
    assert x / 16 == 0 ==> x % 16 != 0;
  }

  /** After `'0'` digits, the first non-`'0'` digit is the first or the second of what follows. */
  lemma NonZeroAfterZeros(zs: string, e: string, high: bool)
    requires AllZeroDigits(zs) && |e| >= 2
    requires (e[0] != '0') == high
    requires e[0] != '0' || e[1] != '0'
    ensures (zs + e)[|zs|..] == e
    ensures FindNonZero(zs + e) == Some(if high then |zs| else |zs| + 1)
  {
    var h := zs + e;
    if high {
      assert h[..|zs|] == zs;
      FindNonZeroAt(h, |zs|);
    } else {
      assert h[..|zs| + 1] == zs + [e[0]];
      FindNonZeroAt(h, |zs| + 1);
    }
  }

  /**
   * The digits the minimal policy keeps, padded to an even count, are
   * exactly the full encoding of the buffer without its leading zero bytes.
   */
  lemma MinimalPadded(buf: seq<Byte>, default: string)
    requires !AllZero(buf)
    ensures PadOdd(Minimal(buf, default)[2..]) == Encode(TrimLeadingZeroes(buf))
  {
    MinimalRest(buf, default);
    PaddedFromFirstSignificant(buf);
  }

  lemma PaddedFromFirstSignificant(buf: seq<Byte>)
    requires !AllZero(buf)
    ensures FindNonZero(Encode(buf)).Some?
    ensures PadOdd(Encode(buf)[FindNonZero(Encode(buf)).value..]) == Encode(TrimLeadingZeroes(buf))
  {
    var t := TrimLeadingZeroes(buf);
    var z := |buf| - |t|;
    assert buf == Zeros(z) + t;
    PaddedAfterZeros(z, t);
  }

  lemma PaddedAfterZeros(z: nat, t: seq<Byte>)
    requires t != [] && t[0] != 0
    ensures FindNonZero(Encode(Zeros(z) + t)).Some?
    ensures PadOdd(Encode(Zeros(z) + t)[FindNonZero(Encode(Zeros(z) + t)).value..]) == Encode(t)
  {
    EncodeAfterZeros(z, t);
    PaddedAfterZeroDigits(Repeat('0', 2 * z), Encode(t), t);
  }

  /** After `'0'` digits, padding the digits from the first significant one gives back the encoding that followed them. */
  lemma PaddedAfterZeroDigits(zs: string, e: string, t: seq<Byte>)
    requires AllZeroDigits(zs) && t != [] && t[0] != 0 && e == Encode(t)
    ensures FindNonZero(zs + e).Some?
    ensures PadOdd((zs + e)[FindNonZero(zs + e).value..]) == e
  {
    LeadingDigits(t);
    NonZeroAfterZeros(zs, e, t[0] / 16 != 0);
    PaddedSuffix(zs + e, |zs|, t);
  }

  lemma PaddedSuffix(h: string, k: nat, t: seq<Byte>)
    requires t != [] && t[0] != 0
    requires k <= |h| && h[k..] == Encode(t)
    requires FindNonZero(h) == Some(if t[0] / 16 != 0 then k else k + 1)
    ensures PadOdd(h[FindNonZero(h).value..]) == Encode(t)
  {
    if t[0] / 16 == 0 {
      DropOneDigit(Encode(t), t);
      assert h[k + 1..] == Encode(t)[1..];
    }
  }

  lemma DropOneDigit(e: string, t: seq<Byte>)
    requires t != [] && t[0] / 16 == 0 && e == Encode(t)
    ensures PadOdd(e[1..]) == e
  {
    EncodeAt(t, 0);
    assert e[0] == '0';
    assert "0" + e[1..] == e;
  }

  /** The digits the minimal policy keeps spell the number the buffer spells. */
  lemma MinimalValue(buf: seq<Byte>, default: string)
    requires !AllZero(buf)
    ensures AllHex(Minimal(buf, default)[2..])
    ensures DigitsValue(Minimal(buf, default)[2..]) == BytesValue(buf)
  {
    var r := Minimal(buf, default);
    var rest := r[2..];
    var h := Encode(buf);
    assert h == Repeat('0', |h| - |rest|) + rest;
    DigitsValueZeroPrefix(Repeat('0', |h| - |rest|), rest);
    EncodeValue(buf);
  }

  /** Prepending `'0'` neither adds nor removes a non-digit. */
  lemma PrependZeroHex(s: string)
    ensures AllHex("0" + s) <==> AllHex(s)
  {
    assert forall k :: 0 <= k < |s| ==> ("0" + s)[k + 1] == s[k];
  }

  /**
   * Decoding a remainder padded to even length succeeds exactly on digits,
   * with `(|rest| + 1) / 2` bytes, the first below 16 when a `'0'` was
   * prepended.
   */
  lemma PaddedDecode(rest: string)
    ensures Decode(PadOdd(rest)).Ok? <==> AllHex(rest)
    ensures Decode(PadOdd(rest)).Ok? ==> |Decode(PadOdd(rest)).value| == (|rest| + 1) / 2
    ensures Decode(PadOdd(rest)).Ok? && |rest| % 2 != 0 ==>
      |Decode(PadOdd(rest)).value| > 0 && Decode(PadOdd(rest)).value[0] < 16
  {
    var p := PadOdd(rest);
    DecodeOk(p);
    PrependZeroHex(rest);
    DecodeHead(p);
  }

  /**
   * The minimal policy keeps an odd number of digits exactly when the first
   * significant byte is below 16, and otherwise all `2 * |t|` digits of the
   * trimmed buffer `t`.
   */
  lemma MinimalLength(buf: seq<Byte>, default: string)
    requires !AllZero(buf)
    ensures var t := TrimLeadingZeroes(buf);
      var n := |Minimal(buf, default)| - 2;
      && (n % 2 != 0 <==> t[0] < 16)
      && n == (if t[0] < 16 then 2 * |t| - 1 else 2 * |t|)
  {
    var t := TrimLeadingZeroes(buf);
    var rest := Minimal(buf, default)[2..];
    MinimalPadded(buf, default);
    EncodeAt(t, 0);
    var e := Encode(t);
    if |rest| % 2 == 0 {
      assert rest == e;
      assert e[0] != '0';
    } else {
      assert "0" + rest == e;
      assert e[0] == '0';
    }
  }

  /**
   * The minimal encoding spelled out: `0x` and the full encoding of the
   * trimmed buffer, less its first digit when that digit is `'0'`.
   */
  lemma MinimalExact(buf: seq<Byte>, default: string)
    requires !AllZero(buf)
    ensures var t := TrimLeadingZeroes(buf);
      Minimal(buf, default) == "0x" + (if t[0] < 16 then Encode(t)[1..] else Encode(t))
  {
    var t := TrimLeadingZeroes(buf);
    var r := Minimal(buf, default);
    MinimalPadded(buf, default);
    MinimalLength(buf, default);
    Unpad(r, Encode(t), t[0] < 16);
  }

  /**
   * A prefixed string whose digits pad to `e`, with an odd count exactly when
   * `small`, is `0x` and `e`, less its first digit when `small`.
   */
  lemma Unpad(r: string, e: string, small: bool)
    requires HasPrefix(r) && PadOdd(r[2..]) == e
    requires (|r[2..]| % 2 != 0) == small
    ensures r == "0x" + (if small then e[1..] else e)
  {
    var rest := r[2..];
    assert r == "0x" + rest;
    if small {
      assert ("0" + rest)[1..] == rest;
    }
  }

  /** Two digit strings without a leading `'0'` that pad to the same digits are equal. */
  lemma PadOddInjective(a: string, b: string)
    requires a != [] && b != [] && a[0] != '0' && b[0] != '0'
    requires PadOdd(a) == PadOdd(b)
    ensures a == b
  {
    if |a| % 2 != 0 && |b| % 2 != 0 {
      assert a == ("0" + a)[1..] && b == ("0" + b)[1..];
    }
  }

  /** A buffer whose first byte is 16 or more is written with all its digits. */
  lemma MinimalTrimmed(buf: seq<Byte>, default: string)
    requires buf != [] && buf[0] >= 16
    ensures Minimal(buf, default) == "0x" + Encode(buf)
  {
    assert !AllZero(buf);
    assert TrimLeadingZeroes(buf) == buf;
    MinimalExact(buf, default);
  }

  /** Leading zero bytes do not change the minimal encoding. */
  lemma MinimalZeroPrefix(z: nat, t: seq<Byte>, default: string)
    ensures Minimal(Zeros(z) + t, default) == Minimal(t, default)
  {
    var b := Zeros(z) + t;
    TrimZerosPrefix(z, t);
    if !AllZero(t) {
      MinimalExact(b, default);
      MinimalExact(t, default);
    }
  }

  /**
   * Zero bytes followed by `t`, whose first byte is not zero and whose
   * encoding is `e`, are written as `0x` and `e`, less its first digit when
   * that byte is below 16.
   */
  lemma MinimalAfterZeros(z: nat, t: seq<Byte>, default: string, e: string)
    requires t != [] && t[0] != 0 && e == Encode(t)
    ensures Minimal(Zeros(z) + t, default) == "0x" + (if t[0] < 16 then e[1..] else e)
  {
    MinimalZeroPrefix(z, t, default);
    assert TrimLeadingZeroes(t) == t;
    MinimalExact(t, default);
  }
}
