/**
 * The hex helpers of `format/src/types/hex.rs`: prefixed decoding, and the
 * minimal ("quantity" and "data") and full ("fixed-size data") encodings.
 */
module HexCodec {
  import opened Wrappers
  import opened ByteSeq
  import opened Base16
  import opened HexText
  import opened Errors

  /**
   * `decode_hex`: strips `0x`, then prepends a `'0'` to every remainder
   * whose length is not exactly two, odd or even, before hex decoding.
   */
  function DecodeHex(value: string): (r: Outcome<seq<Byte>>)
    ensures !HasPrefix(value) ==> r == Err(InvalidHexPrefix(Some(value)))
    ensures r.Err? ==> r.error.InvalidHexPrefix? || r.error.DecodeHex?
    ensures HasPrefix(value) && |value| == 4 ==>
      (r.Ok? <==> AllHex(value[2..])) && (r.Ok? ==> |r.value| == 1)
    ensures HasPrefix(value) && |value| % 2 != 0 ==>
      && (r.Ok? <==> AllHex(value[2..]))
      && (r.Ok? ==> |r.value| == (|value| - 1) / 2 && r.value[0] < 16)
    ensures HasPrefix(value) && |value| % 2 == 0 && |value| != 4 ==> r == Err(Error.DecodeHex(OddLength))
    ensures r.Ok? ==> HasPrefix(value) && SpellsBytes(if |value| != 4 then "0" + value[2..] else value[2..], r.value)
  {
    match StripPrefix(value)
    case None => Err(InvalidHexPrefix(Some(value)))
    case Some(rest) =>
      var padded := if |rest| != 2 then "0" + rest else rest;
      DecodeOk(padded);
      PrependZeroHex(rest);
      DecodeHead(padded);
      match Decode(padded)
      case Ok(b) => Ok(b)
      case Err(e) => Err(Error.DecodeHex(e))
  }

  /** `encode_hex_quantity`: the minimal policy, `"0x0"` for an empty or all-zero buffer. */
  function EncodeHexQuantity(buf: seq<Byte>): (r: string)
    ensures r == "0x0" <==> AllZero(buf)
    ensures !AllZero(buf) ==> HasPrefix(r) && |r| > 2 && r[2] != '0'
  {
    Minimal(buf, "0x0")
  }

  /** `encode_hex_data`: the minimal policy, `"0x"` for an empty or all-zero buffer. */
  function EncodeHexData(buf: seq<Byte>): (r: string)
    ensures r == "0x" <==> AllZero(buf)
    ensures !AllZero(buf) ==> HasPrefix(r) && |r| > 2 && r[2] != '0'
  {
    Minimal(buf, "0x")
  }

  /** `encode_hex_fixed_size_data`: `0x` and two lower-case digits per byte, zero bytes included. */
  function EncodeHexFixedSizeData(buf: seq<Byte>): (r: string)
    ensures HasPrefix(r) && |r| == 2 + 2 * |buf| && AllLowerHex(r[2..])
    ensures Decode(r[2..]) == Ok(buf)
  {
    var r := "0x" + Encode(buf);
    assert r[2..] == Encode(buf);
    DecodeEncode(buf);
    r
  }

  /**
   * Reading back the quantity encoding with `DecodeHex` gives the canonical
   * bytes only when the significant digits are odd in number or exactly two;
   * an even count of four or more is rejected.
   */
  lemma QuantityReadBack(buf: seq<Byte>)
    ensures AllZero(buf) ==> DecodeHex(EncodeHexQuantity(buf)) == Ok([0])
    ensures !AllZero(buf) ==>
      var t := TrimLeadingZeroes(buf);
      && (DecodeHex(EncodeHexQuantity(buf)).Ok? <==> t[0] < 16 || |t| == 1)
      && (DecodeHex(EncodeHexQuantity(buf)).Ok? ==> DecodeHex(EncodeHexQuantity(buf)) == Ok(t))
  {
    if AllZero(buf) {
      StripPrefixOf("0");
      assert Encode([0]) == "00";
      DecodeEncode([0]);
    } else {
      SignificantReadBack(buf);
    }
  }

  /** The quantity encoding of a buffer with a non-zero byte, read back by `DecodeHex`. */
  lemma SignificantReadBack(buf: seq<Byte>)
    requires !AllZero(buf)
    ensures var t := TrimLeadingZeroes(buf);
      && (DecodeHex(EncodeHexQuantity(buf)).Ok? <==> t[0] < 16 || |t| == 1)
      && (DecodeHex(EncodeHexQuantity(buf)).Ok? ==> DecodeHex(EncodeHexQuantity(buf)) == Ok(t))
  {
    var t := TrimLeadingZeroes(buf);
    var r := EncodeHexQuantity(buf);
    var rest := r[2..];
    assert r == "0x" + rest;
    MinimalLength(buf, "0x0");
    MinimalPadded(buf, "0x0");
    DecodeHexDigits(rest, t);
  }

  /** `DecodeHex` reads `0x` and digits that pad to the encoding of `t` as `t`, unless their count is even and not two. */
  lemma DecodeHexDigits(rest: string, t: seq<Byte>)
    requires PadOdd(rest) == Encode(t)
    ensures DecodeHex("0x" + rest).Ok? <==> |rest| % 2 != 0 || |rest| == 2
    ensures DecodeHex("0x" + rest).Ok? ==> DecodeHex("0x" + rest) == Ok(t)
  {
    StripPrefixOf(rest);
    PrependZeroHex(rest);
    DecodeEncode(t);
  }

  /** A concrete input: `[0x12, 0x34]` encodes to `"0x1234"`, which `DecodeHex` rejects. */
  lemma DecodeHexRejectsOwnEncoding()
    ensures EncodeHexQuantity([0x12, 0x34]) == "0x1234"
    ensures DecodeHex("0x1234") == Err(Error.DecodeHex(OddLength))
  {
    var buf: seq<Byte> := [0x12, 0x34];
    assert buf[0] != 0;
    assert TrimLeadingZeroes(buf) == buf;
    assert Encode(buf) == "1234";
    QuantityReadBack(buf);
    MinimalLength(buf, "0x0");
    var r := EncodeHexQuantity(buf);
    assert |r| == 6;
    assert Encode(buf) == Repeat('0', 0) + r[2..];
    assert r == "0x" + r[2..];
  }

  /** `decode_hex` with the padding condition read as "odd length", as the quantity codec writes it. */
  function DecodeHexOddPadded(value: string): Outcome<seq<Byte>> {
    match StripPrefix(value)
    case None => Err(InvalidHexPrefix(Some(value)))
    case Some(rest) =>
      match Decode(PadOdd(rest))
      case Ok(b) => Ok(b)
      case Err(e) => Err(Error.DecodeHex(e))
  }

  /** With odd-length padding both minimal encodings read back as the significant bytes. */
  lemma OddPaddedRoundTrip(buf: seq<Byte>)
    ensures DecodeHexOddPadded(EncodeHexQuantity(buf)) == Ok(Canonical(buf))
    ensures DecodeHexOddPadded(EncodeHexData(buf)) == Ok(TrimLeadingZeroes(buf))
  {
    if AllZero(buf) {
      StripPrefixOf("0");
      StripPrefixOf("");
      assert Encode([0]) == "00";
      DecodeEncode([0]);
      DecodeEncode([]);
    } else {
      var t := TrimLeadingZeroes(buf);
      var q := EncodeHexQuantity(buf);
      var d := EncodeHexData(buf);
      assert q == "0x" + q[2..] && d == "0x" + d[2..];
      StripPrefixOf(q[2..]);
      StripPrefixOf(d[2..]);
      MinimalPadded(buf, "0x0");
      MinimalPadded(buf, "0x");
      DecodeEncode(t);
    }
  }
}
