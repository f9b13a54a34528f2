/**
 * The serde codecs of `format/src/types/serde.rs` for the types of
 * `format/src/types/types.rs`: a prefixed, odd-padding hex decoder, the two
 * minimal encodings, and on top of them `Index`, `Status`,
 * `TransactionType`, `Bytes`, `Quantity` and the fixed-width arrays.
 */
module TypesSerde {
  import opened Wrappers
  import opened ByteSeq
  import opened Base16
  import opened HexText
  import opened RustNum
  import opened Errors
  import opened Types
  import UIntCodec
  import TransactionTypeCodec
  import HexCodec

  /**
   * `decode_hex` into a `Vec<u8>`: `0x` is required (a missing one is the
   * unit `InvalidHexPrefix`), an odd digit count gets one `'0'` in front,
   * and the digits must all be hex.
   */
  function DecodeHexVec(value: string): (r: Outcome<seq<Byte>>)
    ensures !HasPrefix(value) ==> r == Err(InvalidHexPrefix(None))
    ensures HasPrefix(value) ==> (r.Ok? <==> AllHex(value[2..]))
    ensures r.Ok? ==> |r.value| == (|value| - 1) / 2
    ensures r.Ok? && |value| % 2 != 0 ==> |r.value| > 0 && r.value[0] < 16
    ensures r.Err? && HasPrefix(value) ==> r.error.DecodeHex?
    ensures r.Ok? ==> HasPrefix(value) && SpellsBytes(PadOdd(value[2..]), r.value)
  {
    match StripPrefix(value)
    case None => Err(InvalidHexPrefix(None))
    case Some(rest) =>
      PaddedDecode(rest);
      DecodeOk(PadOdd(rest));
      assert |value| == |rest| + 2;
      match Decode(PadOdd(rest))
      case Ok(b) => Ok(b)
      case Err(e) => Err(Error.DecodeHex(e))
  }

  /** Upper- and mixed-case digits after `0x` decode to the byte they spell. */
  lemma DecodeEitherCaseExample()
    ensures DecodeHexVec("0xAB") == Ok([0xAB]) && DecodeHexVec("0xaB") == Ok([0xAB])
  {
    DecodeEitherCase();
    StripPrefixOf("AB");
    StripPrefixOf("aB");
    assert PadOdd("AB") == "AB" && PadOdd("aB") == "aB";
  }

  /**
   * `decode_hex` into `[u8; n]`: as `DecodeHexVec`, but the padded digits
   * must number exactly `2 * n`, so only `2 * n` or `2 * n - 1` digits after
   * `0x` are accepted.
   */
  function DecodeHexArray(value: string, n: nat): (r: Outcome<seq<Byte>>)
    ensures !HasPrefix(value) ==> r == Err(InvalidHexPrefix(None))
    ensures r.Ok? <==>
      && HasPrefix(value)
      && AllHex(value[2..])
      && (|value| - 2 == 2 * n || |value| - 2 == 2 * n - 1)
    ensures r.Ok? ==> |r.value| == n && r == DecodeHexVec(value)
    ensures r.Err? && HasPrefix(value) ==> r.error.DecodeHex?
  {
    match StripPrefix(value)
    case None => Err(InvalidHexPrefix(None))
    case Some(rest) =>
      var padded := PadOdd(rest);
      DecodeArrayOk(padded, n);
      PrependZeroHex(rest);
      match DecodeArray(padded, n)
      case Ok(b) => Ok(b)
      case Err(e) => Err(Error.DecodeHex(e))
  }

  /** `encode_hex`: the minimal policy, `"0x"` for an empty or all-zero buffer. */
  function EncodeHex(buf: seq<Byte>): (r: string)
    ensures r == "0x" <==> AllZero(buf)
    ensures !AllZero(buf) ==> HasPrefix(r) && |r| > 2 && r[2] != '0'
  {
    Minimal(buf, "0x")
  }

  /** `encode_hex_int`: the minimal policy, `"0x0"` for an empty or all-zero buffer. */
  function EncodeHexInt(buf: seq<Byte>): (r: string)
    ensures r == "0x0" <==> AllZero(buf)
    ensures !AllZero(buf) ==> HasPrefix(r) && |r| > 2 && r[2] != '0'
  {
    Minimal(buf, "0x0")
  }

  /** Odd-length padding reads both minimal encodings back as the buffer without its leading zero bytes. */
  lemma MinimalReadBack(buf: seq<Byte>)
    ensures DecodeHexVec(EncodeHexInt(buf)) == Ok(Canonical(buf))
    ensures DecodeHexVec(EncodeHex(buf)) == Ok(TrimLeadingZeroes(buf))
  {
    HexCodec.OddPaddedRoundTrip(buf);
    var q := EncodeHexInt(buf);
    var d := EncodeHex(buf);
    assert HasPrefix(q) && HasPrefix(d);
    assert StripPrefix(q) == Some(q[2..]);
    assert StripPrefix(d) == Some(d[2..]);
  }

  // Index

  /**
   * The `Index` visitor: `0x` is required, then `u64::from_str_radix(_, 16)`.
   * It is the `UInt` visitor of `format/src/types/uint.rs` under another name.
   */
  function IndexVisitStr(value: string): (r: Outcome<Index>)
    ensures !HasPrefix(value) ==> r == Err(Custom("invalid hex prefix"))
    ensures r.Ok? <==> UIntCodec.VisitStr(value).Ok?
    ensures r.Ok? ==> r.value.value == UIntCodec.VisitStr(value).value.value
    ensures r.Err? ==> r.error == UIntCodec.VisitStr(value).error
  {
    match StripPrefix(value)
    case None => Err(Custom("invalid hex prefix"))
    case Some(rest) =>
      match FromStrRadix16(rest)
      case Err(kind) => Err(ParseInt(kind))
      case Ok(n) => Ok(Index(n))
  }

  /** `Index` serialisation: `encode_hex_int` of the eight big-endian bytes, as `UInt` does. */
  function IndexSerialize(i: Index): (r: string)
    ensures r == "0x0" <==> i.value == 0
    ensures r == UIntCodec.Serialize(UIntCodec.UInt(i.value))
  {
    U64BytesZero(i.value);
    EncodeHexInt(ToBeBytes(i.value, 8))
  }

  /** Every `u64`, `u64::MAX` included, reads back as itself. */
  lemma IndexRoundTrip(i: Index)
    ensures IndexVisitStr(IndexSerialize(i)) == Ok(i)
  {
    UIntCodec.RoundTrip(UIntCodec.UInt(i.value));
  }

  /** The serialisations of 0, 1 and 25. */
  lemma IndexExamples()
    ensures IndexSerialize(Index(0)) == "0x0"
    ensures IndexSerialize(Index(1)) == "0x1"
    ensures IndexSerialize(Index(25)) == "0x19"
  {
    IndexOfOne();
    IndexOfTwentyFive();
  }

  lemma IndexOfOne()
    ensures IndexSerialize(Index(1)) == "0x1"
  {
    OneByteTail(1);
    var t: seq<Byte> := [1];
    assert TrimLeadingZeroes(t) == t;
    assert Encode(t) == "01";
    MinimalExact(t, "0x0");
  }

  lemma IndexOfTwentyFive()
    ensures IndexSerialize(Index(25)) == "0x19"
  {
    OneByteTail(25);
    MinimalOfTwentyFive();
  }

  lemma MinimalOfTwentyFive()
    ensures Minimal([25], "0x0") == "0x19"
  {
    var t: seq<Byte> := [25];
    assert ByteDigits(25) == "19";
    assert Encode(t) == ByteDigits(25) + Encode([]);
    MinimalTrimmed(t, "0x0");
  }

  /** A `u64` below 256 is written as the minimal encoding of its last byte alone. */
  lemma OneByteTail(n: nat)
    requires 0 < n < 256
    ensures IndexSerialize(Index(n)) == Minimal([n], "0x0")
  {
    var b := ToBeBytes(n, 8);
    var t: seq<Byte> := [n];
    ToBeBytesSmall(n, 8);
    assert b == Zeros(7) + t;
    MinimalZeroPrefix(7, t, "0x0");
    assert IndexSerialize(Index(n)) == Minimal(b, "0x0");
  }

  // Status and TransactionType

  /** The `Status` visitor: `"0x1"` is `Success`, `"0x0"` is `Failure`, anything else `"unknown status"`. */
  function StatusVisitStr(value: string): (r: Outcome<Status>)
    ensures r.Ok? <==> value == "0x1" || value == "0x0"
    ensures r.Ok? ==> (r.value == Success <==> value == "0x1")
    ensures r.Err? ==> r.error == Custom("unknown status")
  {
    if value == "0x1" then Ok(Success)
    else if value == "0x0" then Ok(Failure)
    else Err(Custom("unknown status"))
  }

  /** `Status` serialisation: the token of each variant, distinct for the two. */
  function StatusSerialize(s: Status): (r: string)
    ensures r == "0x1" || r == "0x0"
  {
    match s
    case Success => "0x1"
    case Failure => "0x0"
  }

  /** The status table is one bijection read in both directions. */
  lemma StatusRoundTrip(s: Status, value: string)
    ensures StatusVisitStr(StatusSerialize(s)) == Ok(s)
    ensures StatusVisitStr(value).Ok? ==> StatusSerialize(StatusVisitStr(value).value) == value
  {
  }

  /** The `TransactionType` visitor: `"0x0"`, `"0x1"`, `"0x2"`, anything else `"unknown transaction type"`. */
  function TransactionTypeVisitStr(value: string): (r: Outcome<TransactionType>)
    ensures r.Ok? <==> value == "0x0" || value == "0x1" || value == "0x2"
    ensures r.Err? ==> r.error == Custom("unknown transaction type")
    ensures r.Ok? ==>
      && (r.value == Legacy <==> value == "0x0")
      && (r.value == AccessListType <==> value == "0x1")
      && (r.value == DynamicFee <==> value == "0x2")
  {
    if value == "0x0" then Ok(Legacy)
    else if value == "0x1" then Ok(AccessListType)
    else if value == "0x2" then Ok(DynamicFee)
    else Err(Custom("unknown transaction type"))
  }

  /** `TransactionType` serialisation: one of the three tokens. */
  function TransactionTypeSerialize(t: TransactionType): (r: string)
    ensures r == "0x0" || r == "0x1" || r == "0x2"
    ensures (r == "0x0" <==> t == Legacy) && (r == "0x1" <==> t == AccessListType) && (r == "0x2" <==> t == DynamicFee)
  {
    match t
    case Legacy => "0x0"
    case AccessListType => "0x1"
    case DynamicFee => "0x2"
  }

  /** The transaction-type table is one bijection read in both directions. */
  lemma TransactionTypeRoundTrip(t: TransactionType, value: string)
    ensures TransactionTypeVisitStr(TransactionTypeSerialize(t)) == Ok(t)
    ensures TransactionTypeVisitStr(value).Ok? ==>
      TransactionTypeSerialize(TransactionTypeVisitStr(value).value) == value
  {
  }

  /**
   * This table accepts the tokens `from_str` of
   * `format/src/types/transaction_type.rs` accepts, and maps them to the
   * variants of the same name; only the error differs.
   */
  lemma TransactionTypeRevisionsAgree(value: string)
    ensures TransactionTypeVisitStr(value).Ok? <==> TransactionTypeCodec.FromStr(value).Ok?
    ensures TransactionTypeVisitStr(value).Ok? ==>
      TransactionTypeCodec.AsStr(TransactionTypeCodec.FromStr(value).value)
        == TransactionTypeSerialize(TransactionTypeVisitStr(value).value)
  {
  }

  // Bytes and Quantity

  /** The `Bytes` visitor: `DecodeHexVec`, keeping every decoded byte. */
  function BytesVisitStr(value: string): (r: Outcome<Bytes>)
    ensures !HasPrefix(value) ==> r == Err(InvalidHexPrefix(None))
    ensures HasPrefix(value) ==> (r.Ok? <==> AllHex(value[2..]))
    ensures r.Ok? ==> |r.value.data| == (|value| - 1) / 2
    ensures r.Ok? ==> r.value.data == DecodeHexVec(value).value
  {
    match DecodeHexVec(value)
    case Ok(buf) => Ok(Bytes(buf))
    case Err(e) => Err(e)
  }

  /** `Bytes` serialisation: `encode_hex`, so leading zero bytes are not written and no bytes at all give `"0x"`. */
  function BytesSerialize(b: Bytes): (r: string)
    ensures r == "0x" <==> AllZero(b.data)
    ensures !AllZero(b.data) ==> HasPrefix(r) && |r| > 2 && r[2] != '0'
  {
    EncodeHex(b.data)
  }

  /** The `Quantity` visitor: `DecodeHexVec`; this revision's `Quantity` checks nothing further. */
  function QuantityVisitStr(value: string): (r: Outcome<Quantity>)
    ensures !HasPrefix(value) ==> r == Err(InvalidHexPrefix(None))
    ensures HasPrefix(value) ==> (r.Ok? <==> AllHex(value[2..]))
    ensures r.Ok? ==> |r.value.data| == (|value| - 1) / 2
    ensures r.Ok? ==> r.value.data == DecodeHexVec(value).value
  {
    match DecodeHexVec(value)
    case Ok(buf) => Ok(Quantity(buf))
    case Err(e) => Err(e)
  }

  /** `Quantity` serialisation: `encode_hex_int`, so zero is `"0x0"`. */
  function QuantitySerialize(q: Quantity): (r: string)
    ensures r == "0x0" <==> AllZero(q.data)
    ensures !AllZero(q.data) ==> HasPrefix(r) && |r| > 2 && r[2] != '0'
  {
    EncodeHexInt(q.data)
  }

  /** The index of the first non-zero byte, as the test helper's `find` computes it. */
  function FindNonZeroByte(b: seq<Byte>): (r: Option<nat>)
    ensures r.Some? ==> r.value < |b| && b[r.value] != 0 && AllZero(b[..r.value])
    ensures r.None? <==> AllZero(b)
  {
    if b == [] then None
    else if b[0] != 0 then Some(0)
    else match FindNonZeroByte(b[1..])
      case Some(i) =>
        assert b[..i + 1] == [b[0]] + b[1..][..i];
        Some(i + 1)
      case None => None
  }

  /**
   * What the round-trip test helper expects back: the buffer from its first
   * non-zero byte on, or `[0]` when there is none. It is the canonical form.
   */
  function IgnoreLeadingZeroes(b: seq<Byte>): (r: seq<Byte>)
    ensures r == Canonical(b)
  {
    match FindNonZeroByte(b)
    case Some(i) =>
      var t := TrimLeadingZeroes(b);
      var k := |b| - |t|;
      assert b == Zeros(k) + t;
      assert b[k] == t[0];
      assert forall j :: 0 <= j < i ==> b[j] == b[..i][j] == 0;
      assert i == k;
      assert b[i..] == t;
      b[i..]
    case None => [0]
  }

  /** A quantity reads back as its canonical form, for every buffer: the property the `Quantity` tests check. */
  lemma QuantityRoundTrip(q: Quantity)
    ensures QuantityVisitStr(QuantitySerialize(q)) == Ok(Quantity(IgnoreLeadingZeroes(q.data)))
  {
    MinimalReadBack(q.data);
  }

  /**
   * Bytes read back without their leading zero bytes, which is what the test
   * helper expects exactly when some byte is non-zero.
   */
  lemma BytesRoundTrip(b: Bytes)
    ensures BytesVisitStr(BytesSerialize(b)) == Ok(Bytes(TrimLeadingZeroes(b.data)))
    ensures BytesVisitStr(BytesSerialize(b)) == Ok(Bytes(IgnoreLeadingZeroes(b.data))) <==> !AllZero(b.data)
  {
    MinimalReadBack(b.data);
  }

  /**
   * The defaults: an empty `Quantity` is written `"0x0"` and an empty
   * `Bytes` `"0x"`, which reads back as no bytes, not the `[0]` the `Bytes`
   * round-trip test expects of `Bytes::default()`.
   */
  lemma DefaultSerialisations()
    ensures QuantitySerialize(QuantityDefault()) == "0x0"
    ensures BytesSerialize(BytesDefault()) == "0x"
    ensures BytesVisitStr("0x") == Ok(Bytes([]))
    ensures IgnoreLeadingZeroes(BytesDefault().data) == [0]
  {
    StripPrefixOf("");
    assert Decode(PadOdd("")) == Ok([]);
  }

  /** `[0x00, 0x01]` is written `"0x1"` and read back as the one byte `0x01`: the leading zero byte is lost. */
  lemma BytesLosesLeadingZero()
    ensures BytesSerialize(Bytes([0x00, 0x01])) == "0x1"
    ensures BytesVisitStr("0x1") == Ok(Bytes([0x01]))
  {
    var t: seq<Byte> := [0x01];
    assert Encode(t) == ByteDigits(0x01) + Encode([]) == "01";
    assert [0x00, 0x01] == Zeros(1) + t;
    MinimalAfterZeros(1, t, "0x", "01");
    assert "01"[1..] == "1";
    StripPrefixOf("1");
    assert PadOdd("1") == "01";
    DecodeEncode([0x01]);
  }

  /** `Bytes` serialisation with every byte written: `0x` and the full encoding. */
  function BytesSerializeFull(b: Bytes): (r: string)
    ensures HasPrefix(r) && |r| == 2 + 2 * |b.data| && AllLowerHex(r[2..])
  {
    var r := "0x" + Encode(b.data);
    assert r[2..] == Encode(b.data);
    r
  }

  /** With every byte written, every `Bytes` value reads back as itself, zero bytes and the empty value included. */
  lemma BytesFullRoundTrip(b: Bytes)
    ensures BytesVisitStr(BytesSerializeFull(b)) == Ok(b)
  {
    StripPrefixOf(Encode(b.data));
    assert BytesSerializeFull(b) == "0x" + Encode(b.data);
    DecodeEncode(b.data);
  }

  // Fixed-width arrays

  /** Serialising a fixed-width value: `0x` and the full encoding, two digits for every byte. */
  function FixedSerialize(buf: seq<Byte>): (r: string)
    ensures HasPrefix(r) && |r| == 2 + 2 * |buf| && AllLowerHex(r[2..])
  {
    var r := "0x" + Encode(buf);
    assert r[2..] == Encode(buf);
    r
  }

  /** A fixed-width value reads back as itself, leading, interior and trailing zero bytes included. */
  lemma FixedRoundTrip(buf: seq<Byte>)
    ensures DecodeHexArray(FixedSerialize(buf), |buf|) == Ok(buf)
  {
    var r := FixedSerialize(buf);
    assert r == "0x" + Encode(buf);
    StripPrefixOf(Encode(buf));
    DecodeEncode(buf);
  }

  /** Dropping the one leading `'0'` digit of a value whose first byte is below 16 still reads back the same value. */
  lemma FixedDroppedNibble(buf: seq<Byte>)
    requires buf != [] && buf[0] < 16
    ensures DecodeHexArray("0x" + Encode(buf)[1..], |buf|) == Ok(buf)
  {
    var e := Encode(buf);
    EncodeAt(buf, 0);
    assert e[0] == '0';
    assert "0" + e[1..] == e;
    StripPrefixOf(e[1..]);
    DecodeEncode(buf);
  }

  /** The three instances: 32-byte hashes, 20-byte addresses and 256-byte bloom filters. */
  lemma FixedInstances(h: Bytes32, a: Address, f: BloomFilter)
    ensures DecodeHexArray(FixedSerialize(h), BYTES32_LEN) == Ok(h)
    ensures DecodeHexArray(FixedSerialize(a), ADDRESS_LEN) == Ok(a)
    ensures DecodeHexArray(FixedSerialize(f), BLOOM_FILTER_LEN) == Ok(f)
    ensures DecodeHexArray(FixedSerialize(a), BYTES32_LEN).Err?
  {
    FixedRoundTrip(h);
    FixedRoundTrip(a);
    FixedRoundTrip(f);
  }
}
