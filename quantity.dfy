/**
 * The canonical quantity of `format/src/types/quantity.rs`: a big-endian
 * unsigned integer whose byte form has no leading zero byte, except the
 * single byte 0 for zero, written as minimal hex that rejects leading `'0'`
 * digits on input.
 */
module QuantityCodec {
  import opened Wrappers
  import opened ByteSeq
  import opened Base16
  import opened HexText
  import opened Errors

  datatype Quantity = Quantity(bytes: seq<Byte>)

  /** What `From<Vec<u8>>` and `From<&[u8]>` assert: non-empty, and one byte or a non-zero first byte. */
  predicate WellFormed(b: seq<Byte>) {
    b != [] && (|b| == 1 || b[0] != 0)
  }

  /**
   * `Quantity::from(Vec<u8>)` and `Quantity::from(&[u8])`: accept exactly the
   * buffers that already are the canonical form of their number, and panic
   * on any other.
   */
  function From(buf: seq<Byte>): (r: Checked<Quantity>)
    ensures r.Returned? <==> buf == Canonical(buf)
    ensures r.Returned? ==> r.value.bytes == buf
  {
    if WellFormed(buf) then Returned(Quantity(buf)) else Panicked
  }

  /**
   * `Quantity::from([u8; N])`: copies the array without the assertions, so
   * it agrees with `From` wherever `From` returns, and also keeps the
   * buffers `From` refuses.
   */
  function FromArray(buf: seq<Byte>): (q: Quantity)
    ensures q.bytes == buf
    ensures From(buf).Returned? ==> From(buf) == Returned(q)
  {
    Quantity(buf)
  }

  /** `Quantity::default()`: the canonical form of zero, which the constructor accepts. */
  function Default(): (q: Quantity)
    ensures q.bytes == Canonical([]) && BytesValue(q.bytes) == 0
    ensures From(q.bytes) == Returned(q)
  {
    Quantity([0])
  }

  /**
   * `decode_hex`: `"0x0"` is zero; otherwise the prefix is required, a
   * remainder starting with `'0'` is rejected, and an odd digit count gets
   * one `'0'` nibble in front before hex decoding.
   */
  function DecodeHex(value: string): (r: Outcome<seq<Byte>>)
    ensures value == "0x0" ==> r == Ok([0])
    ensures !HasPrefix(value) ==> r == Err(InvalidHexPrefix(Some(value)))
    ensures HasPrefix(value) && value != "0x0" && |value| > 2 && value[2] == '0' ==>
      r == Err(UnexpectedLeadingZeroes(value))
    ensures r.Ok? <==>
      || value == "0x0"
      || (HasPrefix(value) && (|value| == 2 || value[2] != '0') && AllHex(value[2..]))
    ensures r.Ok? && value != "0x0" ==> (r.value == [] <==> value == "0x")
    ensures r.Ok? && value != "0x0" && r.value != [] ==>
      r.value[0] != 0 && |r.value| == (|value| - 1) / 2
    ensures r.Err? && HasPrefix(value) && (|value| == 2 || value[2] != '0') ==> r.error.DecodeHex?
    ensures r.Ok? && value != "0x0" ==> HasPrefix(value) && SpellsBytes(PadOdd(value[2..]), r.value)
  {
    if value == "0x0" then Ok([0])
    else
      match StripPrefix(value)
      case None => Err(InvalidHexPrefix(Some(value)))
      case Some(val) =>
        if |val| > 0 && val[0] == '0' then Err(UnexpectedLeadingZeroes(value))
        else
          var padded := PadOdd(val);
          DecodeOk(padded);
          PrependZeroHex(val);
          DecodeHead(padded);
          match Decode(padded)
          case Ok(b) => Ok(b)
          case Err(e) => Err(Error.DecodeHex(e))
  }

  /** `encode_hex`: the minimal policy, `"0x0"` for an empty or all-zero buffer. */
  function EncodeHex(buf: seq<Byte>): (r: string)
    ensures r == "0x0" <==> AllZero(buf)
    ensures !AllZero(buf) ==> HasPrefix(r) && |r| > 2 && r[2] != '0'
  {
    Minimal(buf, "0x0")
  }

  /**
   * The visitor: decode, then build with `Quantity::from(Vec<u8>)`. It
   * panics on `"0x"` alone, passes every decoding error on, and otherwise
   * returns the decoded bytes, which are in canonical form.
   */
  function VisitStr(value: string): (r: Checked<Outcome<Quantity>>)
    ensures r.Panicked? <==> value == "0x"
    ensures DecodeHex(value).Err? ==> r == Returned(Err(DecodeHex(value).error))
    ensures DecodeHex(value).Ok? && value != "0x" ==>
      r == Returned(Ok(Quantity(DecodeHex(value).value))) && WellFormed(DecodeHex(value).value)
  {
    DecodedWellFormed(value);
    match DecodeHex(value)
    case Err(e) => Returned(Err(e))
    case Ok(buf) =>
      match From(buf)
      case Panicked => Panicked
      case Returned(q) => Returned(Ok(q))
  }

  /**
   * `serialize`: `encode_hex` of the bytes, `"0x0"` exactly for zero, and
   * otherwise `0x` and digits without a leading `'0'` that spell the
   * quantity's number.
   */
  function Serialize(q: Quantity): (r: string)
    ensures r == "0x0" <==> BytesValue(q.bytes) == 0
    ensures BytesValue(q.bytes) != 0 ==>
      HasPrefix(r) && |r| > 2 && r[2] != '0' && AllHex(r[2..]) && DigitsValue(r[2..]) == BytesValue(q.bytes)
  {
    ZeroValue(q.bytes);
    if AllZero(q.bytes) then EncodeHex(q.bytes)
    else
      MinimalValue(q.bytes, "0x0");
      EncodeHex(q.bytes)
  }

  /**
   * Every buffer `DecodeHex` returns passes the constructor's assertions,
   * except the empty one from `"0x"`: the visitor panics on that input only.
   */
  lemma VisitPanicsOnlyOnBarePrefix(value: string)
    ensures VisitStr(value) == Panicked <==> value == "0x"
    ensures DecodeHex(value).Ok? && value != "0x" ==> WellFormed(DecodeHex(value).value)
  {
    DecodedWellFormed(value);
  }

  lemma DecodedWellFormed(value: string)
    ensures DecodeHex(value).Ok? ==> (WellFormed(DecodeHex(value).value) <==> value != "0x")
  {
    StripPrefixOf("");
    DecodeOk("");
  }

  /** `decode_hex(encode_hex(q)) == q` for every buffer the constructor accepts. */
  lemma RoundTrip(q: seq<Byte>)
    requires WellFormed(q)
    ensures DecodeHex(EncodeHex(q)) == Ok(q)
    ensures VisitStr(Serialize(Quantity(q))) == Returned(Ok(Quantity(q)))
  {
    if AllZero(q) {
      assert q == [0];
    } else {
      var r := EncodeHex(q);
      assert TrimLeadingZeroes(q) == q;
      assert r == "0x" + r[2..];
      StripPrefixOf(r[2..]);
      MinimalPadded(q, "0x0");
      DecodeEncode(q);
    }
  }

  /**
   * An array built without the assertions, leading zero bytes or all zeros
   * included, is written as its number and read back as the canonical form
   * of that number.
   */
  lemma FromArrayReadBack(buf: seq<Byte>)
    ensures VisitStr(Serialize(FromArray(buf))) == Returned(Ok(Quantity(Canonical(buf))))
  {
    var c := Canonical(buf);
    var t := TrimLeadingZeroes(buf);
    assert buf == Zeros(|buf| - |t|) + t;
    MinimalZeroPrefix(|buf| - |t|, t, "0x0");
    assert Serialize(FromArray(buf)) == EncodeHex(t);
    if AllZero(buf) {
      assert EncodeHex(t) == "0x0";
      RoundTrip([0]);
    } else {
      RoundTrip(t);
    }
  }

  /** Re-encoding a decoded lower-case input gives the input back, so the codec has one spelling per number. */
  lemma EncodeOfDecoded(value: string)
    requires DecodeHex(value).Ok? && value != "0x"
    requires AllLowerHex(value[2..])
    ensures EncodeHex(DecodeHex(value).value) == value
  {
    if value != "0x0" {
      var val := value[2..];
      var b := DecodeHex(value).value;
      StripPrefixOf(val);
      assert value == "0x" + val;
      var padded := PadOdd(val);
      assert AllLowerHex(padded) by {
        if |val| % 2 != 0 {
          assert forall k :: 0 < k < |padded| ==> padded[k] == val[k - 1];
        }
      }
      DecodeLowerReencodes(padded);
      assert Encode(b) == padded;
      assert TrimLeadingZeroes(b) == b;
      var r := EncodeHex(b);
      MinimalPadded(b, "0x0");
      PadOddInjective(r[2..], val);
      assert r == "0x" + r[2..];
    }
  }

  /** `Default()` is well formed and is written and read as `"0x0"`. */
  lemma DefaultToken()
    ensures From(Default().bytes) == Returned(Default())
    ensures Serialize(Default()) == "0x0"
    ensures VisitStr("0x0") == Returned(Ok(Default()))
  {
  }

  lemma EncodeFortyTwo()
    ensures Encode([0x42]) == "42"
  {
    assert ByteDigits(0x42) == "42";
    assert Encode([0x42]) == ByteDigits(0x42) + Encode([]);
  }

  lemma EncodeFortyTwoZero()
    ensures Encode([0x42, 0x00]) == "4200"
  {
    EncodeFortyTwo();
    EncodeAppend([0x42], [0x00]);
    assert ByteDigits(0x00) == "00";
    assert Encode([0x00]) == ByteDigits(0x00) + Encode([]);
    assert [0x42] + [0x00] == [0x42, 0x00];
  }

  lemma EncodeFortyTwoZeroZero()
    ensures Encode([0x42, 0x00, 0x00]) == "420000"
  {
    EncodeFortyTwoZero();
    EncodeAppend([0x42, 0x00], [0x00]);
    assert ByteDigits(0x00) == "00";
    assert Encode([0x00]) == ByteDigits(0x00) + Encode([]);
    assert [0x42, 0x00] + [0x00] == [0x42, 0x00, 0x00];
  }

  /** Serialisation example: `00 42 00` is `"0x4200"`. */
  lemma SerializeLeadingZero()
    ensures EncodeHex([0x00, 0x42, 0x00]) == "0x4200"
  {
    var t: seq<Byte> := [0x42, 0x00];
    EncodeFortyTwoZero();
    assert [0x00, 0x42, 0x00] == Zeros(1) + t;
    MinimalAfterZeros(1, t, "0x0", "4200");
  }

  /** Serialisation example: `42 00 00` is `"0x420000"`. */
  lemma SerializeTrailingZeros()
    ensures EncodeHex([0x42, 0x00, 0x00]) == "0x420000"
  {
    var t: seq<Byte> := [0x42, 0x00, 0x00];
    EncodeFortyTwoZeroZero();
    assert Zeros(0) + t == t;
    MinimalAfterZeros(0, t, "0x0", "420000");
  }

  /** Serialisation example: `00 00 42` is `"0x42"`. */
  lemma SerializeTwoLeadingZeros()
    ensures EncodeHex([0x00, 0x00, 0x42]) == "0x42"
  {
    var t: seq<Byte> := [0x42];
    EncodeFortyTwo();
    assert [0x00, 0x00, 0x42] == Zeros(2) + t;
    MinimalAfterZeros(2, t, "0x0", "42");
  }

  /** `"0x420000"` is read as the three bytes `42 00 00`. */
  lemma DeserializeExample()
    ensures VisitStr("0x420000") == Returned(Ok(Quantity([0x42, 0x00, 0x00])))
  {
    var b: seq<Byte> := [0x42, 0x00, 0x00];
    assert WellFormed(b);
    RoundTrip(b);
    SerializeTrailingZeros();
    assert Serialize(Quantity(b)) == "0x420000";
  }

  /** `"0x00420000"` is refused for its leading zeros. */
  lemma DeserializeLeadingZeroes()
    ensures VisitStr("0x00420000") == Returned(Err(UnexpectedLeadingZeroes("0x00420000")))
  {
    var v := "0x00420000";
    assert HasPrefix(v) && v[2] == '0';
  }

  /**
   * `From<[u8; N]>` skips the assertions: the array `00 01` becomes a
   * quantity that is written as `"0x1"` and read back as the single byte 1.
   */
  lemma FromArrayUnchecked()
    ensures From([0x00, 0x01]) == Panicked
    ensures Serialize(FromArray([0x00, 0x01])) == "0x1"
    ensures VisitStr("0x1") == Returned(Ok(Quantity([0x01])))
  {
    SerializeZeroOne();
    var one: seq<Byte> := [0x01];
    assert one[0] != 0;
    RoundTrip(one);
    assert Encode(one) == ByteDigits(0x01) + Encode([]) == "01";
    MinimalExact(one, "0x0");
  }

  lemma SerializeZeroOne()
    ensures EncodeHex([0x00, 0x01]) == "0x1"
  {
    var t: seq<Byte> := [0x01];
    assert Encode(t) == ByteDigits(0x01) + Encode([]) == "01";
    assert [0x00, 0x01] == Zeros(1) + t;
    MinimalAfterZeros(1, t, "0x0", "01");
    assert "01"[1..] == "1";
  }
}
