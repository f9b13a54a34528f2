/**
 * The `u64` index of `format/src/types/uint.rs`: read as `0x` and a base-16
 * number, written with the minimal quantity encoding of its eight
 * big-endian bytes.
 */
module UIntCodec {
  import opened Wrappers
  import opened ByteSeq
  import opened Base16
  import opened HexText
  import opened RustNum
  import opened Errors
  import HexCodec

  datatype UInt = UInt(value: U64)

  /**
   * The visitor: `0x` is required, and the rest goes to
   * `u64::from_str_radix(_, 16)`, which accepts any digit count, either
   * case and one leading `'+'`.
   */
  function VisitStr(value: string): (r: Outcome<UInt>)
    ensures !HasPrefix(value) ==> r == Err(Custom("invalid hex prefix"))
    ensures value == "0x" ==> r == Err(ParseInt(Empty))
    ensures value == "0x+" ==> r == Err(ParseInt(InvalidDigit))
    ensures HasPrefix(value) && DigitsOf(value[2..]) != [] ==>
      var t := DigitsOf(value[2..]);
      && (r.Ok? <==> AllHex(t) && DigitsValue(t) < U64_LIMIT)
      && (r.Ok? ==> r.value.value == DigitsValue(t))
      && (AllHex(t) && DigitsValue(t) >= U64_LIMIT ==> r == Err(ParseInt(PosOverflow)))
  {
    match StripPrefix(value)
    case None => Err(Custom("invalid hex prefix"))
    case Some(rest) =>
      ParseUnsigned(rest);
      match FromStrRadix16(rest)
      case Err(kind) => Err(ParseInt(kind))
      case Ok(n) => Ok(UInt(n))
  }

  /** `serialize`: `encode_hex_quantity` of `to_be_bytes`; `"0x0"` for zero and no leading `'0'` digit otherwise. */
  function Serialize(u: UInt): (r: string)
    ensures r == "0x0" <==> u.value == 0
    ensures u.value != 0 ==> HasPrefix(r) && |r| > 2 && r[2] != '0'
  {
    U64BytesZero(u.value);
    HexCodec.EncodeHexQuantity(ToBeBytes(u.value, 8))
  }

  /** A prefixed digit string that spells a `u64` is read as that number. */
  lemma VisitDigits(rest: string, n: U64)
    requires rest != [] && rest[0] != '+' && AllHex(rest) && DigitsValue(rest) == n
    ensures VisitStr("0x" + rest) == Ok(UInt(n))
  {
    StripPrefixOf(rest);
    ParseUnsigned(rest);
  }

  /** Reading back what `Serialize` writes gives the same number, for every `u64`. */
  lemma RoundTrip(u: UInt)
    ensures VisitStr(Serialize(u)) == Ok(u)
  {
    if u.value == 0 {
      ReadZero();
    } else {
      var b := ToBeBytes(u.value, 8);
      U64BytesZero(u.value);
      assert Serialize(u) == Minimal(b, "0x0");
      ReadMinimal(b, u.value);
    }
  }

  lemma ReadZero()
    ensures VisitStr("0x0") == Ok(UInt(0))
  {
    assert DigitsValue("0") == 0;
    VisitDigits("0", 0);
    assert "0x" + "0" == "0x0";
  }

  /** The minimal encoding of a buffer that is not all zero reads back as the number the buffer spells. */
  lemma ReadMinimal(b: seq<Byte>, n: U64)
    requires !AllZero(b) && BytesValue(b) == n
    ensures VisitStr(Minimal(b, "0x0")) == Ok(UInt(n))
  {
    var r := Minimal(b, "0x0");
    MinimalValue(b, "0x0");
    assert r == "0x" + r[2..];
    VisitDigits(r[2..], n);
  }

  /** Leading zeros, a `'+'` sign and upper-case digits are all accepted: `"0x0019"`, `"0x+19"` and `"0x1A"`. */
  lemma LenientInput()
    ensures VisitStr("0x0019") == Ok(UInt(25))
    ensures VisitStr("0x+19") == Ok(UInt(25))
    ensures VisitStr("0x1A") == Ok(UInt(26))
  {
    LeadingZerosAccepted();
    PlusSignAccepted();
    UpperCaseAccepted();
  }

  lemma LeadingZerosAccepted()
    ensures VisitStr("0x0019") == Ok(UInt(25))
  {
    assert "0019"[..3] == "001" && "001"[..2] == "00" && "00"[..1] == "0" && "0"[..0] == [];
    assert DigitsValue("0019") == 25;
    VisitDigits("0019", 25);
    assert "0x" + "0019" == "0x0019";
  }

  lemma PlusSignAccepted()
    ensures VisitStr("0x+19") == Ok(UInt(25))
  {
    assert "19"[..1] == "1" && "1"[..0] == [];
    assert DigitsValue("19") == 25;
    assert "+19"[1..] == "19";
    ParseUnsigned("19");
    StripPrefixOf("+19");
    assert "0x" + "+19" == "0x+19";
  }

  lemma UpperCaseAccepted()
    ensures VisitStr("0x1A") == Ok(UInt(26))
  {
    assert "1A"[..1] == "1";
    assert DigitsValue("1A") == 26;
    VisitDigits("1A", 26);
    assert "0x" + "1A" == "0x1A";
  }

  /** A missing prefix, an empty number and a non-digit are refused. */
  lemma RejectedInput()
    ensures VisitStr("25") == Err(Custom("invalid hex prefix"))
    ensures VisitStr("0x") == Err(ParseInt(Empty))
    ensures VisitStr("0x1g") == Err(ParseInt(InvalidDigit))
  {
    assert !HasPrefix("25");
    StripPrefixOf("1g");
    assert "0x" + "1g" == "0x1g";
    assert !IsHexDigit('g');
  }
}
