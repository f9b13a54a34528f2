/**
 * The serde codecs of `format/src/serde.rs`, an older revision: `Index`
 * parsed as bare base-16 but written in decimal, and the `Status` and
 * `TransactionType` token tables. The fixed-width codecs of that file go
 * through the foreign `prefix_hex` crate and are not part of this model.
 */
module FormatSerde {
  import opened Wrappers
  import opened ByteSeq
  import opened Base16
  import opened HexText
  import opened RustNum
  import opened Errors
  import opened Types
  import TypesSerde

  /**
   * The `Index` visitor: `u64::from_str_radix(value, 16)` on the whole
   * input, with no `0x` handling, so a prefixed input fails on its `'x'`.
   */
  function IndexVisitStr(value: string): (r: Outcome<Index>)
    ensures value == [] ==> r == Err(ParseInt(Empty))
    ensures value == "+" ==> r == Err(ParseInt(InvalidDigit))
    ensures DigitsOf(value) != [] ==>
      var t := DigitsOf(value);
      && (r.Ok? <==> AllHex(t) && DigitsValue(t) < U64_LIMIT)
      && (r.Ok? ==> r.value.value == DigitsValue(t))
      && (AllHex(t) && DigitsValue(t) >= U64_LIMIT ==> r == Err(ParseInt(PosOverflow)))
    ensures HasPrefix(value) ==> r == Err(ParseInt(InvalidDigit))
  {
    ParseUnsigned(value);
    PrefixIsNotADigit(value);
    match FromStrRadix16(value)
    case Err(kind) => Err(ParseInt(kind))
    case Ok(n) => Ok(Index(n))
  }

  /** The `'0'` of a `0x` prefix is a digit, but the `'x'` is not. */
  lemma PrefixIsNotADigit(value: string)
    ensures HasPrefix(value) ==> FromStrRadix16(value) == Err(InvalidDigit)
  {
    if HasPrefix(value) {
      assert IsHexDigit(value[0]) && DigitValue(value[0]) == 0;
      assert Accumulate(value, 0) == Accumulate(value[1..], 0);
      assert value[1..][0] == 'x' && !IsHexDigit('x');
    }
  }

  /** `Index` serialisation: `u64::to_string`, the decimal spelling, without a leading zero. */
  function IndexSerialize(i: Index): (r: string)
    ensures r != [] && forall k :: 0 <= k < |r| ==> '0' <= r[k] <= '9'
    ensures r[0] == '0' ==> i.value == 0
    ensures DecimalValue(r) == i.value
  {
    DecimalStringValue(i.value);
    DecimalString(i.value)
  }

  /** Reading back what `IndexSerialize` writes gives the same index exactly for the single-digit ones. */
  lemma IndexRoundTripBelowTen(i: Index)
    ensures IndexVisitStr(IndexSerialize(i)) == Ok(i) <==> i.value < 10
  {
    var s := DecimalString(i.value);
    DecimalReadAsHex(i.value);
    ParseUnsigned(s);
  }

  /** The first index that does not survive: 10 is written `"10"`, which reads back as 16. */
  lemma IndexTenReadsAsSixteen()
    ensures IndexSerialize(Index(10)) == "10"
    ensures IndexVisitStr("10") == Ok(Index(16))
  {
    assert DecimalString(10) == DecimalString(1) + [DecimalDigit(0)];
    assert "10"[..1] == "1";
    assert DigitsValue("10") == 16;
  }

  /** `Index` serialisation as the visitor reads it: the minimal base-16 digits, without `0x`. */
  function IndexSerializeHex(i: Index): (r: string)
    ensures r != [] && AllHex(r) && DigitsValue(r) == i.value
    ensures |r| > 1 ==> r[0] != '0'
  {
    var b := ToBeBytes(i.value, 8);
    U64BytesZero(i.value);
    if i.value == 0 then
      assert DigitsValue("0") == 0;
      "0"
    else
      MinimalValue(b, "0x0");
      Minimal(b, "0x0")[2..]
  }

  /** With base-16 serialisation every `u64` reads back as itself. */
  lemma IndexHexRoundTrip(i: Index)
    ensures IndexVisitStr(IndexSerializeHex(i)) == Ok(i)
  {
    ParseUnsigned(IndexSerializeHex(i));
  }

  /** The `Status` visitor; the table and message are those of `format/src/types/serde.rs`. */
  function StatusVisitStr(value: string): (r: Outcome<Status>)
    ensures r.Ok? <==> value == "0x1" || value == "0x0"
    ensures r.Ok? ==> (r.value == Success <==> value == "0x1")
    ensures r.Err? ==> r.error == Custom("unknown status")
    ensures r == TypesSerde.StatusVisitStr(value)
  {
    if value == "0x1" then Ok(Success)
    else if value == "0x0" then Ok(Failure)
    else Err(Custom("unknown status"))
  }

  /** `Status` serialisation, writing the tokens the visitor reads. */
  function StatusSerialize(s: Status): (r: string)
    ensures StatusVisitStr(r) == Ok(s)
    ensures r == TypesSerde.StatusSerialize(s)
  {
    match s
    case Success => "0x1"
    case Failure => "0x0"
  }

  /** The `TransactionType` visitor; the table and message are those of `format/src/types/serde.rs`. */
  function TransactionTypeVisitStr(value: string): (r: Outcome<TransactionType>)
    ensures r.Ok? <==> value == "0x0" || value == "0x1" || value == "0x2"
    ensures r.Err? ==> r.error == Custom("unknown transaction type")
    ensures r.Ok? ==>
      && (r.value == Legacy <==> value == "0x0")
      && (r.value == AccessListType <==> value == "0x1")
      && (r.value == DynamicFee <==> value == "0x2")
    ensures r == TypesSerde.TransactionTypeVisitStr(value)
  {
    if value == "0x0" then Ok(Legacy)
    else if value == "0x1" then Ok(AccessListType)
    else if value == "0x2" then Ok(DynamicFee)
    else Err(Custom("unknown transaction type"))
  }

  /** `TransactionType` serialisation, writing the tokens the visitor reads. */
  function TransactionTypeSerialize(t: TransactionType): (r: string)
    ensures TransactionTypeVisitStr(r) == Ok(t)
    ensures r == TypesSerde.TransactionTypeSerialize(t)
  {
    match t
    case Legacy => "0x0"
    case AccessListType => "0x1"
    case DynamicFee => "0x2"
  }

  /** Each table is a bijection: a token that is read is written back unchanged. */
  lemma TablesInvertible(value: string)
    ensures StatusVisitStr(value).Ok? ==> StatusSerialize(StatusVisitStr(value).value) == value
    ensures TransactionTypeVisitStr(value).Ok? ==>
      TransactionTypeSerialize(TransactionTypeVisitStr(value).value) == value
  {
  }
}
