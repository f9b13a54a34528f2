# Hex value codecs of the `format` crate

This project models the hex value-codec layer of the `format` crate. That
layer holds the functions that turn byte buffers and unsigned integers into
`0x`-prefixed hexadecimal text for blockchain JSON-RPC values, and back.
The crate holds several revisions of this layer side by side. Each source
file is modelled as written, in its own module.

- `Wrappers`, `ByteSeq`, `Base16`, `RustNum`, `Errors` and `HexText` are the
  shared foundations:
  - `Base16` is the `hex` crate's base16, as defined in section 8 of
    RFC 4648. Encoding is lower case and decoding accepts either case. Odd
    lengths, bad characters and wrong lengths for fixed-size arrays are errors.
  - `RustNum` covers `u64::from_str_radix(_, 16)` and `u64::to_string`.
  - `HexText` covers the `0x` prefix, odd-length padding, and the minimal
    encoding. The minimal encoding writes the full encoding without its
    leading `'0'` digits, or a default when nothing is left.
  - `Errors` is the crate error.
- `HexCodec` models `format/src/types/hex.rs`.
- `QuantityCodec` models `format/src/types/quantity.rs`. Its quantity keeps
  an asserted canonical byte form.
- `UIntCodec` models `format/src/types/uint.rs`.
- `FixedSizeData` models `format/src/types/fixed_size_data.rs`.
- `TransactionTypeCodec` models `format/src/types/transaction_type.rs`.
- `Types` models the value types of `format/src/types/types.rs`.
- `TypesSerde` models `format/src/types/serde.rs`.
- `FormatSerde` models the older `format/src/serde.rs`.

The same `Types.Status`, `Types.TransactionType` and `Types.Index` serve
both serde modules.

Everything in the core is pure, so the model is datatypes, functions and
lemmas.

Conventions of the model:
- Text is `seq<char>`. A byte is a value in 0..255, and a `u64` a value
  below 2^64.
- A panic from `assert!` is the `Panicked` case of `Checked<T>`.
- A serde visitor error is the crate error the visitor wraps:
  - a fixed message becomes `Custom(message)`;
  - a `ParseIntError` becomes `ParseInt(kind)`;
  - a crate error passed through `to_string` is that error itself.
- `InvalidHexPrefix` carries `Some(input)` where the revision stores the
  input (hex.rs, quantity.rs). It carries `None` where it is a unit variant
  (types/serde.rs).

The revisions differ:
- `format/src/types/hex.rs` pads every remainder whose length is not
  exactly 2, so most even-length inputs fail.
- `format/src/types/quantity.rs` and `format/src/types/serde.rs` pad only
  odd lengths.
- `format/src/types/quantity.rs` rejects leading `'0'` digits.
  `format/src/types/uint.rs` accepts them, along with a leading `'+'`.
- `format/src/serde.rs` writes `Index` in decimal but reads it as bare
  base 16.
- `format/src/types/serde.rs` writes `Bytes` with the minimal policy, which
  drops leading zero bytes. A design requirement for this crate says
  variable-length bytes keep every byte. The model follows the code and
  records the difference under Findings.
- In `format/src/types/types.rs` the fixed-width constructors fail with
  `InvalidArrayLength(N, len)`. `UnexpectedLength` is the error of
  `fixed_size_data.rs` only. The model follows the code.

## Model

| member | source | states |
|---|---|---|
| Base16.DecodeOk | format/src/types/hex.rs:15 | `hex::decode` succeeds exactly on an even number of hex digits in either case, with half as many bytes that the digit pairs spell (`SpellsBytes`; byte `i` is the value of digits `2i` and `2i+1`, in either case). Odd length is `OddLength`. Otherwise a failure names the first non-digit and its position. A lower-case input re-encodes to itself. |
| Base16.SpellsBytesIndexed | format/src/types/hex.rs:15 | the pair-by-pair spelling holds exactly when the lengths match and byte `i` is the value of digits `2i` and `2i+1`, for every `i` |
| Base16.DecodePairsSpells | format/src/types/hex.rs:15 | a successful pair-wise decoding returns the bytes its input spells |
| Base16.DecodePairsValues | format/src/types/hex.rs:15 | pair-wise decoding reports the first non-digit, and otherwise byte `i` is the value of digits `2i` and `2i+1` |
| Base16.DecodeLowerReencodes | format/src/types/hex.rs:15 | an even number of lower-case hex digits decodes, and encoding the bytes gives back the same text |
| Base16.DecodeEitherCase | format/src/types/hex.rs:15 | `"AB"`, `"aB"` and `"ab"` all decode to the byte `0xAB` |
| Base16.Encode | format/src/types/hex.rs:19 | `hex::encode` writes two lower-case digits per byte; `DecodeEncode` and `EncodeValue` give its inverse and its value |
| Base16.Decode | format/src/types/hex.rs:15 | `OddLength` exactly for an odd digit count; otherwise half as many bytes, or an `InvalidHexCharacter` inside the input |
| Base16.DecodeArray | format/src/types/serde.rs:245 | `OddLength` exactly for an odd count, `InvalidStringLength` exactly for another even count than `2n`, and on `2n` digits the same result as `hex::decode` |
| Base16.DecodePairs | format/src/types/hex.rs:15 | decoding digit pairs yields half as many bytes, and a failure is `InvalidHexCharacter` naming a non-hex character of the input and its position (the first one, by `DecodePairsValues`) |
| Base16.DecodeEncode | format/src/types/hex.rs:36 | decoding `hex::encode(b)` gives `b` back, also when decoding into an array of exactly `|b|` bytes |
| Base16.DecodeArrayOk | format/src/types/serde.rs:245 | `from_hex` into `[u8; n]` succeeds exactly on `2n` hex digits. Any other even count is `InvalidStringLength`. |
| Base16.EncodeValue | format/src/types/hex.rs:19 | the digits of `hex::encode(b)` spell the big-endian number of `b` |
| Base16.DecodeHead | format/src/types/hex.rs:15 | the first decoded byte is the value of the first two digits |
| Base16.DigitsValueZeroPrefix | format/src/types/hex.rs:21-22 | leading `'0'` digits do not change the value of a digit string |
| RustNum.ParseDigits | format/src/types/uint.rs:37-39 | `from_str_radix(d, 16)` on a digit string gives its value if below 2^64 and `PosOverflow` otherwise |
| RustNum.AccumulateRejects | format/src/types/uint.rs:37-39 | a string with a non-digit fails the digit loop |
| RustNum.FromStrRadix16 | format/src/types/uint.rs:37-39 | `Empty` exactly for the empty string; a lone sign is `InvalidDigit` |
| RustNum.ParseUnsigned | format/src/types/uint.rs:37-39 | Empty input is `Empty` and a lone `'+'` is `InvalidDigit`. Otherwise the input parses iff the digits after one optional `'+'` are all hex digits with value below 2^64, and then to that value; 2^64 or more is `PosOverflow`. |
| RustNum.DecimalString | format/src/serde.rs:41 | `to_string` is non-empty decimal digits without a leading zero (except for 0) |
| RustNum.DecimalStringValue | format/src/serde.rs:41 | read as decimal, `to_string(n)` is `n` |
| RustNum.DecimalReadAsHex | format/src/serde.rs:21 | read as base 16, the decimal spelling of `n` is at least `n`, and equal exactly when `n < 10` |
| ByteSeq.TrimLeadingZeroes | format/src/types/serde.rs:330-333 | the buffer from its first non-zero byte on: empty iff all bytes are zero, and the buffer is zeros followed by it |
| ByteSeq.ToBeBytes | format/src/types/uint.rs:57 | `to_be_bytes` gives `k` bytes, which spell the number whenever it fits |
| ByteSeq.U64BytesZero | format/src/types/uint.rs:57 | the 8 big-endian bytes of a `u64` spell it and are all zero iff it is 0 |
| ByteSeq.ToBeBytesSmall | format/src/types/serde.rs:46 | a number below 256 is seven zero bytes and itself |
| ByteSeq.TrimZerosPrefix | format/src/types/serde.rs:330-333 | trimming skips any run of leading zero bytes, whatever follows it |
| ByteSeq.ZeroValue | format/src/types/hex.rs:23 | a buffer is all zero iff it spells 0 |
| HexText.StripPrefix | format/src/types/hex.rs:5-7 | `strip_prefix("0x")` succeeds iff the input starts with `0x`, and then returns the rest |
| HexText.FindNonZero | format/src/types/hex.rs:21 | `find(c != '0')` returns the first non-`'0'` position, or none iff all digits are `'0'` |
| HexText.PadOdd | format/src/types/quantity.rs:95-97 | an odd digit count gets one `'0'` in front, and an even one is unchanged |
| HexText.Minimal | format/src/types/hex.rs:18-25 | The all-zero buffer gives the default. Otherwise: `0x`, lower-case digits with no leading `'0'`, and putting the dropped `'0'`s back gives `hex::encode(buf)`. |
| HexText.MinimalValue | format/src/types/hex.rs:19-22 | the digits the minimal policy keeps spell the buffer's number |
| HexText.MinimalLength | format/src/types/hex.rs:21-22 | The digit count is odd iff the first significant byte is below 16. It is `2t-1` or `2t` for `t` significant bytes. |
| HexText.MinimalPadded | format/src/types/serde.rs:282-284 | padding the kept digits to even length gives the full encoding of the significant bytes |
| HexText.MinimalExact | format/src/types/hex.rs:22 | the minimal encoding is `0x` and the full encoding of the significant bytes, less one `'0'` when the first is below 16 |
| HexText.MinimalTrimmed | format/src/types/hex.rs:22 | a buffer whose first byte is at least 16 is written in full |
| HexText.PadOddInjective | format/src/types/quantity.rs:95-97 | two digit strings that start with a non-`'0'` digit and pad alike are equal |
| HexText.MinimalZeroPrefix | format/src/types/serde.rs:292-299 | leading zero bytes do not change the minimal encoding |
| HexText.MinimalAfterZeros | format/src/types/hex.rs:18-25 | zero bytes followed by bytes `t` with a non-zero first byte are written as `0x` and `hex::encode(t)`, less its first digit when that byte is below 16 |
| HexCodec.DecodeHex | format/src/types/hex.rs:4-16 | No prefix gives `InvalidHexPrefix(input)`. Two digits give one byte iff hex. An odd count gives `(L+1)/2` bytes, the first below 16, iff hex. Any other even count, the empty one included, is `DecodeHex(OddLength)`. On success the bytes are those the padded digits spell, in either case (`SpellsBytes`). |
| HexCodec.EncodeHexQuantity | format/src/types/hex.rs:27-29 | `"0x0"` iff the buffer is all zero; otherwise no leading `'0'` after `0x` |
| HexCodec.EncodeHexData | format/src/types/hex.rs:31-33 | `"0x"` iff the buffer is all zero; otherwise no leading `'0'` after `0x` |
| HexCodec.EncodeHexFixedSizeData | format/src/types/hex.rs:35-37 | `0x` and exactly `2·|buf|` lower-case digits, which decode back to `buf` |
| HexCodec.QuantityReadBack | format/src/types/hex.rs:11-15 | `decode_hex` reads back the quantity encoding iff the significant digits are odd in number or exactly two, and then as the significant bytes |
| HexCodec.DecodeHexRejectsOwnEncoding | format/src/types/hex.rs:11-13 | `[0x12, 0x34]` encodes to `"0x1234"`, which `decode_hex` rejects with `OddLength` |
| HexCodec.OddPaddedRoundTrip | format/src/types/hex.rs:11-13 | With odd-only padding, both minimal encodings read back. The quantity encoding gives the canonical bytes, and the data encoding the significant bytes. |
| QuantityCodec.From | format/src/types/quantity.rs:13-29 | the constructor returns iff the buffer is its own canonical form (non-empty; one byte or a non-zero first byte), keeping it; otherwise it panics |
| QuantityCodec.DecodeHex | format/src/types/quantity.rs:80-100 | `"0x0"` is `[0]`. No prefix gives `InvalidHexPrefix(input)`. A leading `'0'` digit gives `UnexpectedLeadingZeroes(input)`. Otherwise it succeeds iff hex, with a non-zero first byte and `(L+1)/2` bytes, which the odd-padded digits spell in either case (`SpellsBytes`). `"0x"` alone gives no bytes. |
| QuantityCodec.FromArray | format/src/types/quantity.rs:37-41 | keeps the array's bytes unchecked, and agrees with the asserting constructor wherever that one returns |
| QuantityCodec.FromArrayReadBack | format/src/types/quantity.rs:37-41 | any array, leading zeros and all zeros included, is written as its number and read back as the canonical form |
| QuantityCodec.Default | format/src/types/quantity.rs:31-35 | the default is the canonical form of zero, which the constructor accepts |
| QuantityCodec.VisitStr | format/src/types/quantity.rs:52-59 | panics exactly on `"0x"`, passes every `decode_hex` error on, and otherwise returns the decoded bytes, which are well formed |
| QuantityCodec.Serialize | format/src/types/quantity.rs:72-78 | `"0x0"` exactly for zero; otherwise `0x` and digits without a leading `'0'` that spell the quantity's number |
| QuantityCodec.EncodeHex | format/src/types/quantity.rs:102-109 | `"0x0"` iff the buffer is all zero; otherwise no leading `'0'` after `0x` |
| QuantityCodec.VisitPanicsOnlyOnBarePrefix | format/src/types/quantity.rs:52-59 | every decoded buffer passes the constructor's assertions except the empty one, so the visitor panics on `"0x"` and nothing else |
| QuantityCodec.RoundTrip | format/src/types/quantity.rs:80-109 | `decode_hex(encode_hex(q)) == q` and deserialise∘serialise is the identity, for every well-formed quantity |
| QuantityCodec.EncodeOfDecoded | format/src/types/quantity.rs:80-109 | a decoded lower-case input re-encodes to itself, so there is one spelling per number |
| QuantityCodec.DefaultToken | format/src/types/quantity.rs:117-120 | the default `[0]` passes the constructor and is written and read as `"0x0"` |
| QuantityCodec.SerializeLeadingZero | format/src/types/quantity.rs:124 | `00 42 00` is written `"0x4200"` |
| QuantityCodec.SerializeTrailingZeros | format/src/types/quantity.rs:125 | `42 00 00` is written `"0x420000"` |
| QuantityCodec.SerializeTwoLeadingZeros | format/src/types/quantity.rs:126 | `00 00 42` is written `"0x42"` |
| QuantityCodec.DeserializeExample | format/src/types/quantity.rs:129-132 | `"0x420000"` is read as `42 00 00` |
| QuantityCodec.DeserializeLeadingZeroes | format/src/types/quantity.rs:134-141 | `"0x00420000"` is refused with `UnexpectedLeadingZeroes` |
| QuantityCodec.FromArrayUnchecked | format/src/types/quantity.rs:37-41 | The array constructor skips the assertions. `00 01` panics through the vector constructor but not through the array one. It is written `"0x1"` and read back as `01`. |
| UIntCodec.VisitStr | format/src/types/uint.rs:29-40 | No `0x` gives "invalid hex prefix", `"0x"` alone gives `Empty` and `"0x+"` gives `InvalidDigit`. Otherwise the remainder is accepted iff its digits after one optional `'+'` are all hex digits below 2^64, as their value; 2^64 or more is `PosOverflow`. |
| UIntCodec.Serialize | format/src/types/uint.rs:52-58 | `"0x0"` iff the value is 0; otherwise no leading `'0'` after `0x` |
| UIntCodec.VisitDigits | format/src/types/uint.rs:37-39 | `0x` and a digit string spelling a `u64` read as that number |
| UIntCodec.ReadMinimal | format/src/types/uint.rs:33-57 | the minimal encoding of a buffer that is not all zero reads back as the number the buffer spells |
| UIntCodec.RoundTrip | format/src/types/uint.rs:33-57 | every `u64` reads back as itself |
| UIntCodec.LenientInput | format/src/types/uint.rs:37 | `"0x0019"` and `"0x+19"` read as 25, and `"0x1A"` as 26 |
| UIntCodec.RejectedInput | format/src/types/uint.rs:33-39 | `"25"` lacks the prefix, `"0x"` is `Empty`, and `"0x1g"` is `InvalidDigit` |
| FixedSizeData.TryFromSlice | format/src/types/fixed_size_data.rs:16-24 | fails with `ArrayFromSlice` iff the length is not `n`; otherwise stores the slice byte for byte |
| FixedSizeData.TryFromVec | format/src/types/fixed_size_data.rs:26-37 | fails with `UnexpectedLength(n, len)` iff the length is not `n`; otherwise stores the vector byte for byte |
| FixedSizeData.Default | format/src/types/fixed_size_data.rs:5 | the derived default is `n` zero bytes |
| FixedSizeData.SameAcceptance | format/src/types/fixed_size_data.rs:16-37 | both conversions accept the same buffers and build the same value |
| FixedSizeData.Injective | format/src/types/fixed_size_data.rs:35 | two accepted buffers build the same value iff they are equal |
| FixedSizeData.RoundTrip | format/src/types/fixed_size_data.rs:19-35 | converting a value's bytes gives the value back, zeros included |
| TransactionTypeCodec.FromStr | format/src/types/transaction_type.rs:18-26 | succeeds iff the input is exactly `"0x0"`, `"0x1"` or `"0x2"`, giving `Legacy`, `AccessListType` and `DynamicFee` respectively; otherwise `UnknownTransactionType(input)` |
| TransactionTypeCodec.AsStr | format/src/types/transaction_type.rs:29-35 | `Legacy` is `"0x0"`, `AccessListType` `"0x1"` and `DynamicFee` `"0x2"` |
| TransactionTypeCodec.AsStrInjective | format/src/types/transaction_type.rs:29-35 | distinct variants have distinct tokens |
| TransactionTypeCodec.FromStrAsStr | format/src/types/transaction_type.rs:18-35 | `from_str(as_str(t)) == Ok(t)` |
| TransactionTypeCodec.AsStrFromStr | format/src/types/transaction_type.rs:18-35 | an accepted token is written back unchanged |
| TransactionTypeCodec.RejectsOtherSpellings | format/src/types/transaction_type.rs:23 | `"0x00"`, `"0x3"` and `"0X1"` are unknown, carrying the input |
| Types.TryFromFixed | format/src/types/types.rs:279-292 | fails with `InvalidArrayLength(n, len)` iff the length is not `n`; otherwise keeps the buffer |
| Types.AddressTryFrom | format/src/types/types.rs:294 | the width-20 instance |
| Types.BloomFilterTryFrom | format/src/types/types.rs:295 | the width-256 instance |
| Types.Bytes32TryFrom | format/src/types/types.rs:296 | the width-32 instance |
| Types.FixedRoundTrip | format/src/types/types.rs:288 | a fixed-width value, the default bloom filter included, converts back to itself |
| Types.WidthMismatch | format/src/types/types.rs:285-287 | a 32-byte buffer is refused as an address and as a bloom filter with both lengths named, and no buffer is both an address and a hash |
| Types.BloomFilterDefault | format/src/types/types.rs:273-277 | 256 zero bytes |
| Types.QuantityDefault | format/src/types/types.rs:157-168 | the derived default is empty |
| Types.BytesDefault | format/src/types/types.rs:233-244 | the derived default is empty |
| Types.QuantityUnchecked | format/src/types/types.rs:310-320 | This revision's `Quantity::from` keeps `00 00`, which the asserting constructor refuses. Its default is empty where the other's is `[0]`. |
| Types.TopicsFrom | format/src/types/types.rs:87 | a topic list fits iff it has at most four entries, kept as given |
| TypesSerde.DecodeHexVec | format/src/types/serde.rs:276-290 | No prefix gives `InvalidHexPrefix`. Otherwise it succeeds iff the remainder is hex, with `(L+1)/2` bytes (the first below 16 for odd `L`) that the odd-padded digits spell in either case (`SpellsBytes`); a failure is `DecodeHex`. |
| TypesSerde.DecodeEitherCaseExample | format/src/types/serde.rs:276-290 | `"0xAB"` and `"0xaB"` decode to the byte `0xAB` |
| TypesSerde.DecodeHexArray | format/src/types/serde.rs:241-248 | Succeeds iff prefixed, hex and `2n` or `2n-1` digits long. Then it gives `n` bytes, agreeing with the vector decoder. |
| TypesSerde.EncodeHex | format/src/types/serde.rs:301-303 | `"0x"` iff the buffer is all zero; otherwise no leading `'0'` after `0x` |
| TypesSerde.EncodeHexInt | format/src/types/serde.rs:305-307 | `"0x0"` iff the buffer is all zero; otherwise no leading `'0'` after `0x` |
| TypesSerde.MinimalReadBack | format/src/types/serde.rs:276-307 | `encode_hex_int` reads back as the canonical bytes, and `encode_hex` as the bytes without leading zeros |
| TypesSerde.IndexVisitStr | format/src/types/serde.rs:18-29 | no prefix gives "invalid hex prefix"; otherwise the same outcome as the `UInt` visitor |
| TypesSerde.IndexSerialize | format/src/types/serde.rs:41-47 | `"0x0"` iff 0, and the same text as `UInt` serialisation |
| TypesSerde.IndexRoundTrip | format/src/types/serde.rs:338-344 | every `u64`, `u64::MAX` included, reads back as itself |
| TypesSerde.IndexExamples | format/src/types/serde.rs:346-354 | 0, 1 and 25 are written `"0x0"`, `"0x1"`, `"0x19"` |
| TypesSerde.OneByteTail | format/src/types/serde.rs:46 | an index below 256 is written as the minimal encoding of its last byte |
| TypesSerde.StatusVisitStr | format/src/types/serde.rs:63-72 | `"0x1"` is `Success`, `"0x0"` is `Failure`, anything else "unknown status" |
| TypesSerde.StatusSerialize | format/src/types/serde.rs:84-95 | always `"0x1"` or `"0x0"` |
| TypesSerde.StatusRoundTrip | format/src/types/serde.rs:356-360 | the status table is a bijection read both ways |
| TypesSerde.TransactionTypeVisitStr | format/src/types/serde.rs:110-120 | accepts exactly `"0x0"`, `"0x1"`, `"0x2"`, as `Legacy`, `AccessListType` and `DynamicFee` respectively; anything else "unknown transaction type" |
| TypesSerde.TransactionTypeSerialize | format/src/types/serde.rs:132-144 | `Legacy` is `"0x0"`, `AccessListType` `"0x1"` and `DynamicFee` `"0x2"` |
| TypesSerde.TransactionTypeRoundTrip | format/src/types/serde.rs:362-367 | the transaction-type table is a bijection read both ways |
| TypesSerde.TransactionTypeRevisionsAgree | format/src/types/serde.rs:114-119 | the table accepts the tokens `from_str` of transaction_type.rs accepts, mapping them to the same variants |
| TypesSerde.BytesVisitStr | format/src/types/serde.rs:159-166 | no prefix gives `InvalidHexPrefix`; otherwise succeeds iff hex, with `(L+1)/2` bytes, exactly those `DecodeHexVec` decodes |
| TypesSerde.BytesSerialize | format/src/types/serde.rs:178-185 | `"0x"` iff the bytes are all zero; otherwise `0x` and digits with no leading `'0'` |
| TypesSerde.QuantityVisitStr | format/src/types/serde.rs:200-207 | no prefix gives `InvalidHexPrefix`; otherwise succeeds iff hex, with `(L+1)/2` bytes, exactly those `DecodeHexVec` decodes |
| TypesSerde.QuantitySerialize | format/src/types/serde.rs:219-226 | `"0x0"` iff the bytes are all zero; otherwise no leading `'0'` after `0x` |
| TypesSerde.FindNonZeroByte | format/src/types/serde.rs:330 | the test helper's `find` gives the first non-zero byte, or none iff all are zero |
| TypesSerde.IgnoreLeadingZeroes | format/src/types/serde.rs:321-336 | what the round-trip helper expects is the canonical form of the buffer |
| TypesSerde.QuantityRoundTrip | format/src/types/serde.rs:459-495 | every quantity reads back as its canonical form, as the helper expects |
| TypesSerde.BytesRoundTrip | format/src/types/serde.rs:416-452 | bytes read back without their leading zero bytes, which matches the helper iff some byte is non-zero |
| TypesSerde.DefaultSerialisations | format/src/types/serde.rs:454-457 | The default `Quantity` is `"0x0"` and the default `Bytes` is `"0x"`. `"0x"` reads back as no bytes, while the helper expects `[0]` (the test at line 418). |
| TypesSerde.BytesLosesLeadingZero | format/src/types/serde.rs:183 | `00 01` is written `"0x1"` and read back as `01` |
| TypesSerde.BytesSerializeFull | format/src/types/serde.rs:183 | `0x` and `2·len` lower-case digits |
| TypesSerde.BytesFullRoundTrip | format/src/types/serde.rs:163-165 | with every byte written, every `Bytes` value reads back as itself |
| TypesSerde.FixedSerialize | format/src/types/serde.rs:260-268 | `0x` and exactly `2N` lower-case digits |
| TypesSerde.FixedRoundTrip | format/src/types/serde.rs:369-414 | every fixed-width value reads back as itself, leading, interior and trailing zeros included |
| TypesSerde.FixedDroppedNibble | format/src/types/serde.rs:282-284 | the `2N-1`-digit spelling without the first `'0'` also reads back as the value |
| TypesSerde.FixedInstances | format/src/types/serde.rs:272-274 | The 32-, 20- and 256-byte instances round-trip. An address is refused where 32 bytes are expected. |
| FormatSerde.IndexVisitStr | format/src/serde.rs:17-25 | Bare base 16: empty is `Empty` and `"+"` is `InvalidDigit`. Otherwise the input is accepted iff its digits after one optional `'+'` are all hex digits below 2^64, as their value; 2^64 or more is `PosOverflow`. A `0x`-prefixed input fails with `InvalidDigit`. |
| FormatSerde.PrefixIsNotADigit | format/src/serde.rs:21 | `from_str_radix` fails on the `'x'` of a `0x` prefix |
| FormatSerde.IndexSerialize | format/src/serde.rs:36-43 | decimal digits without a leading zero, whose decimal value is the index |
| FormatSerde.IndexRoundTripBelowTen | format/src/serde.rs:17-43 | an index reads back as itself iff it is below 10 |
| FormatSerde.IndexTenReadsAsSixteen | format/src/serde.rs:41 | 10 is written `"10"`, which reads back as 16 |
| FormatSerde.IndexSerializeHex | format/src/serde.rs:41 | minimal base-16 digits spelling the index, with no leading `'0'` |
| FormatSerde.IndexHexRoundTrip | format/src/serde.rs:21 | with base-16 serialisation every `u64` reads back as itself |
| FormatSerde.StatusVisitStr | format/src/serde.rs:58-67 | `"0x1"` is `Success`, `"0x0"` is `Failure`, anything else "unknown status"; the same as types/serde.rs |
| FormatSerde.StatusSerialize | format/src/serde.rs:79-90 | writes a token the visitor reads back as the same status; the same as types/serde.rs |
| FormatSerde.TransactionTypeVisitStr | format/src/serde.rs:105-116 | accepts exactly `"0x0"`, `"0x1"`, `"0x2"`, as `Legacy`, `AccessListType` and `DynamicFee` respectively; anything else "unknown transaction type"; the same as types/serde.rs |
| FormatSerde.TransactionTypeSerialize | format/src/serde.rs:127-139 | writes a token the visitor reads back as the same variant; the same as types/serde.rs |
| FormatSerde.TablesInvertible | format/src/serde.rs:58-90 | an accepted status or transaction-type token is written back unchanged |

## Left out

- The serde plumbing is left out: visitor structs, `expecting` texts, and deserializer and serializer dispatch. Each codec is modelled as the string-to-value function its visitor wraps, and serialisation as the string it writes.
- Error message text is left out. The model keeps which error occurs and its data, not its `Display` text.
- The fixed-width codecs of `format/src/serde.rs` (lines 143-190) call the `prefix_hex` crate, whose source is not part of this model.
- The `hex` crate is not verified. `Base16` states its behaviour as a specification following section 8 of RFC 4648.
- Rust measures string lengths in UTF-8 bytes, and `hex` works on those bytes; the model works on characters. They agree on ASCII input. On other input the model can differ in the error variant, the reported character and its position. Example: in `format/src/types/hex.rs:11`, `"0xéé"` leaves four bytes, which are padded to five and give `OddLength`. The model sees two characters, does not pad, and gives `InvalidHexCharacter('é', 0)`. Also, `hex` reports the offending UTF-8 byte as a `char` (`'Ã'` for `'é'`), not the character itself.
- The entity structs and type aliases of `format/src/types.rs`, `format/src/types/mod.rs` and `format/src/types/types.rs:5-88` are plain declarations with derived serde mappings. Only `Log.topics`' capacity is kept.
- `format/src/types/data.rs`, `format/src/lib.rs` and the `Display` texts of `format/src/error.rs` are left out. One `Errors.Error` datatype covers every variant the core uses.
- `format/src/types/fixed_size_data.rs` does not compile as written: imports are missing, a `?` is missing at line 20, and lines 30-32 have a closure arity error and use a value after moving it. In addition, `#[derive(Default)]` (lines 3-14) on `Box<[u8; N]>` needs `[u8; N]: Default`, which the standard library provides only for `N <= 32`. `FixedSizeData` models the evident length checks, and `FixedSizeData.Default` models the evident intent of the derive: `n` zero bytes for every `n`.
- `ArrayVec` deserialisation of `Log.topics` is left out. `Types.TopicsFrom` reports an over-long list as `None`, not a serde error.
- `From` for `Types.Bytes` and `Types.Quantity` (`format/src/types/types.rs:298-320`) are the datatype constructors themselves.
- Allocation, `Box` and `Cow` are left out. The model works on values.

## Findings

| source | as written | input that shows it | evidently intended | confidence | as-written member | corrected member |
|---|---|---|---|---|---|---|
| format/src/types/hex.rs:11 | pads the digits after `0x` whenever there are not exactly two, so an even count of four or more becomes odd and fails | `[0x12, 0x34]` is encoded `"0x1234"` by `encode_hex_quantity`, and `decode_hex("0x1234")` is `DecodeHex(OddLength)` | pad only an odd count, as `format/src/types/quantity.rs:95` does | not executed; high | HexCodec.DecodeHexRejectsOwnEncoding | HexCodec.OddPaddedRoundTrip |
| format/src/serde.rs:41 | `Index` is written with `to_string`, in decimal, but read with `from_str_radix(_, 16)` | index 10 is written `"10"` and read back as 16 | write base-16 digits, as `format/src/types/serde.rs:46` does | not executed; high | FormatSerde.IndexTenReadsAsSixteen | FormatSerde.IndexHexRoundTrip |
| format/src/types/serde.rs:183 | `Bytes` is written with the minimal policy, which drops leading zero bytes of a payload | `00 01` is written `"0x1"` and read back as the single byte `01` | write every byte, so that variable-length payloads survive unchanged | not executed; medium (the `Bytes` tests expect the stripping) | TypesSerde.BytesLosesLeadingZero | TypesSerde.BytesFullRoundTrip |
