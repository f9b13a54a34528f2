/**
 * The value types of `format/src/types/types.rs` that carry codecs: the
 * fixed-width byte arrays with their length-checked constructors, the
 * variable-length `Bytes` and `Quantity`, the `u64` `Index`, and the two
 * enumerations.
 */
module Types {
  import opened Wrappers
  import opened ByteSeq
  import opened Errors
  import QuantityCodec

  const ADDRESS_LEN: nat := 20
  const BYTES32_LEN: nat := 32
  const BLOOM_FILTER_LEN: nat := 256

  type Address = b: seq<Byte> | |b| == ADDRESS_LEN witness Zeros(ADDRESS_LEN)
  type Bytes32 = b: seq<Byte> | |b| == BYTES32_LEN witness Zeros(BYTES32_LEN)
  type BloomFilter = b: seq<Byte> | |b| == BLOOM_FILTER_LEN witness Zeros(BLOOM_FILTER_LEN)

  /** `Bytes` and `Quantity` wrap a buffer of any length; their `From` impls are these constructors and copy the buffer as is. */
  datatype Bytes = Bytes(data: seq<Byte>)
  datatype Quantity = Quantity(data: seq<Byte>)

  /** `Index` wraps a `u64`. */
  datatype Index = Index(value: U64)

  datatype TransactionType = Legacy | AccessListType | DynamicFee

  datatype Status = Success | Failure

  /** `Log.topics` is an `ArrayVec` of capacity four. */
  type LogTopics = t: seq<Bytes32> | |t| <= 4

  /**
   * The body of `impl_try_from_for_fixed_size_bytes`: a buffer whose length
   * is not `n` fails with `InvalidArrayLength(n, length)`; otherwise it is
   * kept byte for byte.
   */
  function TryFromFixed(n: nat, buf: seq<Byte>): (r: Outcome<seq<Byte>>)
    ensures r.Ok? <==> |buf| == n
    ensures r.Ok? ==> r.value == buf
    ensures r.Err? ==> r.error == InvalidArrayLength(n, |buf|)
  {
    if |buf| != n then Err(InvalidArrayLength(n, |buf|)) else Ok(buf)
  }

  /** `Address::try_from`: the macro instance with width 20. */
  function AddressTryFrom(buf: seq<Byte>): (r: Outcome<Address>)
    ensures r.Ok? <==> |buf| == ADDRESS_LEN
    ensures r.Ok? ==> r.value == buf
    ensures r.Err? ==> r.error == InvalidArrayLength(ADDRESS_LEN, |buf|)
  {
    match TryFromFixed(ADDRESS_LEN, buf)
    case Ok(b) => Ok(b)
    case Err(e) => Err(e)
  }

  /** `Bytes32::try_from`: the macro instance with width 32. */
  function Bytes32TryFrom(buf: seq<Byte>): (r: Outcome<Bytes32>)
    ensures r.Ok? <==> |buf| == BYTES32_LEN
    ensures r.Ok? ==> r.value == buf
    ensures r.Err? ==> r.error == InvalidArrayLength(BYTES32_LEN, |buf|)
  {
    match TryFromFixed(BYTES32_LEN, buf)
    case Ok(b) => Ok(b)
    case Err(e) => Err(e)
  }

  /** `BloomFilter::try_from`: the macro instance with width 256. */
  function BloomFilterTryFrom(buf: seq<Byte>): (r: Outcome<BloomFilter>)
    ensures r.Ok? <==> |buf| == BLOOM_FILTER_LEN
    ensures r.Ok? ==> r.value == buf
    ensures r.Err? ==> r.error == InvalidArrayLength(BLOOM_FILTER_LEN, |buf|)
  {
    match TryFromFixed(BLOOM_FILTER_LEN, buf)
    case Ok(b) => Ok(b)
    case Err(e) => Err(e)
  }

  /** `BloomFilter::default`: 256 zero bytes. */
  function BloomFilterDefault(): (r: BloomFilter)
    ensures AllZero(r)
  {
    Zeros(BLOOM_FILTER_LEN)
  }

  /** A fixed-width value converts back to itself, zero bytes included; for example the default filter. */
  lemma FixedRoundTrip(a: Address, h: Bytes32, f: BloomFilter)
    ensures AddressTryFrom(a) == Ok(a)
    ensures Bytes32TryFrom(h) == Ok(h)
    ensures BloomFilterTryFrom(f) == Ok(f)
    ensures BloomFilterTryFrom(BloomFilterDefault()) == Ok(BloomFilterDefault())
  {
  }

  /** A buffer converts at most to one of the three widths, and a wrong width names both lengths. */
  lemma WidthMismatch(buf: seq<Byte>)
    ensures |buf| == BYTES32_LEN ==>
      && AddressTryFrom(buf) == Err(InvalidArrayLength(20, 32))
      && BloomFilterTryFrom(buf) == Err(InvalidArrayLength(256, 32))
    ensures !(AddressTryFrom(buf).Ok? && Bytes32TryFrom(buf).Ok?)
  {
  }

  /** Derived `Default` for `Quantity` and `Bytes`: the empty buffer. */
  function QuantityDefault(): (q: Quantity)
    ensures |q.data| == 0
  {
    Quantity([])
  }

  function BytesDefault(): (b: Bytes)
    ensures |b.data| == 0
  {
    Bytes([])
  }

  /**
   * This revision's `Quantity` takes any buffer, including ones the asserting
   * constructor of `format/src/types/quantity.rs` refuses, and defaults to
   * the empty buffer where that one defaults to `[0]`.
   */
  lemma QuantityUnchecked()
    ensures Quantity([0, 0]).data == [0, 0] && QuantityCodec.From([0, 0]).Panicked?
    ensures QuantityDefault().data == [] && QuantityCodec.Default().bytes == [0]
  {
    var z: seq<Byte> := [0, 0];
    assert AllZero(z);
  }

  /** Building `Log.topics`: at most four entries fit. */
  function TopicsFrom(ts: seq<Bytes32>): (r: Option<LogTopics>)
    ensures r.Some? <==> |ts| <= 4
    ensures r.Some? ==> r.value == ts
  {
    if |ts| <= 4 then Some(ts) else None
  }
}
