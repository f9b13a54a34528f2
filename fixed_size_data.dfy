/**
 * `FixedSizeBytes<N>` of `format/src/types/fixed_size_data.rs`: exactly `N`
 * bytes, built from a slice or a vector after a length check. The width `N`
 * is a type parameter there and an argument `n` here.
 */
module FixedSizeData {
  import opened Wrappers
  import opened ByteSeq
  import opened Errors

  datatype FixedSizeBytes = FixedSizeBytes(bytes: seq<Byte>)

  /** Holds `n` bytes. */
  predicate Valid(f: FixedSizeBytes, n: nat) {
    |f.bytes| == n
  }

  /** `TryFrom<&[u8]>`: a slice of the wrong length fails with `ArrayFromSlice`; otherwise every byte is kept. */
  function TryFromSlice(n: nat, buf: seq<Byte>): (r: Outcome<FixedSizeBytes>)
    ensures r.Ok? <==> |buf| == n
    ensures r.Ok? ==> Valid(r.value, n) && r.value.bytes == buf
    ensures r.Err? ==> r.error == ArrayFromSlice
  {
    if |buf| == n then Ok(FixedSizeBytes(buf)) else Err(ArrayFromSlice)
  }

  /** `TryFrom<Vec<u8>>`: a vector of the wrong length fails with `UnexpectedLength` naming `n` and its length. */
  function TryFromVec(n: nat, buf: seq<Byte>): (r: Outcome<FixedSizeBytes>)
    ensures r.Ok? <==> |buf| == n
    ensures r.Ok? ==> Valid(r.value, n) && r.value.bytes == buf
    ensures r.Err? ==> r.error == UnexpectedLength(n, |buf|)
  {
    if |buf| != n then Err(UnexpectedLength(n, |buf|)) else Ok(FixedSizeBytes(buf))
  }

  /** The derived `Default`: `n` zero bytes. */
  function Default(n: nat): (f: FixedSizeBytes)
    ensures Valid(f, n) && AllZero(f.bytes)
  {
    FixedSizeBytes(Zeros(n))
  }

  /** Both conversions accept the same buffers and build the same value from them. */
  lemma SameAcceptance(n: nat, buf: seq<Byte>)
    ensures TryFromSlice(n, buf).Ok? <==> TryFromVec(n, buf).Ok?
    ensures TryFromSlice(n, buf).Ok? ==> TryFromSlice(n, buf).value == TryFromVec(n, buf).value
  {
  }

  /** A built value gives back the buffer it was built from, so two distinct buffers never build the same value. */
  lemma Injective(n: nat, a: seq<Byte>, b: seq<Byte>)
    requires TryFromVec(n, a).Ok? && TryFromVec(n, b).Ok?
    ensures TryFromVec(n, a) == TryFromVec(n, b) <==> a == b
  {
  }

  /** Converting the stored bytes of a value gives that value back, zeros included. */
  lemma RoundTrip(f: FixedSizeBytes, n: nat)
    requires Valid(f, n)
    ensures TryFromSlice(n, f.bytes) == Ok(f) && TryFromVec(n, f.bytes) == Ok(f)
  {
  }
}
