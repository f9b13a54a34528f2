/**
 * `TransactionType` of `format/src/types/transaction_type.rs`: a closed set of
 * three variants, each read from and written as a fixed token. The serde
 * visitor calls `FromStr` and passes its error on; serialising writes `AsStr`.
 */
module TransactionTypeCodec {
  import opened Wrappers
  import opened Errors

  datatype TransactionType = Legacy | AccessListType | DynamicFee

  /** The three accepted tokens. */
  predicate IsToken(s: string) {
    s == "0x0" || s == "0x1" || s == "0x2"
  }

  /** `from_str`: one of the three tokens, spelled exactly; anything else is `UnknownTransactionType` carrying the input. */
  function FromStr(s: string): (r: Outcome<TransactionType>)
    ensures r.Ok? <==> IsToken(s)
    ensures r.Err? ==> r.error == UnknownTransactionType(s)
    ensures r.Ok? ==>
      && (r.value == Legacy <==> s == "0x0")
      && (r.value == AccessListType <==> s == "0x1")
      && (r.value == DynamicFee <==> s == "0x2")
  {
    if s == "0x0" then Ok(Legacy)
    else if s == "0x1" then Ok(AccessListType)
    else if s == "0x2" then Ok(DynamicFee)
    else Err(UnknownTransactionType(s))
  }

  /** `as_str`: `Legacy` is `"0x0"`, `AccessListType` `"0x1"` and `DynamicFee` `"0x2"`. */
  function AsStr(t: TransactionType): (s: string)
    ensures IsToken(s)
    ensures (s == "0x0" <==> t == Legacy) && (s == "0x1" <==> t == AccessListType) && (s == "0x2" <==> t == DynamicFee)
  {
    match t
    case Legacy => "0x0"
    case AccessListType => "0x1"
    case DynamicFee => "0x2"
  }

  /** Distinct variants have distinct tokens. */
  lemma AsStrInjective(a: TransactionType, b: TransactionType)
    ensures AsStr(a) == AsStr(b) <==> a == b
  {
  }

  /** Reading a written token gives the variant back. */
  lemma FromStrAsStr(t: TransactionType)
    ensures FromStr(AsStr(t)) == Ok(t)
  {
  }

  /** Writing a variant that was read gives the token back, so the table is a bijection. */
  lemma AsStrFromStr(s: string)
    ensures FromStr(s).Ok? ==> AsStr(FromStr(s).value) == s
  {
  }

  /** The tokens are compared as text, not as numbers: `"0x00"` and `"0x3"` are unknown. */
  lemma RejectsOtherSpellings()
    ensures FromStr("0x00") == Err(UnknownTransactionType("0x00"))
    ensures FromStr("0x3") == Err(UnknownTransactionType("0x3"))
    ensures FromStr("0X1") == Err(UnknownTransactionType("0X1"))
  {
  }
}
