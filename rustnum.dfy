/**
 * The two pieces of Rust's standard library the codecs use on integers:
 * `u64::from_str_radix(s, 16)` and `u64::to_string` (decimal).
 */
module RustNum {
  import opened Wrappers
  import opened ByteSeq
  import opened Base16

  /** `core::num::IntErrorKind`, restricted to what an unsigned parse reports. */
  datatype IntErrorKind = Empty | InvalidDigit | PosOverflow

  /**
   * The digit loop of `from_str_radix`: each character must be a base-16
   * digit (either case), and the running value must stay below 2^64;
   * whichever check fails first decides the error.
   */
  function Accumulate(d: string, acc: U64): (r: Result<U64, IntErrorKind>)
    ensures r.Err? ==> r.error != Empty
    decreases |d|
  {
    if d == [] then Ok(acc)
    else if !IsHexDigit(d[0]) then Err(InvalidDigit)
    else if acc * 16 + DigitValue(d[0]) >= U64_LIMIT then Err(PosOverflow)
    else Accumulate(d[1..], acc * 16 + DigitValue(d[0]))
  }

  /**
   * `u64::from_str_radix(s, 16)`: an empty string is `Empty`; one leading
   * `'+'` is accepted and skipped, but a lone sign is `InvalidDigit`.
   */
  function FromStrRadix16(s: string): (r: Result<U64, IntErrorKind>)
    ensures r == Err(Empty) <==> s == []
    ensures s == "+" || s == "-" ==> r == Err(InvalidDigit)
  {
    if s == [] then Err(Empty)
    else if (s[0] == '+' || s[0] == '-') && |s| == 1 then Err(InvalidDigit)
    else if s[0] == '+' then Accumulate(s[1..], 0)
    else Accumulate(s, 0)
  }

  /** Continuing from the value of the digits already read, the loop yields the value of all of them, or overflows. */
  lemma {:induction false} AccumulateValue(p: string, d: string)
    requires AllHex(p + d)
    requires AllHex(p) && DigitsValue(p) < U64_LIMIT
    ensures Accumulate(d, DigitsValue(p)) ==
      if DigitsValue(p + d) < U64_LIMIT then Ok(DigitsValue(p + d)) else Err(PosOverflow)
    decreases |d|
  {
    if d == [] {
      assert p + d == p;
    } else {
      var p' := p + [d[0]];
      assert p + d == p' + d[1..];
      assert (p + d)[|p|] == d[0];
      assert p'[..|p'| - 1] == p;
      assert AllHex(p') by {
        forall k | 0 <= k < |p'| ensures IsHexDigit(p'[k]) {
          assert p'[k] == (p + d)[k];
        }
      }
      if DigitsValue(p') >= U64_LIMIT {
        DigitsValueGrows(p', d[1..]);
      } else {
        AccumulateValue(p', d[1..]);
      }
    }
  }

  /** A digit string that does not start with a sign parses to its value, or overflows. */
  lemma ParseDigits(d: string)
    requires d != [] && AllHex(d)
    ensures FromStrRadix16(d) ==
      if DigitsValue(d) < U64_LIMIT then Ok(DigitsValue(d)) else Err(PosOverflow)
  {
    assert [] + d == d;
    AccumulateValue([], d);
  }

  /** A character other than a digit or a single leading `'+'` makes the parse fail. */
  lemma {:induction false} AccumulateRejects(d: string, acc: U64)
    requires !AllHex(d)
    ensures Accumulate(d, acc).Err?
  {
    if IsHexDigit(d[0]) && acc * 16 + DigitValue(d[0]) < U64_LIMIT {
      var k :| 0 <= k < |d| && !IsHexDigit(d[k]);
      assert d[1..][k - 1] == d[k];
      AccumulateRejects(d[1..], acc * 16 + DigitValue(d[0]));
    }
  }

  /** The digits `from_str_radix` reads: the input without one leading `'+'`. */
  function DigitsOf(d: string): (t: string)
    ensures d != [] && d[0] == '+' ==> d == "+" + t
    ensures d == [] || d[0] != '+' ==> t == d
  {
    if d != [] && d[0] == '+' then d[1..] else d
  }

  /**
   * An empty string is `Empty` and a lone `'+'` is `InvalidDigit`. Otherwise
   * the input parses exactly when the digits after one optional `'+'` are
   * all digits worth less than 2^64, and then to that value; a larger value
   * is `PosOverflow`.
   */
  lemma ParseUnsigned(d: string)
    ensures d == [] ==> FromStrRadix16(d) == Err(Empty)
    ensures d == "+" ==> FromStrRadix16(d) == Err(InvalidDigit)
    ensures var t := DigitsOf(d); t != [] ==>
      && (FromStrRadix16(d).Ok? <==> AllHex(t) && DigitsValue(t) < U64_LIMIT)
      && (FromStrRadix16(d).Ok? ==> FromStrRadix16(d).value == DigitsValue(t))
      && (AllHex(t) && DigitsValue(t) >= U64_LIMIT ==> FromStrRadix16(d) == Err(PosOverflow))
  {
    var t := DigitsOf(d);
    if t != [] {
      assert FromStrRadix16(d) == Accumulate(t, 0);
      if AllHex(t) {
        assert [] + t == t;
        AccumulateValue([], t);
      } else {
        AccumulateRejects(t, 0);
      }
    }
  }

  function DecimalDigit(v: nat): (c: char)
    requires v < 10
    ensures '0' <= c <= '9' && IsHexDigit(c) && DigitValue(c) == v
  {
    ('0' as int + v) as char
  }

  /** `n.to_string()`: decimal, most significant digit first, no leading zero. */
  function DecimalString(n: nat): (s: string)
    ensures s != [] && AllHex(s) && (s[0] == '0' ==> n == 0)
    ensures forall k :: 0 <= k < |s| ==> '0' <= s[k] <= '9'
  {
    if n < 10 then [DecimalDigit(n)] else DecimalString(n / 10) + [DecimalDigit(n % 10)]
  }

  /** The number a string of decimal digits spells, most significant digit first. */
  function DecimalValue(s: string): nat
    requires forall k :: 0 <= k < |s| ==> '0' <= s[k] <= '9'
  {
    if s == [] then 0 else DecimalValue(s[..|s| - 1]) * 10 + (s[|s| - 1] as int - '0' as int)
  }

  /** Read as decimal, `to_string` gives the number back. */
  lemma {:induction false} DecimalStringValue(n: nat)
    ensures DecimalValue(DecimalString(n)) == n
  {
    if n >= 10 {
      var s := DecimalString(n);
      assert s[..|s| - 1] == DecimalString(n / 10);
      DecimalStringValue(n / 10);
    }
  }

  /**
   * Read back as base 16, the decimal spelling of `n` is worth at least `n`,
   * and exactly `n` only for a single digit.
   */
  lemma {:induction false} DecimalReadAsHex(n: nat)
    ensures DigitsValue(DecimalString(n)) >= n
    ensures DigitsValue(DecimalString(n)) == n <==> n < 10
  {
    if n >= 10 {
      var s := DecimalString(n);
      assert s[..|s| - 1] == DecimalString(n / 10);
      DecimalReadAsHex(n / 10);
    }
  }
}
