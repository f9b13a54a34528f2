/**
 * Base16 ("hex") as in section 8 of RFC 4648, with the conventions of the
 * `hex` crate that the codecs call: `encode` writes lower-case digits,
 * `decode` accepts either case, checks the digit count before the digits,
 * and reports the first offending character with its position.
 */
module Base16 {
  import opened Wrappers
  import opened ByteSeq

  /** `hex::FromHexError`. */
  datatype FromHexError =
    | InvalidHexCharacter(c: char, index: nat)
    | OddLength
    | InvalidStringLength

  predicate IsHexDigit(c: char) {
    '0' <= c <= '9' || 'a' <= c <= 'f' || 'A' <= c <= 'F'
  }

  predicate IsLowerHexDigit(c: char) {
    '0' <= c <= '9' || 'a' <= c <= 'f'
  }

  predicate AllHex(s: string) {
    forall i :: 0 <= i < |s| ==> IsHexDigit(s[i])
  }

  predicate AllLowerHex(s: string) {
    forall i :: 0 <= i < |s| ==> IsLowerHexDigit(s[i])
  }

  /** The value of one digit; only `'0'` is worth zero. */
  function DigitValue(c: char): (v: nat)
    requires IsHexDigit(c)
    ensures v < 16
    ensures v == 0 <==> c == '0'
  {
    if '0' <= c <= '9' then c as int - '0' as int
    else if 'a' <= c <= 'f' then c as int - 'a' as int + 10
    else c as int - 'A' as int + 10
  }

  /** The lower-case digit worth `v`. */
  function LowerDigit(v: nat): (c: char)
    requires v < 16
    ensures IsLowerHexDigit(c) && DigitValue(c) == v
  {
    if v < 10 then ('0' as int + v) as char else ('a' as int + v - 10) as char
  }

  lemma LowerDigitOfValue(c: char)
    requires IsLowerHexDigit(c)
    ensures LowerDigit(DigitValue(c)) == c
  {
  }

  /** The two digits of one byte, high nibble first. */
  function ByteDigits(x: Byte): (s: string)
    ensures |s| == 2 && IsLowerHexDigit(s[0]) && IsLowerHexDigit(s[1])
    ensures DigitValue(s[0]) * 16 + DigitValue(s[1]) == x
  {
    [LowerDigit(x / 16), LowerDigit(x % 16)]
  }

  /** `hex::encode`. */
  function Encode(b: seq<Byte>): (s: string)
    ensures |s| == 2 * |b| && AllLowerHex(s)
  {
    if b == [] then [] else ByteDigits(b[0]) + Encode(b[1..])
  }

  /** Decodes an even-length digit string pair by pair; `offset` is the position of `s` in the whole input. */
  function DecodePairs(s: string, offset: nat): (r: Result<seq<Byte>, FromHexError>)
    requires |s| % 2 == 0
    ensures r.Ok? ==> 2 * |r.value| == |s|
    ensures r.Err? ==> r.error.InvalidHexCharacter? && offset <= r.error.index < offset + |s|
    ensures r.Err? ==> !IsHexDigit(s[r.error.index - offset]) && r.error.c == s[r.error.index - offset]
    decreases |s|
  {
    if s == [] then Ok([])
    else if !IsHexDigit(s[0]) then Err(InvalidHexCharacter(s[0], offset))
    else if !IsHexDigit(s[1]) then Err(InvalidHexCharacter(s[1], offset + 1))
    else
      var rest := DecodePairs(s[2..], offset + 2);
      if rest.Err? then rest
      else
        var x: Byte := DigitValue(s[0]) * 16 + DigitValue(s[1]);
        Ok([x] + rest.value)
  }

  /**
   * Pair-wise decoding reports the first character that is not a digit,
   * and otherwise byte `i` is the value of digits `2i` and `2i+1`, in
   * either case.
   */
  lemma {:induction false} DecodePairsValues(s: string, offset: nat)
    requires |s| % 2 == 0
    ensures DecodePairs(s, offset).Err? ==> AllHex(s[..DecodePairs(s, offset).error.index - offset])
    ensures DecodePairs(s, offset).Ok? ==> forall i :: 0 <= i < |s| / 2 ==>
      IsHexDigit(s[2 * i]) && IsHexDigit(s[2 * i + 1]) &&
      DecodePairs(s, offset).value[i] == DigitValue(s[2 * i]) * 16 + DigitValue(s[2 * i + 1])
    decreases |s|
  {
    if s != [] && IsHexDigit(s[0]) {
      if !IsHexDigit(s[1]) {
        assert s[..1] == [s[0]];
      } else {
        var t := s[2..];
        DecodePairsValues(t, offset + 2);
        var rest := DecodePairs(t, offset + 2);
        if rest.Err? {
          PairThenDigits(s, rest.error.index - offset);
        } else {
          PairThenValues(s, DecodePairs(s, offset).value, rest.value);
        }
      }
    }
  }

  /** Two digits followed by digits up to position `k - 2` of the rest are digits up to position `k`. */
  lemma PairThenDigits(s: string, k: nat)
    requires 2 <= k <= |s| && IsHexDigit(s[0]) && IsHexDigit(s[1]) && AllHex(s[2..][..k - 2])
    ensures AllHex(s[..k])
  {
    assert forall j :: 2 <= j < k ==> s[..k][j] == s[2..][..k - 2][j - 2];
  }

  /** The byte-by-digit-pair correspondence extends from the rest to the whole. */
  lemma PairThenValues(s: string, v: seq<Byte>, w: seq<Byte>)
    requires |s| >= 2 && |s| % 2 == 0 && IsHexDigit(s[0]) && IsHexDigit(s[1])
    requires v == [DigitValue(s[0]) * 16 + DigitValue(s[1])] + w && 2 * |w| == |s| - 2
    requires forall i :: 0 <= i < |s[2..]| / 2 ==>
      IsHexDigit(s[2..][2 * i]) && IsHexDigit(s[2..][2 * i + 1]) &&
      w[i] == DigitValue(s[2..][2 * i]) * 16 + DigitValue(s[2..][2 * i + 1])
    ensures forall i :: 0 <= i < |s| / 2 ==>
      IsHexDigit(s[2 * i]) && IsHexDigit(s[2 * i + 1]) &&
      v[i] == DigitValue(s[2 * i]) * 16 + DigitValue(s[2 * i + 1])
  {
    forall i | 1 <= i < |s| / 2
      ensures IsHexDigit(s[2 * i]) && IsHexDigit(s[2 * i + 1])
      ensures v[i] == DigitValue(s[2 * i]) * 16 + DigitValue(s[2 * i + 1])
    {
      assert s[2 * i] == s[2..][2 * (i - 1)] && s[2 * i + 1] == s[2..][2 * (i - 1) + 1];
      assert v[i] == w[i - 1];
    }
  }

  /** `hex::decode` (`Vec<u8>::from_hex`). */
  function Decode(s: string): (r: Result<seq<Byte>, FromHexError>)
    ensures r == Err(OddLength) <==> |s| % 2 != 0
    ensures r.Ok? ==> 2 * |r.value| == |s|
    ensures r.Err? && |s| % 2 == 0 ==> r.error.InvalidHexCharacter? && r.error.index < |s|
  {
    if |s| % 2 != 0 then Err(OddLength) else DecodePairs(s, 0)
  }

  /** `<[u8; n]>::from_hex`: the digit count must be exactly `2 * n`. */
  function DecodeArray(s: string, n: nat): (r: Result<seq<Byte>, FromHexError>)
    ensures r.Ok? ==> |r.value| == n && |s| == 2 * n
    ensures r == Err(OddLength) <==> |s| % 2 != 0
    ensures r == Err(InvalidStringLength) <==> |s| % 2 == 0 && |s| != 2 * n
    ensures |s| == 2 * n ==> r == Decode(s)
  {
    if |s| % 2 != 0 then Err(OddLength)
    else if |s| / 2 != n then Err(InvalidStringLength)
    else DecodePairs(s, 0)
  }

  lemma {:induction false} EncodeAppend(a: seq<Byte>, b: seq<Byte>)
    ensures Encode(a + b) == Encode(a) + Encode(b)
  {
    if a != [] {
      assert (a + b)[1..] == a[1..] + b;
      EncodeAppend(a[1..], b);
    } else {
      assert a + b == b;
    }
  }

  /** `i`-th byte of the input occupies digits `2i` and `2i+1` of the encoding. */
  lemma {:induction false} EncodeAt(b: seq<Byte>, i: nat)
    requires i < |b|
    ensures Encode(b)[2 * i] == LowerDigit(b[i] / 16)
    ensures Encode(b)[2 * i + 1] == LowerDigit(b[i] % 16)
  {
    if i > 0 {
      EncodeAt(b[1..], i - 1);
    }
  }

  /** Every digit of the encoding is `'0'` exactly when every byte is zero. */
  lemma EncodeZero(b: seq<Byte>)
    ensures AllZero(b) <==> forall k :: 0 <= k < |Encode(b)| ==> Encode(b)[k] == '0'
  {
    var s := Encode(b);
    if AllZero(b) {
      forall k | 0 <= k < |s| ensures s[k] == '0' {
        EncodeAt(b, k / 2);
        assert k == 2 * (k / 2) || k == 2 * (k / 2) + 1;
      }
    } else {
      var i :| 0 <= i < |b| && b[i] != 0;
      EncodeAt(b, i);
      assert s[2 * i] != '0' || s[2 * i + 1] != '0';
    }
  }

  lemma {:induction false} DecodePairsEncode(b: seq<Byte>, offset: nat)
    ensures DecodePairs(Encode(b), offset) == Ok(b)
  {
    if b != [] {
      var s := Encode(b);
      var d := ByteDigits(b[0]);
      assert s[0] == d[0] && s[1] == d[1] && s[2..] == Encode(b[1..]);
      DecodePairsEncode(b[1..], offset + 2);
      assert b == [b[0]] + b[1..];
    }
  }

  /** Decoding undoes encoding. */
  lemma DecodeEncode(b: seq<Byte>)
    ensures Decode(Encode(b)) == Ok(b)
    ensures DecodeArray(Encode(b), |b|) == Ok(b)
  {
    var s := Encode(b);
    assert |s| % 2 == 0 && |s| / 2 == |b|;
    DecodePairsEncode(b, 0);
    assert Decode(s) == DecodePairs(s, 0);
    assert DecodeArray(s, |b|) == DecodePairs(s, 0);
  }

  /** Pair-wise decoding succeeds exactly on digit strings, and then re-encodes to the lower-case spelling. */
  lemma {:induction false} DecodePairsOk(s: string, offset: nat)
    requires |s| % 2 == 0
    ensures DecodePairs(s, offset).Ok? <==> AllHex(s)
    ensures AllLowerHex(s) ==> DecodePairs(s, offset).Ok? && Encode(DecodePairs(s, offset).value) == s
  {
    if s != [] {
      DecodePairsOk(s[2..], offset + 2);
      HexAfterPair(s);
      if AllLowerHex(s) {
        PairDigits(s);
      }
    }
  }

  /** A string of at least two characters is all digits exactly when its first two are and the rest is. */
  lemma HexAfterPair(s: string)
    requires |s| >= 2
    ensures AllHex(s) <==> IsHexDigit(s[0]) && IsHexDigit(s[1]) && AllHex(s[2..])
    ensures AllLowerHex(s) <==> IsLowerHexDigit(s[0]) && IsLowerHexDigit(s[1]) && AllLowerHex(s[2..])
  {
    var t := s[2..];
    assert forall k :: 0 <= k < |t| ==> t[k] == s[k + 2];
    assert forall k :: 2 <= k < |s| ==> s[k] == t[k - 2];
  }

  /** Two lower-case digits are the encoding of the byte they spell. */
  lemma PairDigits(s: string)
    requires |s| >= 2 && IsLowerHexDigit(s[0]) && IsLowerHexDigit(s[1])
    ensures var x := DigitValue(s[0]) * 16 + DigitValue(s[1]);
      0 <= x < 256 && s == ByteDigits(x) + s[2..]
  {
    var x := DigitValue(s[0]) * 16 + DigitValue(s[1]);
    assert x / 16 == DigitValue(s[0]) && x % 16 == DigitValue(s[1]);
    LowerDigitOfValue(s[0]);
    LowerDigitOfValue(s[1]);
  }

  /**
   * The digit pairs of `s`, in either case, spell the bytes of `v` in order;
   * `SpellsBytesIndexed` reads it byte by byte.
   */
  predicate SpellsBytes(s: string, v: seq<Byte>)
    decreases |v|
  {
    if v == [] then s == []
    else
      && |s| >= 2 && IsHexDigit(s[0]) && IsHexDigit(s[1])
      && v[0] == DigitValue(s[0]) * 16 + DigitValue(s[1])
      && SpellsBytes(s[2..], v[1..])
  }

  /** `SpellsBytes` holds exactly when byte `i` is the value of digits `2i` and `2i+1`, for every `i`. */
  lemma {:induction false} SpellsBytesIndexed(s: string, v: seq<Byte>)
    ensures SpellsBytes(s, v) <==>
      && |s| == 2 * |v|
      && forall i :: 0 <= i < |v| ==>
        IsHexDigit(s[2 * i]) && IsHexDigit(s[2 * i + 1]) &&
        v[i] == DigitValue(s[2 * i]) * 16 + DigitValue(s[2 * i + 1])
    decreases |v|
  {
    if v != [] && |s| >= 2 {
      var t, w := s[2..], v[1..];
      SpellsBytesIndexed(t, w);
      if SpellsBytes(s, v) {
        forall i | 0 <= i < |v|
          ensures IsHexDigit(s[2 * i]) && IsHexDigit(s[2 * i + 1])
          ensures v[i] == DigitValue(s[2 * i]) * 16 + DigitValue(s[2 * i + 1])
        {
          if i > 0 {
            assert s[2 * i] == t[2 * (i - 1)] && s[2 * i + 1] == t[2 * (i - 1) + 1] && v[i] == w[i - 1];
          }
        }
      }
      if |s| == 2 * |v| && forall i :: 0 <= i < |v| ==>
        IsHexDigit(s[2 * i]) && IsHexDigit(s[2 * i + 1]) &&
        v[i] == DigitValue(s[2 * i]) * 16 + DigitValue(s[2 * i + 1])
      {
        forall i | 0 <= i < |w|
          ensures IsHexDigit(t[2 * i]) && IsHexDigit(t[2 * i + 1])
          ensures w[i] == DigitValue(t[2 * i]) * 16 + DigitValue(t[2 * i + 1])
        {
          assert t[2 * i] == s[2 * (i + 1)] && t[2 * i + 1] == s[2 * (i + 1) + 1] && w[i] == v[i + 1];
        }
      }
    }
  }

  /** Pair-wise decoding spells its input. */
  lemma {:induction false} DecodePairsSpells(s: string, offset: nat)
    requires |s| % 2 == 0
    ensures DecodePairs(s, offset).Ok? ==> SpellsBytes(s, DecodePairs(s, offset).value)
    decreases |s|
  {
    if s != [] && IsHexDigit(s[0]) && IsHexDigit(s[1]) {
      DecodePairsSpells(s[2..], offset + 2);
      var r := DecodePairs(s, offset);
      if r.Ok? {
        assert r.value[1..] == DecodePairs(s[2..], offset + 2).value;
      }
    }
  }

  /**
   * `Decode` succeeds exactly on an even number of digits of either case;
   * the bytes it returns encode back to the lower-case spelling of the input.
   */
  lemma DecodeOk(s: string)
    ensures Decode(s).Ok? <==> |s| % 2 == 0 && AllHex(s)
    ensures Decode(s).Ok? ==> 2 * |Decode(s).value| == |s|
    ensures |s| % 2 != 0 ==> Decode(s) == Err(OddLength)
    ensures |s| % 2 == 0 && AllLowerHex(s) ==> Encode(Decode(s).value) == s
    ensures Decode(s).Ok? ==> SpellsBytes(s, Decode(s).value)
    ensures |s| % 2 == 0 && Decode(s).Err? ==>
      var e := Decode(s).error;
      e.InvalidHexCharacter? && e.index < |s| && !IsHexDigit(s[e.index]) && e.c == s[e.index] && AllHex(s[..e.index])
  {
    if |s| % 2 == 0 {
      DecodePairsOk(s, 0);
      DecodePairsValues(s, 0);
      DecodePairsSpells(s, 0);
    }
  }

  /** An even number of lower-case digits decodes, and re-encodes to itself. */
  lemma DecodeLowerReencodes(s: string)
    requires |s| % 2 == 0 && AllLowerHex(s)
    ensures Decode(s).Ok? && Encode(Decode(s).value) == s
  {
    DecodePairsOk(s, 0);
  }

  /** Upper- and mixed-case digits decode to the same byte as lower-case ones. */
  lemma DecodeEitherCase()
    ensures Decode("AB") == Ok([0xAB]) && Decode("aB") == Ok([0xAB]) && Decode("ab") == Ok([0xAB])
  {
    DecodeOnePair("AB");
    DecodeOnePair("aB");
    DecodeOnePair("ab");
  }

  /** Two digits decode to the one byte they spell. */
  lemma DecodeOnePair(s: string)
    requires |s| == 2 && AllHex(s)
    ensures Decode(s) == Ok([DigitValue(s[0]) * 16 + DigitValue(s[1])])
  {
    DecodeOk(s);
    assert Decode(s).Ok?;
    var v := Decode(s).value;
    assert |v| == 1 && v[0] == DigitValue(s[0]) * 16 + DigitValue(s[1]);
    assert v == [v[0]];
  }

  /** `DecodeArray(s, n)` is `Decode(s)` with the additional demand of exactly `2 * n` digits. */
  lemma DecodeArrayOk(s: string, n: nat)
    ensures DecodeArray(s, n).Ok? <==> |s| == 2 * n && AllHex(s)
    ensures DecodeArray(s, n).Ok? ==> DecodeArray(s, n) == Decode(s)
    ensures |s| % 2 == 0 && |s| != 2 * n ==> DecodeArray(s, n) == Err(InvalidStringLength)
  {
    if |s| % 2 == 0 {
      DecodePairsOk(s, 0);
    }
  }

  /** The value of a digit string read most significant digit first. */
  function DigitsValue(s: string): nat
    requires AllHex(s)
  {
    if s == [] then 0 else DigitsValue(s[..|s| - 1]) * 16 + DigitValue(s[|s| - 1])
  }

  /** Leading `'0'` digits do not change the value. */
  lemma {:induction false} DigitsValueZeroPrefix(z: string, s: string)
    requires forall k :: 0 <= k < |z| ==> z[k] == '0'
    requires AllHex(s)
    ensures AllHex(z + s) && DigitsValue(z + s) == DigitsValue(s)
  {
    if s == [] {
      assert z + s == z;
      if z != [] {
        DigitsValueZeroPrefix(z[..|z| - 1], []);
        assert z[..|z| - 1] + [] == z[..|z| - 1];
      }
    } else {
      var t := s[..|s| - 1];
      DigitsValueZeroPrefix(z, t);
      assert (z + s)[..|z + s| - 1] == z + t;
    }
  }

  /** Appending digits never makes the value smaller. */
  lemma {:induction false} DigitsValueGrows(p: string, d: string)
    requires AllHex(p + d)
    ensures AllHex(p) && DigitsValue(p) <= DigitsValue(p + d)
  {
    assert forall k :: 0 <= k < |p| ==> p[k] == (p + d)[k];
    if d != [] {
      var q := (p + d)[..|p + d| - 1];
      assert q == p + d[..|d| - 1];
      DigitsValueGrows(p, d[..|d| - 1]);
    } else {
      assert p + d == p;
    }
  }

  /** The encoding of a byte string spells the same number. */
  lemma {:induction false} EncodeValue(b: seq<Byte>)
    ensures AllHex(Encode(b)) && DigitsValue(Encode(b)) == BytesValue(b)
  {
    if b != [] {
      var init := b[..|b| - 1];
      var x := b[|b| - 1];
      assert b == init + [x];
      EncodeAppend(init, [x]);
      assert Encode([x]) == ByteDigits(x);
      EncodeValue(init);
      var s := Encode(b);
      assert s[..|s| - 1][..|s| - 2] == Encode(init);
      assert s[..|s| - 1][|s| - 2] == s[|s| - 2];
    }
  }

  /** The first decoded byte is made of the first two digits. */
  lemma DecodeHead(s: string)
    ensures |s| >= 2 && Decode(s).Ok? ==>
      && |Decode(s).value| >= 1 && IsHexDigit(s[0]) && IsHexDigit(s[1])
      && Decode(s).value[0] == DigitValue(s[0]) * 16 + DigitValue(s[1])
  {
    DecodeOk(s);
  }
}
