/** The radix decoder `convertStringToBigInt`: a case-insensitive digit
    string read most significant digit first, accumulated by Horner's rule
    into an unbounded integer. */
module Radix {
  import opened Results

  /** Lower-casing, restricted to ASCII letters. */
  function ToLower(c: char): char
  {
    if 'A' <= c <= 'Z' then (c as int + 32) as char else c
  }

  /** An upper-case letter becomes the lower-case letter at the same
      alphabet position, every other character is kept, and no upper-case
      letter is left. */
  lemma LowerCase(c: char)
    ensures 'A' <= c <= 'Z' ==> 'a' <= ToLower(c) <= 'z' && ToLower(c) as int - 'a' as int == c as int - 'A' as int
    ensures !('A' <= c <= 'Z') ==> ToLower(c) == c
    ensures !('A' <= ToLower(c) <= 'Z')
  {
  }

  /** The value the decoder gives a character after lower-casing it:
      '0'-'9' by their decimal value, every other character by its code
      distance from 'a' plus ten (negative below 'a', 36 and up past 'z'). */
  function DigitValue(c: char): int
  {
    var l := ToLower(c);
    if '0' <= l <= '9' then l as int - '0' as int else 10 + (l as int - 'a' as int)
  }

  /** Decimal digits get [0, 10), letters [10, 36), and the six characters
      between 'Z' and 'a' get [4, 9]; no other character lands in [0, 36). */
  lemma DigitValueRange(c: char)
    ensures '0' <= ToLower(c) <= '9' ==> 0 <= DigitValue(c) < 10
    ensures 'a' <= ToLower(c) <= 'z' ==> 10 <= DigitValue(c) < 36
    ensures '[' <= ToLower(c) <= '`' ==> 4 <= DigitValue(c) <= 9
    ensures 0 <= DigitValue(c) < 36 <==> '0' <= ToLower(c) <= '9' || '[' <= ToLower(c) <= 'z'
  {
    LowerCase(c);
  }

  /** The decoder accepts `c` in base `radix` exactly when its value is in [0, radix). */
  predicate IsDigitOf(c: char, radix: int)
  {
    0 <= DigitValue(c) < radix
  }

  predicate AllDigits(s: string, radix: int)
  {
    forall i | 0 <= i < |s| :: IsDigitOf(s[i], radix)
  }

  function DigitValues(s: string): (ds: seq<int>)
    ensures |ds| == |s|
    ensures forall i | 0 <= i < |s| :: ds[i] == DigitValue(s[i])
  {
    seq(|s|, i requires 0 <= i < |s| => DigitValue(s[i]))
  }

  /** Horner's rule over a digit sequence, most significant digit first. */
  function Horner(ds: seq<int>, radix: int): int
    decreases |ds|
  {
    if |ds| == 0 then 0 else Horner(ds[..|ds| - 1], radix) * radix + ds[|ds| - 1]
  }

  function Pow(b: int, e: nat): int
  {
    if e == 0 then 1 else b * Pow(b, e - 1)
  }

  /** The positional value: sum of d_i * radix^(len - 1 - i). */
  function PositionalValue(ds: seq<int>, radix: int): int
    decreases |ds|
  {
    if |ds| == 0 then 0 else ds[0] * Pow(radix, |ds| - 1) + PositionalValue(ds[1..], radix)
  }

  /** What decoding `s` in base `radix` yields: the Horner value of its digits,
      or InvalidDigit when some character is not a digit of that base. */
  function Decode(s: string, radix: int): Result<int>
  {
    if AllDigits(s, radix) then Success(Horner(DigitValues(s), radix)) else Failure(InvalidDigit)
  }

  /** The decoding loop of the source. */
  method ConvertStringToBigInt(s: string, radix: int) returns (r: Result<int>)
    ensures r.Success? <==> AllDigits(s, radix)
    ensures r.Failure? ==> r.error == InvalidDigit
    ensures r.Success? ==> r.value == Horner(DigitValues(s), radix) && r.value >= 0
    ensures r == Decode(s, radix)
  {
    var result := 0;
    var i := 0;
    while i < |s|
      invariant 0 <= i <= |s|
      invariant AllDigits(s[..i], radix)
      invariant result == Horner(DigitValues(s[..i]), radix)
      invariant result >= 0
    {
      var digitValue := DigitValue(s[i]);
      if digitValue >= radix || digitValue < 0 {
        return Failure(InvalidDigit);
      }
      PrefixStep(s, i, radix);
      DigitStepBound(result, result + 1, digitValue, radix);
      result := result * radix + digitValue;
      i := i + 1;
    }
    assert s[..i] == s;
    return Success(result);
  }

  /** Extending a prefix of digits by the next one advances Horner's rule by one step. */
  lemma PrefixStep(s: string, i: nat, radix: int)
    requires i < |s| && AllDigits(s[..i], radix) && IsDigitOf(s[i], radix)
    ensures AllDigits(s[..i + 1], radix)
    ensures Horner(DigitValues(s[..i + 1]), radix)
         == Horner(DigitValues(s[..i]), radix) * radix + DigitValue(s[i])
  {
    assert s[..i + 1] == s[..i] + [s[i]];
    DecodeAppend(s[..i], s[i], radix);
  }

  // ---------------------------------------------------------------------
  // Properties of the decoder.

  /** The decoder fails, with an invalid digit, exactly when some character
      is not a digit of the base; otherwise its value is a non-negative
      integer equal to the positional sum of the digit values. */
  lemma {:induction false} DecodeOutcome(s: string, radix: int)
    ensures Decode(s, radix).Failure? <==> exists i | 0 <= i < |s| :: !IsDigitOf(s[i], radix)
    ensures Decode(s, radix).Failure? ==> Decode(s, radix).error == InvalidDigit
    ensures Decode(s, radix).Success? ==> Decode(s, radix).value >= 0
    ensures Decode(s, radix).Success? ==> Decode(s, radix).value == PositionalValue(DigitValues(s), radix)
  {
    if AllDigits(s, radix) {
      HornerBounds(DigitValues(s), radix);
      HornerIsPositional(DigitValues(s), radix);
    }
  }

  /** The empty string decodes to 0 in every base. */
  lemma DecodeEmpty(radix: int)
    ensures Decode("", radix) == Success(0)
  {
  }

  /** Appending a digit `c` maps a decoded value v to v * radix + value(c);
      appending a non-digit, or appending to a failing prefix, fails. */
  lemma DecodeAppend(s: string, c: char, radix: int)
    ensures Decode(s + [c], radix) ==
      if Decode(s, radix).Success? && IsDigitOf(c, radix)
      then Success(Decode(s, radix).value * radix + DigitValue(c))
      else Failure(InvalidDigit)
  {
    var t := s + [c];
    assert t[..|t| - 1] == s;
    assert DigitValues(t)[..|t| - 1] == DigitValues(s);
    if AllDigits(s, radix) && IsDigitOf(c, radix) {
      assert AllDigits(t, radix);
    }
    if AllDigits(t, radix) {
      assert forall i | 0 <= i < |s| :: s[i] == t[i];
      assert IsDigitOf(t[|s|], radix);
    }
  }

  /** Upper- and lower-case spellings of a string decode identically. */
  lemma DecodeCaseInsensitive(s: string, t: string, radix: int)
    requires |s| == |t|
    requires forall i | 0 <= i < |s| :: ToLower(s[i]) == ToLower(t[i])
    ensures Decode(s, radix) == Decode(t, radix)
  {
    assert DigitValues(s) == DigitValues(t);
  }

  /** A successful decoding is non-negative and below radix^len. */
  lemma {:induction false} HornerBounds(ds: seq<int>, radix: int)
    requires forall i | 0 <= i < |ds| :: 0 <= ds[i] < radix
    ensures 0 <= Horner(ds, radix) < Pow(radix, |ds|)
    decreases |ds|
  {
    if |ds| > 0 {
      var init := ds[..|ds| - 1];
      var last := ds[|ds| - 1];
      assert 0 <= last < radix;
      HornerBounds(init, radix);
      assert Horner(ds, radix) == Horner(init, radix) * radix + last;
      assert Pow(radix, |ds|) == radix * Pow(radix, |init|);
      DigitStepBound(Horner(init, radix), Pow(radix, |init|), last, radix);
    }
  }

  lemma DigitStepBound(h: int, p: int, d: int, radix: int)
    requires 0 <= h < p && 0 <= d < radix
    ensures 0 <= h * radix + d < radix * p
  {
    assert h * radix <= (p - 1) * radix by {
      assert (p - 1 - h) * radix >= 0;
    }
  }

  /** Horner's rule computes the positional value sum d_i * radix^(len - 1 - i). */
  lemma {:induction false} HornerIsPositional(ds: seq<int>, radix: int)
    ensures Horner(ds, radix) == PositionalValue(ds, radix)
    decreases |ds|
  {
    if |ds| > 0 {
      var init := ds[..|ds| - 1];
      var last := ds[|ds| - 1];
      HornerIsPositional(init, radix);
      PositionalSnoc(init, last, radix);
      assert init + [last] == ds;
    }
  }

  /** Appending a digit multiplies the positional value of the prefix by the radix. */
  lemma {:induction false} PositionalSnoc(ds: seq<int>, d: int, radix: int)
    ensures PositionalValue(ds + [d], radix) == PositionalValue(ds, radix) * radix + d
    decreases |ds|
  {
    if |ds| == 0 {
      assert (ds + [d])[1..] == [];
    } else {
      var t := ds + [d];
      assert t[1..] == ds[1..] + [d];
      PositionalSnoc(ds[1..], d, radix);
      calc {
        PositionalValue(t, radix);
        ds[0] * Pow(radix, |ds|) + PositionalValue(ds[1..] + [d], radix);
        ds[0] * (Pow(radix, |ds| - 1) * radix) + PositionalValue(ds[1..], radix) * radix + d;
        { assert ds[0] * (Pow(radix, |ds| - 1) * radix) == (ds[0] * Pow(radix, |ds| - 1)) * radix; }
        (ds[0] * Pow(radix, |ds| - 1) + PositionalValue(ds[1..], radix)) * radix + d;
      }
    }
  }

  // ---------------------------------------------------------------------
  // Round trip with the canonical base-radix spelling.

  /** The canonical lower-case digit for a value in [0, 36). */
  function DigitChar(d: nat): (c: char)
    requires d < 36
    ensures DigitValue(c) == d
  {
    if d < 10 then ('0' as int + d) as char else ('a' as int + d - 10) as char
  }

  /** The canonical spelling of `v` in base `radix`, without leading zeros. */
  function Encode(v: nat, radix: nat): (s: string)
    requires 2 <= radix <= 36
    ensures |s| >= 1
    decreases v
  {
    if v < radix then [DigitChar(v)] else Encode(v / radix, radix) + [DigitChar(v % radix)]
  }

  /** A one-character string decodes to its digit value. */
  lemma DecodeSingle(c: char, radix: int)
    requires IsDigitOf(c, radix)
    ensures Decode([c], radix) == Success(DigitValue(c))
  {
    var d := DigitValue(c);
    assert AllDigits([c], radix);
    assert DigitValues([c]) == [d];
    assert [d][..0] == [];
    assert Horner([d], radix) == Horner([], radix) * radix + d;
  }

  lemma DecodeSnoc(s: string, c: char, radix: int, v: int)
    requires Decode(s, radix) == Success(v) && IsDigitOf(c, radix)
    ensures Decode(s + [c], radix) == Success(v * radix + DigitValue(c))
  {
    DecodeAppend(s, c, radix);
  }

  lemma DivMod(v: nat, radix: nat)
    requires 2 <= radix <= v
    ensures v / radix < v && (v / radix) * radix + v % radix == v
  {
  }

  /** Decoding the canonical spelling of a non-negative integer gives it back. */
  lemma {:induction false} DecodeEncode(v: nat, radix: nat)
    requires 2 <= radix <= 36
    ensures Decode(Encode(v, radix), radix) == Success(v)
    decreases v
  {
    if v < radix {
      DecodeSingle(DigitChar(v), radix);
    } else {
      var q := v / radix;
      var m := v % radix;
      DivMod(v, radix);
      DecodeEncode(q, radix);
      DecodeSnoc(Encode(q, radix), DigitChar(m), radix, q);
      assert Encode(v, radix) == Encode(q, radix) + [DigitChar(m)];
    }
  }

  // ---------------------------------------------------------------------
  // The alphabet check the decoder evidently intends.
  //
  // The source rejects a character only when its value is negative or at
  // least the radix. The six characters between 'Z' and 'a' are not
  // lower-cased and get the values 4 to 9, so they pass in every radix
  // above 9. The members below add the missing alphabet check.

  /** ASCII decimal digits and letters, in either case. */
  predicate IsAlphanumeric(c: char)
  {
    var l := ToLower(c);
    '0' <= l <= '9' || 'a' <= l <= 'z'
  }

  /** `c` is, up to case, one of the first `radix` symbols 0-9a-z. */
  predicate IsSymbolOf(c: char, radix: int)
  {
    exists d: nat | d < radix && d < 36 :: ToLower(c) == DigitChar(d)
  }

  /** Decoding that also rejects every character outside 0-9, a-z, A-Z. */
  function DecodeStrict(s: string, radix: int): Result<int>
  {
    if forall i | 0 <= i < |s| :: IsAlphanumeric(s[i]) then Decode(s, radix) else Failure(InvalidDigit)
  }

  /** The corrected decoder fails only with an invalid digit, succeeds only
      on alphanumeric strings, and on those agrees with the source's decoder. */
  lemma DecodeStrictOutcome(s: string, radix: int)
    ensures DecodeStrict(s, radix).Failure? ==> DecodeStrict(s, radix).error == InvalidDigit
    ensures DecodeStrict(s, radix).Success? ==> forall i | 0 <= i < |s| :: IsAlphanumeric(s[i])
    ensures (forall i | 0 <= i < |s| :: IsAlphanumeric(s[i])) ==> DecodeStrict(s, radix) == Decode(s, radix)
  {
  }

  /** An alphanumeric character passes the source's range test exactly when
      it is one of the first `radix` symbols, and then its value is that
      symbol's position. */
  lemma {:induction false} StrictDigit(c: char, radix: int)
    ensures IsAlphanumeric(c) && IsDigitOf(c, radix) <==> IsSymbolOf(c, radix)
    ensures IsSymbolOf(c, radix) ==> ToLower(c) == DigitChar(DigitValue(c))
  {
    var l := ToLower(c);
    if IsAlphanumeric(c) && IsDigitOf(c, radix) {
      var d: nat := DigitValue(c);
      assert ToLower(c) == DigitChar(d);
    }
    if IsSymbolOf(c, radix) {
      var d: nat :| d < radix && d < 36 && l == DigitChar(d);
      assert ToLower(l) == l;
      assert DigitValue(c) == DigitValue(DigitChar(d));
    }
  }

  /** The corrected decoder succeeds exactly when every character is one of
      the first `radix` symbols, and then agrees with the source's value. */
  lemma {:induction false} DecodeStrictAlphabet(s: string, radix: int)
    ensures DecodeStrict(s, radix).Success? <==> forall i | 0 <= i < |s| :: IsSymbolOf(s[i], radix)
    ensures DecodeStrict(s, radix).Success? ==> DecodeStrict(s, radix) == Decode(s, radix)
  {
    forall i | 0 <= i < |s|
      ensures IsAlphanumeric(s[i]) && IsDigitOf(s[i], radix) <==> IsSymbolOf(s[i], radix)
    {
      StrictDigit(s[i], radix);
    }
  }

  /** As written, the source decodes "_" in base 10 to 8; the corrected
      decoder rejects it. */
  lemma UnderscoreAccepted()
    ensures Decode("_", 10) == Success(8)
    ensures DecodeStrict("_", 10) == Failure(InvalidDigit)
  {
    assert DigitValue('_') == 8;
    DecodeSingle('_', 10);
    assert !IsAlphanumeric("_"[0]);
  }

  /** The source's decoding loop behind the alphabet check. */
  method ConvertStringToBigIntStrict(s: string, radix: int) returns (r: Result<int>)
    ensures r.Success? <==> forall i | 0 <= i < |s| :: IsSymbolOf(s[i], radix)
    ensures r.Failure? ==> r.error == InvalidDigit
    ensures r.Success? ==> r == Decode(s, radix)
  {
    DecodeStrictAlphabet(s, radix);
    if !(forall i | 0 <= i < |s| :: IsAlphanumeric(s[i])) {
      return Failure(InvalidDigit);
    }
    r := ConvertStringToBigInt(s, radix);
  }
}
