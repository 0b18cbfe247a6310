/**
  Unsigned integers and their text forms: parsing as Rust's `from_str_radix`
  does it, and formatting as `{}` (decimal) and `{:02x}` (two lower-case hex
  digits) do it.
 */
module Numeric {
  import opened Wrappers

  type u8 = n: int | 0 <= n < 0x100
  type u32 = n: int | 0 <= n < 0x1_0000_0000

  const U8_MAX: nat := 0xff
  const U32_MAX: nat := 0xffff_ffff

  /** The kinds of `ParseIntError` an unsigned parse can report. */
  datatype IntErrorKind = Empty | InvalidDigit | PosOverflow

  /** The value of `c` as a digit in `radix` (Rust's `char::to_digit`); letters are case-insensitive. */
  function DigitValue(c: char, radix: nat): Option<nat>
    requires 2 <= radix <= 36
  {
    var v :=
      if '0' <= c <= '9' then c as int - '0' as int
      else if 'a' <= c <= 'z' then c as int - 'a' as int + 10
      else if 'A' <= c <= 'Z' then c as int - 'A' as int + 10
      else radix;
    if v < radix then Some(v) else None
  }

  predicate AllDigits(s: string, radix: nat)
    requires 2 <= radix <= 36
  {
    forall i :: 0 <= i < |s| ==> DigitValue(s[i], radix).Some?
  }

  /** The positional value of a digit string, most significant digit first, with no bound. */
  function Value(s: string, radix: nat): nat
    requires 2 <= radix <= 36
    requires AllDigits(s, radix)
  {
    if |s| == 0 then 0
    else radix * Value(s[..|s| - 1], radix) + DigitValue(s[|s| - 1], radix).value
  }

  /** A digit string is all digits exactly when its prefix is and its last character is one. */
  lemma AllDigitsSnoc(s: string, radix: nat)
    requires 2 <= radix <= 36
    requires |s| > 0
    ensures AllDigits(s, radix) <==> AllDigits(s[..|s| - 1], radix) && DigitValue(s[|s| - 1], radix).Some?
  {
    var prefix := s[..|s| - 1];
    if AllDigits(prefix, radix) && DigitValue(s[|s| - 1], radix).Some? {
      forall i | 0 <= i < |s| ensures DigitValue(s[i], radix).Some? {
        if i < |s| - 1 { assert s[i] == prefix[i]; }
      }
    }
    if AllDigits(s, radix) {
      forall i | 0 <= i < |prefix| ensures DigitValue(prefix[i], radix).Some? {
        assert prefix[i] == s[i];
      }
    }
  }

  lemma ScaleGrows(k: nat, v: nat)
    requires k >= 1
    ensures k * v >= v
  {
  }

  /** Appending a digit never makes the value smaller. */
  lemma ValueOfPrefix(s: string, radix: nat)
    requires 2 <= radix <= 36
    requires |s| > 0 && AllDigits(s, radix)
    ensures AllDigits(s[..|s| - 1], radix)
    ensures Value(s[..|s| - 1], radix) <= Value(s, radix)
  {
    AllDigitsSnoc(s, radix);
    ScaleGrows(radix, Value(s[..|s| - 1], radix));
  }

  /** Every prefix of a digit string is a digit string, and a shorter prefix is worth no more. */
  lemma {:induction false} PrefixValueGrows(s: string, radix: nat, j: nat, k: nat)
    requires 2 <= radix <= 36
    requires j <= k <= |s| && AllDigits(s[..k], radix)
    ensures AllDigits(s[..j], radix) && Value(s[..j], radix) <= Value(s[..k], radix)
    decreases k - j
  {
    if j < k {
      var t := s[..k];
      ValueOfPrefix(t, radix);
      assert t[..k - 1] == s[..k - 1];
      PrefixValueGrows(s, radix, j, k - 1);
    }
  }

  /** The digit loop stops at index `k` on a character that is not a digit, the value so far being in range. */
  predicate BadDigitAt(s: string, radix: nat, max: nat, k: int)
    requires 2 <= radix <= 36
  {
    && 0 <= k < |s|
    && AllDigits(s[..k], radix)
    && DigitValue(s[k], radix).None?
    && Value(s[..k], radix) <= max
  }

  /** The first `k` characters are digits whose value already exceeds `max`. */
  predicate OverflowAt(s: string, radix: nat, max: nat, k: int)
    requires 2 <= radix <= 36
  {
    && 0 < k <= |s|
    && AllDigits(s[..k], radix)
    && Value(s[..k], radix) > max
  }

  /**
    At most one way for the digit loop to end: a bad digit rules out an
    overflow anywhere and a complete digit string, and an in-range digit
    string rules out an overflow.
   */
  lemma WitnessesExclusive(s: string, radix: nat, max: nat)
    requires 2 <= radix <= 36
    ensures forall j, k :: BadDigitAt(s, radix, max, j) ==> !OverflowAt(s, radix, max, k)
    ensures forall j :: BadDigitAt(s, radix, max, j) ==> !AllDigits(s, radix)
    ensures AllDigits(s, radix) && Value(s, radix) <= max ==> forall k :: !OverflowAt(s, radix, max, k)
  {
    forall j, k | BadDigitAt(s, radix, max, j) && 0 < k <= |s| ensures !OverflowAt(s, radix, max, k) {
      if j < k {
        assert s[..k][j] == s[j];
      } else if AllDigits(s[..k], radix) {
        PrefixValueGrows(s, radix, k, j);
      }
    }
    if AllDigits(s, radix) && Value(s, radix) <= max {
      assert s[..|s|] == s;
      forall k | 0 < k <= |s| && AllDigits(s[..k], radix) ensures Value(s[..k], radix) <= max {
        PrefixValueGrows(s, radix, k, |s|);
      }
    }
  }

  /**
    A witness in the text without its last character is a witness in the
    whole text, and rules out the other kind there.
   */
  lemma PrefixWitnesses(s: string, prefix: string, radix: nat, max: nat)
    requires 2 <= radix <= 36
    requires |s| > 0 && prefix == s[..|s| - 1]
    ensures (exists k :: BadDigitAt(prefix, radix, max, k)) ==>
      (exists k :: BadDigitAt(s, radix, max, k)) && !(exists k :: OverflowAt(s, radix, max, k))
    ensures (exists k :: OverflowAt(prefix, radix, max, k)) ==>
      (exists k :: OverflowAt(s, radix, max, k)) && !(exists k :: BadDigitAt(s, radix, max, k))
  {
    WitnessesExclusive(s, radix, max);
    if j :| BadDigitAt(prefix, radix, max, j) {
      assert prefix[..j] == s[..j];
      assert BadDigitAt(s, radix, max, j);
    }
    if k :| OverflowAt(prefix, radix, max, k) {
      assert prefix[..k] == s[..k];
      assert OverflowAt(s, radix, max, k);
    }
  }

  /**
    The digit loop of `from_str_radix`: digits are consumed left to right,
    and the first digit that is not a digit, or the first digit that makes
    the running value exceed `max`, decides the error.
   */
  function Accumulate(s: string, radix: nat, max: nat): (r: Result<nat, IntErrorKind>)
    requires 2 <= radix <= 36
    ensures r.Ok? ==> AllDigits(s, radix) && r.value == Value(s, radix) && r.value <= max
    ensures AllDigits(s, radix) ==> r == (if Value(s, radix) <= max then Ok(Value(s, radix)) else Err(PosOverflow))
    ensures r.Err? ==> r.error != Empty
    ensures r == Err(InvalidDigit) <==> exists k :: BadDigitAt(s, radix, max, k)
    ensures r == Err(PosOverflow) <==> exists k :: OverflowAt(s, radix, max, k)
  {
    WitnessesExclusive(s, radix, max);
    if |s| == 0 then Ok(0)
    else
      var prefix := s[..|s| - 1];
      AllDigitsSnoc(s, radix);
      PrefixWitnesses(s, prefix, radix, max);
      match Accumulate(prefix, radix, max)
      case Err(e) =>
        if AllDigits(s, radix) then ValueOfPrefix(s, radix); Err(e) else Err(e)
      case Ok(v) =>
        match DigitValue(s[|s| - 1], radix)
        case None =>
          assert BadDigitAt(s, radix, max, |s| - 1);
          Err(InvalidDigit)
        case Some(d) =>
          var next := radix * v + d;
          assert AllDigits(s, radix) && Value(s, radix) == next;
          if next > max then
            assert s[..|s|] == s;
            assert OverflowAt(s, radix, max, |s|);
            Err(PosOverflow)
          else Ok(next)
  }

  /** The digits `from_str_radix` reads: the text with one leading '+' removed. */
  function Unsigned(s: string): string
  {
    if |s| > 0 && s[0] == '+' then s[1..] else s
  }

  /**
    Rust's `from_str_radix` for an unsigned type whose largest value is `max`.
    A lone sign is an invalid digit, and so is a '-' anywhere.
   */
  function FromStrRadix(s: string, radix: nat, max: nat): (r: Result<nat, IntErrorKind>)
    requires 2 <= radix <= 36
    ensures r == Err(Empty) <==> |s| == 0
    ensures r.Ok? <==> |Unsigned(s)| > 0 && AllDigits(Unsigned(s), radix) && Value(Unsigned(s), radix) <= max
    ensures r.Ok? ==> r.value == Value(Unsigned(s), radix)
    ensures |s| > 0 && AllDigits(Unsigned(s), radix) && Value(Unsigned(s), radix) > max ==> r == Err(PosOverflow)
    ensures r == Err(InvalidDigit) <==> s == "+" || exists k :: BadDigitAt(Unsigned(s), radix, max, k)
    ensures r == Err(PosOverflow) <==> exists k :: OverflowAt(Unsigned(s), radix, max, k)
    ensures |s| == 1 && (s[0] == '+' || s[0] == '-') ==> r == Err(InvalidDigit)
  {
    if |s| == 0 then Err(Empty)
    else if |s| == 1 && (s[0] == '+' || s[0] == '-') then
      assert s[0] == '-' ==> BadDigitAt(s, radix, max, 0) by {
        assert s[..0] == [];
      }
      Err(InvalidDigit)
    else
      assert s != "+";
      Accumulate(Unsigned(s), radix, max)
  }

  /**
    `u32::from_str`: decimal, at most 4294967295, with one optional
    leading '+'.
   */
  function ParseU32(s: string): (r: Result<u32, IntErrorKind>)
    ensures r == Err(Empty) <==> |s| == 0
    ensures r.Ok? <==> |Unsigned(s)| > 0 && AllDigits(Unsigned(s), 10) && Value(Unsigned(s), 10) <= U32_MAX
    ensures r.Ok? ==> r.value == Value(Unsigned(s), 10)
    ensures r == Err(InvalidDigit) <==> s == "+" || exists k :: BadDigitAt(Unsigned(s), 10, U32_MAX, k)
    ensures r == Err(PosOverflow) <==> exists k :: OverflowAt(Unsigned(s), 10, U32_MAX, k)
  {
    match FromStrRadix(s, 10, U32_MAX)
    case Ok(v) => Ok(v)
    case Err(e) => Err(e)
  }

  /** `u8::from_str_radix(_, 16)`: hex digits of either case, at most 0xff, with one optional leading '+'. */
  function ParseHexU8(s: string): (r: Result<u8, IntErrorKind>)
    ensures r == Err(Empty) <==> |s| == 0
    ensures r.Ok? <==> |Unsigned(s)| > 0 && AllDigits(Unsigned(s), 16) && Value(Unsigned(s), 16) <= U8_MAX
    ensures r.Ok? ==> r.value == Value(Unsigned(s), 16)
    ensures r == Err(InvalidDigit) <==> s == "+" || exists k :: BadDigitAt(Unsigned(s), 16, U8_MAX, k)
    ensures r == Err(PosOverflow) <==> exists k :: OverflowAt(Unsigned(s), 16, U8_MAX, k)
  {
    match FromStrRadix(s, 16, U8_MAX)
    case Ok(v) => Ok(v)
    case Err(e) => Err(e)
  }

  function DecimalDigit(d: nat): char
    requires d < 10
  {
    ('0' as int + d) as char
  }

  /** `{}` of an unsigned integer: decimal digits with no leading zero. */
  function Decimal(n: nat): (s: string)
    ensures |s| > 0 && AllDigits(s, 10) && Value(s, 10) == n
    ensures s[0] == '0' ==> s == "0"
  {
    if n < 10 then
      assert Value([DecimalDigit(n)], 10) == n by {
        assert [DecimalDigit(n)][..0] == [];
      }
      [DecimalDigit(n)]
    else
      var high := Decimal(n / 10);
      var s := high + [DecimalDigit(n % 10)];
      assert s[..|s| - 1] == high;
      assert AllDigits(s, 10) by {
        forall i | 0 <= i < |s| ensures DigitValue(s[i], 10).Some? {
          if i < |high| { assert s[i] == high[i]; }
        }
      }
      s
  }

  predicate IsLowerHexDigit(c: char)
  {
    '0' <= c <= '9' || 'a' <= c <= 'f'
  }

  function HexDigit(d: nat): (c: char)
    requires d < 16
  {
    if d < 10 then ('0' as int + d) as char else ('a' as int + d - 10) as char
  }

  lemma HexDigitValue(d: nat)
    requires d < 16
    ensures IsLowerHexDigit(HexDigit(d)) && DigitValue(HexDigit(d), 16) == Some(d)
  {
  }

  /** The value of a one- or two-digit string. */
  lemma ValueOfShort(s: string, radix: nat)
    requires 2 <= radix <= 36
    requires 1 <= |s| <= 2 && AllDigits(s, radix)
    ensures |s| == 1 ==> Value(s, radix) == DigitValue(s[0], radix).value
    ensures |s| == 2 ==> Value(s, radix) == radix * DigitValue(s[0], radix).value + DigitValue(s[1], radix).value
  {
    assert s[..1][..0] == [];
    if |s| == 2 {
      assert s[..1] == [s[0]];
      assert AllDigits(s[..1], radix);
    } else {
      assert s[..0] == [];
    }
  }

  /** `{:02x}` of a byte: exactly two lower-case hex digits, zero-padded. */
  function Hex2(n: u8): (s: string)
    ensures |s| == 2 && IsLowerHexDigit(s[0]) && IsLowerHexDigit(s[1])
    ensures AllDigits(s, 16) && Value(s, 16) == n
  {
    var s := [HexDigit(n / 16), HexDigit(n % 16)];
    HexDigitValue(n / 16);
    HexDigitValue(n % 16);
    ValueOfShort(s, 16);
    s
  }

  /** Printing a u32 in decimal and parsing it back gives the same number. */
  lemma DecimalRoundTrip(n: u32)
    ensures ParseU32(Decimal(n)) == Ok(n)
  {
  }

  /** Printing a byte as two hex digits and parsing it back gives the same byte. */
  lemma Hex2RoundTrip(n: u8)
    ensures ParseHexU8(Hex2(n)) == Ok(n)
  {
  }

  /** Two characters never hold a hex value above 0xff, so a 2-character parse never overflows. */
  lemma TwoHexDigitsFit(s: string)
    requires |s| == 2
    ensures ParseHexU8(s).Err? ==> ParseHexU8(s).error == InvalidDigit
  {
    var u := Unsigned(s);
    if ParseHexU8(s) == Err(PosOverflow) {
      var k :| OverflowAt(u, 16, U8_MAX, k);
      ValueOfShort(u[..k], 16);
      assert false;
    }
  }
}
