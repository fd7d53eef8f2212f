/**
 * The text-to-number reading that `pd.to_numeric(..., errors='coerce')` applies to a
 * text cell: an optional sign, decimal digits and an optional fraction. Anything
 * else reads as "not a number".
 */
module Numbers {
  import opened Wrappers

  predicate IsDigit(c: char) {
    '0' <= c <= '9'
  }

  predicate AllDigits(s: string) {
    forall i :: 0 <= i < |s| ==> IsDigit(s[i])
  }

  function DigitValue(c: char): nat
    requires IsDigit(c)
  {
    c as int - '0' as int
  }

  function DigitChar(d: nat): (c: char)
    requires d < 10
    ensures IsDigit(c) && DigitValue(c) == d
  {
    ('0' as int + d) as char
  }

  /** The value of a digit string, most significant digit first. */
  function DigitsValue(s: string): nat
    requires AllDigits(s)
  {
    if s == [] then 0 else DigitsValue(s[..|s| - 1]) * 10 + DigitValue(s[|s| - 1])
  }

  function Pow10(n: nat): (p: nat)
    ensures p >= 1
  {
    if n == 0 then 1 else 10 * Pow10(n - 1)
  }

  /** Position of the first '.' in `s`, if any. */
  function FindDot(s: string): (r: Option<nat>)
    ensures r.None? ==> '.' !in s
    ensures r.Some? ==> r.value < |s| && s[r.value] == '.' && '.' !in s[..r.value]
  {
    if s == [] then None
    else if s[0] == '.' then Some(0)
    else match FindDot(s[1..])
      case None => None
      case Some(k) => assert s[..k + 1] == [s[0]] + s[1..][..k]; Some(k + 1)
  }

  /** The value of whole and fraction digits around a decimal point. */
  function DecimalValue(whole: string, fraction: string): real
    requires AllDigits(whole) && AllDigits(fraction)
  {
    DigitsValue(whole) as real + DigitsValue(fraction) as real / Pow10(|fraction|) as real
  }

  /** Digits with at most one '.', and at least one digit. */
  function ParseUnsigned(s: string): (r: Option<real>)
    ensures r.Some? ==> r.value >= 0.0
  {
    match FindDot(s)
    case None =>
      if s != [] && AllDigits(s) then Some(DigitsValue(s) as real) else None
    case Some(k) =>
      var whole, fraction := s[..k], s[k + 1..];
      if AllDigits(whole) && AllDigits(fraction) && |whole| + |fraction| > 0 then
        Some(DecimalValue(whole, fraction))
      else None
  }

  /** The text after its one leading sign, if it has one. */
  function Unsigned(s: string): string {
    if s != [] && (s[0] == '-' || s[0] == '+') then s[1..] else s
  }

  /**
   * The texts that read as a number: after an optional leading sign, only digits
   * and dots, at most one dot, and at least one digit.
   */
  predicate DecimalText(s: string) {
    var body := Unsigned(s);
    && (forall i :: 0 <= i < |body| ==> IsDigit(body[i]) || body[i] == '.')
    && (forall i, j :: 0 <= i < j < |body| && body[i] == '.' ==> body[j] != '.')
    && exists i :: 0 <= i < |body| && IsDigit(body[i])
  }

  /**
   * The number a text cell denotes, or None when `to_numeric` would coerce it to
   * NaN: plain digits read as their decimal value, and a leading '-' makes the
   * value non-positive where a leading '+' or no sign keeps it non-negative.
   */
  function ParseNumber(s: string): (r: Option<real>)
    ensures s != [] && AllDigits(s) ==> r == Some(DigitsValue(s) as real)
    ensures r.Some? && s != [] && s[0] == '-' ==> r.value <= 0.0
    ensures r.Some? && (s == [] || s[0] != '-') ==> r.value >= 0.0
  {
    match ParseUnsigned(Unsigned(s))
    case None => None
    case Some(v) => if s != [] && s[0] == '-' then Some(-v) else Some(v)
  }

  /** Text without a single digit ("n/a", "-", "") never reads as a number. */
  lemma ParsedTextHasDigit(s: string)
    requires ParseNumber(s).Some?
    ensures exists i :: 0 <= i < |s| && IsDigit(s[i])
  {
    var body := Unsigned(s);
    var j: nat;
    match FindDot(body)
    case None =>
      j := 0;
    case Some(k) =>
      if k > 0 {
        assert IsDigit(body[..k][0]);
        j := 0;
      } else {
        assert IsDigit(body[k + 1..][0]);
        j := k + 1;
      }
    assert IsDigit(body[j]);
    assert body[j] == s[j + |s| - |body|];
  }

  /** A dot at `k` with none before it is the one FindDot finds. */
  lemma FindDotAt(s: string, k: nat)
    requires k < |s| && s[k] == '.' && '.' !in s[..k]
    ensures FindDot(s) == Some(k)
  {
  }

  /** Exactly the sign, digits and one dot of DecimalText read as a number; "12kg" or "1.2.3" read as NaN. */
  lemma ParseNumberDefined(s: string)
    ensures ParseNumber(s).Some? <==> DecimalText(s)
  {
    var body := Unsigned(s);
    match FindDot(body)
    case None =>
      if DecimalText(s) {
        forall i | 0 <= i < |body| ensures IsDigit(body[i]) {
          assert body[i] in body;
        }
      }
      if ParseNumber(s).Some? {
        assert IsDigit(body[0]);
      }
    case Some(k) =>
      var whole, fraction := body[..k], body[k + 1..];
      if DecimalText(s) {
        forall i | 0 <= i < |whole| ensures IsDigit(whole[i]) {
          assert whole[i] in body[..k];
        }
        forall i | 0 <= i < |fraction| ensures IsDigit(fraction[i]) {
          assert fraction[i] == body[k + 1 + i];
        }
        var d :| 0 <= d < |body| && IsDigit(body[d]);
        assert d != k;
      }
      if ParseNumber(s).Some? {
        forall i | 0 <= i < |body| && i != k ensures IsDigit(body[i]) {
          if i < k {
            assert body[i] == whole[i];
          } else {
            assert body[i] == fraction[i - k - 1];
          }
        }
        if |whole| > 0 {
          assert IsDigit(body[0]);
        } else {
          assert IsDigit(body[k + 1]);
        }
      }
  }

  /** Whole digits, a dot and fraction digits read as their decimal value. */
  lemma UnsignedDecimal(whole: string, fraction: string)
    requires AllDigits(whole) && AllDigits(fraction) && |whole| + |fraction| > 0
    ensures ParseUnsigned(whole + "." + fraction) == Some(DecimalValue(whole, fraction))
  {
    var body := whole + "." + fraction;
    assert body[..|whole|] == whole && body[|whole| + 1..] == fraction;
    assert '.' !in whole;
    FindDotAt(body, |whole|);
  }

  /** A leading sign negates ('-') or keeps ('+') what the rest of the text reads as. */
  lemma SignedParse(sign: char, body: string)
    requires sign == '-' || sign == '+'
    ensures ParseUnsigned(body).None? ==> ParseNumber([sign] + body).None?
    ensures ParseUnsigned(body).Some? ==>
      ParseNumber([sign] + body) == Some(if sign == '-' then -ParseUnsigned(body).value else ParseUnsigned(body).value)
  {
    assert Unsigned([sign] + body) == body;
  }

  /** Text that does not start with a sign is read whole. */
  lemma Unprefixed(body: string)
    requires body == [] || (body[0] != '-' && body[0] != '+')
    ensures ParseNumber(body) == ParseUnsigned(body)
  {
  }

  /**
   * Decimal text reads as its value: the whole digits plus the fraction digits
   * over the matching power of ten, negated under a leading '-', kept under '+'.
   */
  lemma ParseDecimal(whole: string, fraction: string)
    requires AllDigits(whole) && AllDigits(fraction) && |whole| + |fraction| > 0
    ensures ParseNumber(whole + "." + fraction) == Some(DecimalValue(whole, fraction))
    ensures ParseNumber("+" + (whole + "." + fraction)) == Some(DecimalValue(whole, fraction))
    ensures ParseNumber("-" + (whole + "." + fraction)) == Some(-DecimalValue(whole, fraction))
  {
    var body := whole + "." + fraction;
    UnsignedDecimal(whole, fraction);
    assert body[0] == if whole == [] then '.' else whole[0];
    Unprefixed(body);
    SignedParse('+', body);
    SignedParse('-', body);
  }

  /** Signed digit text reads as its value, negated under a leading '-'. */
  lemma ParseSignedDigits(digits: string)
    requires digits != [] && AllDigits(digits)
    ensures ParseNumber("+" + digits) == Some(DigitsValue(digits) as real)
    ensures ParseNumber("-" + digits) == Some(-(DigitsValue(digits) as real))
  {
    assert '.' !in digits;
    assert ParseUnsigned(digits) == Some(DigitsValue(digits) as real);
    SignedParse('+', digits);
    SignedParse('-', digits);
  }

  /** The decimal text of a natural number, as Python's `str` writes it. */
  function NatToString(n: nat): (s: string)
    ensures s != [] && AllDigits(s)
  {
    if n < 10 then [DigitChar(n)] else NatToString(n / 10) + [DigitChar(n % 10)]
  }

  /** The decimal text of an integer. */
  function IntToString(i: int): (s: string)
  {
    if i < 0 then "-" + NatToString(-i) else NatToString(i)
  }

  lemma {:induction false} DigitsOfNat(n: nat)
    ensures DigitsValue(NatToString(n)) == n
  {
    var s := NatToString(n);
    if n >= 10 {
      DigitsOfNat(n / 10);
      assert s[..|s| - 1] == NatToString(n / 10);
    }
  }

  /** Reading back the decimal text of an integer gives that integer. */
  lemma ParseIntToString(i: int)
    ensures ParseNumber(IntToString(i)) == Some(i as real)
  {
    var n: nat := if i < 0 then -i else i;
    var digits := NatToString(n);
    DigitsOfNat(n);
    assert FindDot(digits) == None;
    assert ParseUnsigned(digits) == Some(n as real);
    if i < 0 {
      assert IntToString(i)[1..] == digits;
    } else {
      assert IntToString(i) == digits;
    }
  }
}
