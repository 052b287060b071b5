/** The part of `Float.valueOf(String)` and `Float.compareTo` the sequence
    numbers of trigger definitions rely on: plain decimal numbers with an
    optional sign and fraction, surrounded by optional white space. The
    value is the exact rational the text denotes. */
module JavaFloats {
  import opened Wrappers
  import JavaStrings

  predicate IsDigit(c: char)
  {
    '0' <= c <= '9'
  }

  predicate AllDigits(s: string)
  {
    forall i :: 0 <= i < |s| ==> IsDigit(s[i])
  }

  /** The value of a string of decimal digits, most significant first. */
  function DigitsValue(s: string): nat
    requires AllDigits(s)
  {
    if s == [] then 0 else DigitsValue(s[..|s| - 1]) * 10 + (s[|s| - 1] as int - '0' as int)
  }

  function Pow10(n: nat): (p: nat)
    ensures p > 0
  {
    if n == 0 then 1 else 10 * Pow10(n - 1)
  }

  /** An unsigned decimal: digits, optionally a '.' and more digits, with at
      least one digit in all. */
  function ParseUnsigned(s: string): Option<real>
  {
    var dot := JavaStrings.IndexOfChar(s, '.');
    var whole := if dot < 0 then s else s[..dot];
    var fraction := if dot < 0 then [] else s[dot + 1..];
    if AllDigits(whole) && AllDigits(fraction) && |whole| + |fraction| > 0 then
      Some(DigitsValue(whole) as real + DigitsValue(fraction) as real / Pow10(|fraction|) as real)
    else None
  }

  /** A float as `Float.compareTo` sees it: the exact value, and whether it
      is the negative zero, which `compareTo` puts below the positive one. */
  datatype Float = Float(value: real, negativeZero: bool)

  /** The type suffixes `Float.valueOf` accepts after the number. */
  predicate IsTypeSuffix(c: char)
  {
    c == 'f' || c == 'F' || c == 'd' || c == 'D'
  }

  /** `Float.valueOf(s)`: `None` where it throws a NumberFormatException.
      A leading '-' negates, so "-0" is the negative zero. */
  function ParseFloat(s: string): (r: Option<Float>)
    ensures r.Some? && r.value.negativeZero ==> r.value.value == 0.0
  {
    var t := JavaStrings.Trim(s);
    var number := if |t| > 0 && IsTypeSuffix(t[|t| - 1]) then t[..|t| - 1] else t;
    if |number| > 0 && number[0] == '-' then
      match ParseUnsigned(number[1..])
      case None => None
      case Some(v) => Some(Float(-v, v == 0.0))
    else
      var unsigned := if |number| > 0 && number[0] == '+' then number[1..] else number;
      match ParseUnsigned(unsigned)
      case None => None
      case Some(v) => Some(Float(v, false))
  }

  /** The order of `Float.compare` on values that are not NaN: by value, and
      the negative zero below the positive zero. */
  predicate Less(x: Float, y: Float)
  {
    x.value < y.value || (x.value == y.value && x.negativeZero && !y.negativeZero)
  }

  /** `Float.compareTo` on values that are not NaN: numeric comparison first,
      then the bit patterns, which differ only between the two zeros. */
  function Compare(x: Float, y: Float): (r: int)
    ensures r < 0 <==> Less(x, y)
    ensures r > 0 <==> Less(y, x)
    ensures r == 0 <==> x == y
  {
    if x.value < y.value then -1
    else if x.value > y.value then 1
    else if x.negativeZero == y.negativeZero then 0
    else if x.negativeZero then -1
    else 1
  }

  /** `Less` is a strict total order on the floats `Float.valueOf` yields. */
  lemma LessTotal(x: Float, y: Float)
    requires x.negativeZero ==> x.value == 0.0
    requires y.negativeZero ==> y.value == 0.0
    ensures !Less(x, x)
    ensures Less(x, y) ==> !Less(y, x)
    ensures x == y || Less(x, y) || Less(y, x)
  {
  }

  /** A single digit parses to its value. */
  lemma DigitParses(c: char)
    requires IsDigit(c)
    ensures ParseFloat([c]) == Some(Float((c as int - '0' as int) as real, false))
  {
    UnsignedDigit(c);
    TrimKeeps([c]);
  }

  /** `trim()` keeps a string that neither starts nor ends with white space. */
  lemma TrimKeeps(s: string)
    requires |s| > 0 && !JavaStrings.IsTrimmable(s[0]) && !JavaStrings.IsTrimmable(s[|s| - 1])
    ensures JavaStrings.Trim(s) == s
  {
    assert JavaStrings.TrimStart(s) == s;
    assert JavaStrings.TrimEnd(s) == s;
  }

  lemma UnsignedDigit(c: char)
    requires IsDigit(c)
    ensures ParseUnsigned([c]) == Some((c as int - '0' as int) as real)
  {
    assert JavaStrings.IndexOfChar([c], '.') == -1;
    assert AllDigits([c]) && AllDigits([]);
    assert DigitsValue([c]) == c as int - '0' as int by {
      assert [c][..0] == [];
    }
  }

  /** "-0" parses to the negative zero. */
  lemma NegativeZeroParses()
    ensures ParseFloat("-0") == Some(Float(0.0, true))
  {
    UnsignedDigit('0');
    TrimKeeps("-0");
    assert "-0"[1..] == "0";
  }

  /** The negative zero compares below the positive zero. */
  lemma NegativeZeroBelowZero()
    ensures ParseFloat("-0").Some? && ParseFloat("0").Some? && Compare(ParseFloat("-0").value, ParseFloat("0").value) == -1
  {
    DigitParses('0');
    NegativeZeroParses();
  }

  /** A type suffix after the number is accepted. */
  lemma SuffixAccepted()
    ensures ParseFloat("7f") == Some(Float(7.0, false))
  {
    TrimKeeps("7f");
    UnsignedDigit('7');
    assert "7f"[..1] == "7";
  }
}
