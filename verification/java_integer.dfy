/** The parts of java.lang.Integer the game relies on: `Integer.parseInt`
    for player input and `Integer.toString` for the text of a revealed cell,
    together with the exceptions the game's code can raise. */
module JavaInteger {

  /** The unchecked exceptions the modelled code can throw. */
  datatype Exception = NumberFormatException | IndexOutOfBoundsException

  /** A value, or the exception that was thrown instead. */
  datatype Result<T> = Ok(value: T) | Err(error: Exception)

  const MinInt: int := -0x8000_0000
  const MaxInt: int := 0x7fff_ffff

  predicate IsJavaInt(n: int) {
    MinInt <= n <= MaxInt
  }

  predicate IsAsciiDigit(ch: char) {
    '0' <= ch <= '9'
  }

  predicate IsDigitString(s: string) {
    forall i :: 0 <= i < |s| ==> IsAsciiDigit(s[i])
  }

  function DigitChar(d: int): (ch: char)
    requires 0 <= d <= 9
    ensures IsAsciiDigit(ch) && ch as int - '0' as int == d
  {
    ('0' as int + d) as char
  }

  /** The number written by a string of decimal digits, most significant first. */
  function DecimalValue(s: string): nat
    requires IsDigitString(s)
  {
    if |s| == 0 then 0
    else DecimalValue(s[..|s| - 1]) * 10 + (s[|s| - 1] as int - '0' as int)
  }

  /** The text after an optional leading '+' or '-'. */
  function Unsigned(s: string): string {
    if |s| > 0 && (s[0] == '-' || s[0] == '+') then s[1..] else s
  }

  /** `Integer.parseInt(s)` in radix 10: an optional sign followed by at least
      one digit, whose value must fit in 32 bits; anything else raises
      NumberFormatException. */
  function ParseInt(s: string): (r: Result<int>)
    ensures r.Err? ==> r.error == NumberFormatException
    ensures r.Ok? <==>
      |Unsigned(s)| > 0 && IsDigitString(Unsigned(s)) &&
      (if s[0] == '-' then DecimalValue(Unsigned(s)) <= -MinInt else DecimalValue(Unsigned(s)) <= MaxInt)
    ensures r.Ok? && s[0] == '-' ==> r.value == -(DecimalValue(Unsigned(s)) as int)
    ensures r.Ok? && s[0] != '-' ==> r.value == DecimalValue(Unsigned(s))
    ensures r.Ok? ==> IsJavaInt(r.value)
  {
    if |s| == 0 then Err(NumberFormatException)
    else
      var negative := s[0] == '-';
      var digits := if s[0] == '-' || s[0] == '+' then s[1..] else s;
      if |digits| == 0 || !IsDigitString(digits) then Err(NumberFormatException)
      else
        var v: int := if negative then -(DecimalValue(digits) as int) else DecimalValue(digits);
        if IsJavaInt(v) then Ok(v) else Err(NumberFormatException)
  }

  /** A digit string's value is ten times the value of all but its last
      digit, plus that digit. */
  lemma DecimalStep(t: string, s: string, ch: char)
    requires IsDigitString(s) && IsAsciiDigit(ch) && t == s + [ch]
    ensures IsDigitString(t)
    ensures DecimalValue(t) == DecimalValue(s) * 10 + (ch as int - '0' as int)
  {
    assert t[..|t| - 1] == s;
  }

  /** The decimal value of "214748364", the common prefix of both 32-bit bounds. */
  lemma BoundPrefix()
    ensures IsDigitString("214748364") && DecimalValue("214748364") == 214748364
  {
    DecimalStep("2", "", '2');
    DecimalStep("21", "2", '1');
    DecimalStep("214", "21", '4');
    DecimalStep("2147", "214", '7');
    DecimalStep("21474", "2147", '4');
    DecimalStep("214748", "21474", '8');
    DecimalStep("2147483", "214748", '3');
    DecimalStep("21474836", "2147483", '6');
    DecimalStep("214748364", "21474836", '4');
  }

  /** Short inputs at the edges of `parseInt`: a bare sign and a trailing
      non-digit are rejected, and signed values are accepted. */
  lemma ParseIntShortEdges()
    ensures ParseInt("").Err? && ParseInt("+").Err? && ParseInt("-").Err?
    ensures ParseInt("1a").Err?
    ensures ParseInt("-5") == Ok(-5) && ParseInt("+5") == Ok(5)
  {
    assert !IsAsciiDigit("1a"[1]);
    DecimalStep("5", "", '5');
    assert Unsigned("-5") == "5" && Unsigned("+5") == "5";
  }

  /** The 32-bit bounds: one past either end is rejected, the ends themselves
      are accepted. */
  lemma ParseIntRangeEdges()
    ensures ParseInt("2147483647") == Ok(MaxInt) && ParseInt("2147483648").Err?
    ensures ParseInt("-2147483648") == Ok(MinInt) && ParseInt("-2147483649").Err?
  {
    BoundPrefix();
    DecimalStep("2147483647", "214748364", '7');
    DecimalStep("2147483648", "214748364", '8');
    DecimalStep("2147483649", "214748364", '9');
    assert Unsigned("-2147483648") == "2147483648";
    assert Unsigned("-2147483649") == "2147483649";
  }

  /** Decimal digits of a natural number without leading zeros. */
  function NatToString(n: nat): (s: string)
    ensures |s| >= 1 && IsDigitString(s)
    ensures DecimalValue(s) == n
    ensures |s| > 1 ==> s[0] != '0'
    decreases n
  {
    if n < 10 then [DigitChar(n)]
    else
      var prefix := NatToString(n / 10);
      var s := prefix + [DigitChar(n % 10)];
      assert s[..|s| - 1] == prefix;
      s
  }

  /** `Integer.toString(n)`: a minus sign for negative numbers, then the digits. */
  function ToString(n: int): (s: string)
    requires IsJavaInt(n)
    ensures |s| >= 1
    ensures s[0] == '-' <==> n < 0
  {
    if n < 0 then "-" + NatToString(-n) else NatToString(n)
  }

  /** Parsing the text `Integer.toString` produces gives the number back. */
  lemma ParseToString(n: int)
    requires IsJavaInt(n)
    ensures ParseInt(ToString(n)) == Ok(n)
  {
    if n < 0 {
      assert ToString(n)[1..] == NatToString(-n);
    }
  }

  /** A one-character string "1".."6" parses to its digit. */
  lemma ParseSingleDigit(ch: char)
    requires '1' <= ch <= '6'
    ensures ParseInt([ch]) == Ok(ch as int - '0' as int)
  {
    assert DecimalValue([ch]) == DecimalValue([]) * 10 + (ch as int - '0' as int);
  }

  /** The text of a board digit is that digit's single character. */
  lemma ToStringOfDigit(v: int)
    requires 1 <= v <= 6
    ensures ToString(v) == [DigitChar(v)]
  {
  }
}
