/**
 * The Java library text operations the form guards rely on: `String.trim`,
 * `String.isBlank`, `Integer.parseInt` and `Long.parseLong` (radix 10), with
 * the message of the `NumberFormatException` they throw.
 */
module JavaText {
  import opened Records

  const IntMin: int := -0x8000_0000
  const IntMax: int := 0x7FFF_FFFF
  const LongMin: int := -0x8000_0000_0000_0000
  const LongMax: int := 0x7FFF_FFFF_FFFF_FFFF

  // ------------------------------------------------------------- trim

  /** `trim` drops every leading and trailing character at or below U+0020. */
  predicate Trimmable(c: char) { c <= ' ' }

  function TrimStart(s: string, i: nat): (k: nat)
    requires i <= |s|
    ensures i <= k <= |s|
    ensures forall j :: i <= j < k ==> Trimmable(s[j])
    ensures k < |s| ==> !Trimmable(s[k])
    decreases |s| - i
  {
    if i < |s| && Trimmable(s[i]) then TrimStart(s, i + 1) else i
  }

  function TrimEnd(s: string, lo: nat, j: nat): (k: nat)
    requires lo <= j <= |s|
    ensures lo <= k <= j
    ensures forall m :: k <= m < j ==> Trimmable(s[m])
    ensures lo < k ==> !Trimmable(s[k - 1])
    decreases j
  {
    if lo < j && Trimmable(s[j - 1]) then TrimEnd(s, lo, j - 1) else j
  }

  function Trim(s: string): (r: string)
    ensures |r| <= |s|
    ensures exists a, b :: 0 <= a <= b <= |s| && r == s[a..b]
                           && (forall j :: 0 <= j < a ==> Trimmable(s[j]))
                           && (forall j :: b <= j < |s| ==> Trimmable(s[j]))
    ensures r == [] || (!Trimmable(r[0]) && !Trimmable(r[|r| - 1]))
    ensures r == [] <==> forall j :: 0 <= j < |s| ==> Trimmable(s[j])
  {
    var a := TrimStart(s, 0);
    var b := TrimEnd(s, a, |s|);
    s[a..b]
  }

  /** A string that neither starts nor ends with a trimmable character is its own trim. */
  lemma TrimUnpadded(s: string)
    requires s == [] || (!Trimmable(s[0]) && !Trimmable(s[|s| - 1]))
    ensures Trim(s) == s
  {
    if s != [] {
      assert TrimStart(s, 0) == 0;
      assert TrimEnd(s, 0, |s|) == |s|;
    }
  }

  /** Trimming twice is trimming once. */
  lemma TrimIdempotent(s: string)
    ensures Trim(Trim(s)) == Trim(s)
  {
    TrimUnpadded(Trim(s));
  }

  // ------------------------------------------------------------ isBlank

  /** `Character.isWhitespace`: the Unicode space separators other than the no-break ones, and U+0009-U+000D, U+001C-U+001F. */
  predicate IsWhitespace(c: char) {
    || ('\t' <= c <= '\r')
    || ('\U{001C}' <= c <= ' ')
    || c == '\U{1680}'
    || ('\U{2000}' <= c <= '\U{2006}')
    || ('\U{2008}' <= c <= '\U{200A}')
    || c == '\U{2028}' || c == '\U{2029}' || c == '\U{205F}' || c == '\U{3000}'
  }

  /** `isBlank`: every character is white space, checked from the front. */
  predicate IsBlank(s: string): (b: bool)
    ensures b <==> forall j :: 0 <= j < |s| ==> IsWhitespace(s[j])
  {
    s == [] || (IsWhitespace(s[0]) && IsBlank(s[1..]))
  }

  /**
   * `isBlank` and `trim().isEmpty()` disagree: an ideographic space is blank
   * but survives `trim`, and a NUL is trimmed but is not blank.
   */
  lemma BlankIsNotTrimmedEmpty()
    ensures IsBlank("\U{3000}") && Trim("\U{3000}") != []
    ensures !IsBlank("\0") && Trim("\0") == []
  {
    assert !Trimmable("\U{3000}"[0]);
    assert !IsWhitespace("\0"[0]);
  }

  // ------------------------------------------------------- integer parsing

  predicate IsDigit(c: char) { '0' <= c <= '9' }

  predicate AllDigits(s: string) {
    forall j :: 0 <= j < |s| ==> IsDigit(s[j])
  }

  /** The value of a string of decimal digits, most significant first. */
  function DigitsValue(s: string): nat
    requires AllDigits(s)
  {
    if s == [] then 0 else DigitsValue(s[..|s| - 1]) * 10 + (s[|s| - 1] as int - '0' as int)
  }

  /**
   * `parseInt`/`parseLong` in radix 10 with the type's range [lo, hi]: an
   * optional sign, at least one digit, nothing else, and a value in range.
   */
  function ParseInteger(s: string, lo: int, hi: int): (r: Option<int>)
    ensures r.Some? ==> lo <= r.value <= hi
    ensures r.Some? ==> |s| > 0 && var digits := if s[0] == '-' || s[0] == '+' then s[1..] else s;
                                   digits != [] && AllDigits(digits)
  {
    if |s| == 0 then None
    else
      var digits := if s[0] == '-' || s[0] == '+' then s[1..] else s;
      if digits == [] || !AllDigits(digits) then None
      else
        var v: int := if s[0] == '-' then 0 - DigitsValue(digits) else DigitsValue(digits);
        if lo <= v <= hi then Some(v) else None
  }

  /**
   * The accepted texts are exactly a sign ("", "+" or "-") followed by one or
   * more digits whose signed value is in range, and the result is that value.
   */
  lemma ParseIntegerSigned(sign: string, digits: string, lo: int, hi: int)
    requires sign == "" || sign == "+" || sign == "-"
    requires digits != [] && AllDigits(digits)
    ensures var v := if sign == "-" then 0 - DigitsValue(digits) else DigitsValue(digits);
            ParseInteger(sign + digits, lo, hi) == if lo <= v <= hi then Some(v) else None
  {
    var s := sign + digits;
    if sign == "" {
      assert s == digits;
      assert IsDigit(digits[0]);
    } else {
      assert s[0] == sign[0];
      assert s[1..] == digits;
    }
  }

  function ParseInt(s: string): Option<int> { ParseInteger(s, IntMin, IntMax) }

  function ParseLong(s: string): Option<int> { ParseInteger(s, LongMin, LongMax) }

  /** The message of the `NumberFormatException` for the input `s`. */
  function NumberFormatMessage(s: string): string {
    "For input string: \"" + s + "\""
  }

  /** `Integer.parseInt(s)`, throwing on a malformed or out-of-range input. */
  function ParseIntOrThrow(s: string): (r: Result<int, string>)
    ensures r.Ok? ==> IntMin <= r.value <= IntMax && ParseInt(s) == Some(r.value)
    ensures r.Err? ==> ParseInt(s) == None && r.error == NumberFormatMessage(s)
  {
    match ParseInt(s)
    case Some(v) => Ok(v)
    case None => Err(NumberFormatMessage(s))
  }

  // ------------------------------------------------------- decimal rendering

  function DigitChar(d: nat): char
    requires d < 10
  {
    ('0' as int + d) as char
  }

  /** The shortest decimal digits of `n`. */
  function Digits(n: nat): (s: string)
    ensures |s| > 0 && AllDigits(s)
    ensures s[0] != '0' || n == 0
  {
    if n < 10 then [DigitChar(n)] else Digits(n / 10) + [DigitChar(n % 10)]
  }

  /** `Long.toString(n)`. */
  function Decimal(n: int): string {
    if n < 0 then "-" + Digits(-n) else Digits(n)
  }

  lemma {:induction false} DigitsValueOfDigits(n: nat)
    ensures DigitsValue(Digits(n)) == n
  {
    if n >= 10 {
      var s := Digits(n);
      assert s[..|s| - 1] == Digits(n / 10);
      DigitsValueOfDigits(n / 10);
    }
  }

  /** Every in-range integer written in decimal parses back to itself. */
  lemma ParseDecimal(n: int, lo: int, hi: int)
    requires lo <= n <= hi
    ensures ParseInteger(Decimal(n), lo, hi) == Some(n)
  {
    var s := Decimal(n);
    if n < 0 {
      assert s[1..] == Digits(-n);
      DigitsValueOfDigits(-n);
    } else {
      DigitsValueOfDigits(n);
    }
  }

  /** A decimal rendering has nothing to trim. */
  lemma TrimDecimal(n: int)
    ensures Trim(Decimal(n)) == Decimal(n)
  {
    var s := Decimal(n);
    if n < 0 {
      assert s[|s| - 1] == Digits(-n)[|Digits(-n)| - 1];
    }
    TrimUnpadded(s);
  }

  /** The edges of the accepted syntax. */
  lemma ParseIntExamples()
    ensures ParseInt("+7") == Some(7)
    ensures ParseInt("-0") == Some(0)
    ensures ParseInt("") == None
    ensures ParseInt("-") == None
    ensures ParseInt("1 2") == None
    ensures ParseInt("2147483648") == None
  {
    assert AllDigits("7") && DigitsValue("7") == 7;
    assert AllDigits("0") && DigitsValue("0") == 0;
    assert !AllDigits("1 2") by { assert !IsDigit("1 2"[1]); }
    var big := "2147483648";
    assert AllDigits(big);
    assert DigitsValue("2") == 2;
    assert "21"[..1] == "2";
    assert DigitsValue("21") == 21;
    assert "214"[..2] == "21";
    assert DigitsValue("214") == 214;
    assert "2147"[..3] == "214";
    assert DigitsValue("2147") == 2147;
    assert "21474"[..4] == "2147";
    assert DigitsValue("21474") == 21474;
    assert "214748"[..5] == "21474";
    assert DigitsValue("214748") == 214748;
    assert "2147483"[..6] == "214748";
    assert DigitsValue("2147483") == 2147483;
    assert "21474836"[..7] == "2147483";
    assert DigitsValue("21474836") == 21474836;
    assert "214748364"[..8] == "21474836";
    assert DigitsValue("214748364") == 214748364;
    assert "2147483648"[..9] == "214748364";
    assert DigitsValue(big) == 2147483648;
  }
}
