/**
 * Python's `int(text)` on a line the user typed, and `str(n)` as its inverse.
 * `int` strips surrounding white space, accepts one optional sign, then
 * decimal digits in which single underscores may separate two digits.
 */
module Numerals {
  import opened Options

  /**
   * The white space `int()` strips: the ASCII space and `\t\n\v\f\r`, and
   * the non-ASCII characters `str.isspace` accepts. The ASCII separators
   * U+001C to U+001F count as space for `str.isspace` but not for `int()`.
   */
  predicate IsSpace(c: char) {
    var n := c as int;
    n == 32 || 9 <= n <= 13 || n == 0x85 || n == 0xA0 || n == 0x1680
    || 0x2000 <= n <= 0x200A || n == 0x2028 || n == 0x2029 || n == 0x202F || n == 0x205F || n == 0x3000
  }

  predicate IsDigit(c: char) {
    '0' <= c <= '9'
  }

  /** Drops leading white space. */
  function TrimStart(s: string): string {
    if s != [] && IsSpace(s[0]) then TrimStart(s[1..]) else s
  }

  /** `TrimStart` drops a prefix made of white space, and stops at the first other character. */
  lemma {:induction false} TrimStartDropsSpace(s: string)
    ensures TrimStart(s) == [] || !IsSpace(TrimStart(s)[0])
    ensures |TrimStart(s)| <= |s| && TrimStart(s) == s[|s| - |TrimStart(s)|..]
    ensures forall i :: 0 <= i < |s| - |TrimStart(s)| ==> IsSpace(s[i])
  {
    if s != [] && IsSpace(s[0]) {
      TrimStartDropsSpace(s[1..]);
      assert forall i :: 1 <= i < |s| ==> s[i] == s[1..][i - 1];
    }
  }

  /** Drops trailing white space. */
  function TrimEnd(s: string): string {
    if s != [] && IsSpace(s[|s| - 1]) then TrimEnd(s[..|s| - 1]) else s
  }

  /** `TrimEnd` drops a suffix made of white space, and stops at the last other character. */
  lemma {:induction false} TrimEndDropsSpace(s: string)
    ensures TrimEnd(s) == [] || !IsSpace(TrimEnd(s)[|TrimEnd(s)| - 1])
    ensures |TrimEnd(s)| <= |s| && TrimEnd(s) == s[..|TrimEnd(s)|]
    ensures forall i :: |TrimEnd(s)| <= i < |s| ==> IsSpace(s[i])
  {
    if s != [] && IsSpace(s[|s| - 1]) {
      TrimEndDropsSpace(s[..|s| - 1]);
    }
  }

  function Strip(s: string): string {
    TrimEnd(TrimStart(s))
  }

  /** Decimal digits, with single underscores allowed between two digits. */
  predicate IsNumeral(s: string) {
    && |s| > 0
    && IsDigit(s[0])
    && IsDigit(s[|s| - 1])
    && (forall i :: 0 <= i < |s| ==> IsDigit(s[i]) || s[i] == '_')
    && (forall i :: 0 <= i < |s| - 1 ==> s[i] == '_' ==> s[i + 1] != '_')
  }

  /** The value of a numeral; underscores carry no value. */
  function NumeralValue(s: string): nat {
    if s == [] then 0
    else if IsDigit(s[|s| - 1]) then 10 * NumeralValue(s[..|s| - 1]) + (s[|s| - 1] as int - '0' as int)
    else NumeralValue(s[..|s| - 1])
  }

  /**
   * CPython's default bound on the number of decimal digits `int` reads and
   * `str` writes; leading zeros count, underscores do not.
   */
  const MaxStrDigits := 4300

  /** The digits after the sign: a numeral of at most `MaxStrDigits` digits, else `None`. */
  function ReadNumeral(u: string): Option<nat> {
    if IsNumeral(u) && |DigitsOf(u)| <= MaxStrDigits then Some(NumeralValue(u)) else None
  }

  /** `int(s)`; `None` where Python raises `ValueError`. */
  function ParseInt(s: string): Option<int> {
    var t := Strip(s);
    if t != [] && (t[0] == '+' || t[0] == '-') then
      var u := t[1..];
      match ReadNumeral(u)
      case None => None
      case Some(v) => Some(if t[0] == '-' then 0 - v else v)
    else ReadNumeral(t)
  }

  /** A line `int` accepts is, once stripped, non-empty and made of digits, signs and underscores. */
  lemma ParseIntShape(s: string)
    ensures ParseInt(s).Some? ==> Strip(s) != []
    ensures ParseInt(s).Some? ==> forall i :: 0 <= i < |Strip(s)| ==> IsDigit(Strip(s)[i]) || Strip(s)[i] in "+-_"
  {
    var t := Strip(s);
    if t != [] && (t[0] == '+' || t[0] == '-') {
      assert forall i :: 1 <= i < |t| ==> t[i] == t[1..][i - 1];
    }
  }

  /**
   * The lines `int` accepts: after stripping, an optional sign, then a
   * numeral of at most `MaxStrDigits` digits.
   */
  lemma ParseIntAccepts(s: string)
    ensures ParseInt(s).Some? <==>
      (|| (IsNumeral(Strip(s)) && |DigitsOf(Strip(s))| <= MaxStrDigits)
       || (&& |Strip(s)| > 0 && Strip(s)[0] in "+-"
           && IsNumeral(Strip(s)[1..]) && |DigitsOf(Strip(s)[1..])| <= MaxStrDigits))
  {
    var t := Strip(s);
    if IsNumeral(t) {
      assert t[0] !in "+-";
    }
  }

  /** The digits of `s`, in order, underscores dropped. */
  function DigitsOf(s: string): string {
    if s == [] then []
    else DigitsOf(s[..|s| - 1]) + if IsDigit(s[|s| - 1]) then [s[|s| - 1]] else []
  }

  /** Drops leading zeros, keeping the last digit. */
  function DropZeros(d: string): string {
    if |d| > 1 && d[0] == '0' then DropZeros(d[1..]) else d
  }

  /**
   * The canonical spelling of a line `int` accepts: stripped, with a `+`
   * sign, the underscores and the leading zeros removed, and a `-` sign
   * kept only in front of a value other than zero.
   */
  function Canonical(s: string): string {
    var t := Strip(s);
    if |t| > 0 && t[0] in "+-" then
      var m := DropZeros(DigitsOf(t[1..]));
      if t[0] == '-' && m != "0" then "-" + m else m
    else DropZeros(DigitsOf(t))
  }

  lemma {:induction false} DigitsOfValue(s: string)
    ensures NumeralValue(DigitsOf(s)) == NumeralValue(s)
    ensures forall i :: 0 <= i < |DigitsOf(s)| ==> IsDigit(DigitsOf(s)[i])
    ensures IsNumeral(s) ==> DigitsOf(s) != []
  {
    if s != [] {
      var init, c := s[..|s| - 1], s[|s| - 1];
      DigitsOfValue(init);
      if IsDigit(c) {
        var d := DigitsOf(s);
        assert d == DigitsOf(init) + [c];
        assert d[..|d| - 1] == DigitsOf(init);
      } else {
        assert DigitsOf(s) == DigitsOf(init);
      }
    }
  }

  /** A string of digits only is its own digits. */
  lemma {:induction false} DigitsOfDigits(s: string)
    requires forall i :: 0 <= i < |s| ==> IsDigit(s[i])
    ensures DigitsOf(s) == s
  {
    if s != [] {
      DigitsOfDigits(s[..|s| - 1]);
    }
  }

  lemma {:induction false} ZerosValue(d: string)
    requires forall i :: 0 <= i < |d| ==> d[i] == '0'
    ensures NumeralValue(d) == 0
  {
    if d != [] {
      ZerosValue(d[..|d| - 1]);
    }
  }

  lemma {:induction false} ValueZeroIsZeros(d: string)
    requires forall i :: 0 <= i < |d| ==> IsDigit(d[i])
    requires NumeralValue(d) == 0
    ensures forall i :: 0 <= i < |d| ==> d[i] == '0'
  {
    if d != [] {
      var init := d[..|d| - 1];
      ValueZeroIsZeros(init);
      assert forall i :: 0 <= i < |init| ==> d[i] == init[i];
    }
  }

  lemma {:induction false} DropZerosOfZeros(d: string, c: char)
    requires forall i :: 0 <= i < |d| ==> d[i] == '0'
    ensures DropZeros(d + [c]) == [c]
  {
    if d != [] {
      assert (d + [c])[1..] == d[1..] + [c];
      DropZerosOfZeros(d[1..], c);
    }
  }

  lemma {:induction false} DropZerosSnoc(d: string, c: char)
    requires exists i :: 0 <= i < |d| && d[i] != '0'
    ensures DropZeros(d + [c]) == DropZeros(d) + [c]
  {
    if d[0] == '0' {
      var i :| 0 <= i < |d| && d[i] != '0';
      assert d[1..][i - 1] == d[i];
      assert (d + [c])[1..] == d[1..] + [c];
      DropZerosSnoc(d[1..], c);
    }
  }

  /** Writing the value of a digit string gives the digits without leading zeros. */
  lemma {:induction false} ShowNatOfDigits(d: string)
    requires d != [] && forall i :: 0 <= i < |d| ==> IsDigit(d[i])
    ensures ShowNat(NumeralValue(d)) == DropZeros(d)
  {
    var init, c := d[..|d| - 1], d[|d| - 1];
    var v := NumeralValue(init);
    assert d == init + [c];
    if v == 0 {
      ValueZeroIsZeros(init);
      DropZerosOfZeros(init, c);
      assert DigitChar(c as int - '0' as int) == c;
    } else {
      if forall i :: 0 <= i < |init| ==> init[i] == '0' {
        ZerosValue(init);
      }
      ShowNatOfDigits(init);
      DropZerosSnoc(init, c);
      var n := 10 * v + (c as int - '0' as int);
      assert n / 10 == v && n % 10 == c as int - '0' as int;
      assert DigitChar(c as int - '0' as int) == c;
    }
  }

  /** A numeral's value, written back, is its digits without leading zeros. */
  lemma NumeralCanonical(u: string)
    requires IsNumeral(u)
    ensures ShowNat(NumeralValue(u)) == DropZeros(DigitsOf(u))
  {
    DigitsOfValue(u);
    ShowNatOfDigits(DigitsOf(u));
  }

  /** `str` writes back what `int` read in its canonical spelling. */
  lemma ParseIntReadsCanonical(s: string)
    requires ParseInt(s).Some?
    ensures Show(ParseInt(s).value) == Canonical(s)
  {
    var t := Strip(s);
    if |t| > 0 && t[0] in "+-" {
      var u := t[1..];
      var v: int := NumeralValue(u);
      assert IsNumeral(u) && ParseInt(s).value == if t[0] == '-' then -v else v;
      NumeralCanonical(u);
      if t[0] == '-' && v != 0 {
        assert |ShowNat(v)| > 1 || ShowNat(v)[0] != '0';
      }
    } else {
      assert IsNumeral(t) && ParseInt(s).value == NumeralValue(t);
      NumeralCanonical(t);
    }
  }

  /** Two underscores in a row are refused. */
  lemma ParseIntRefusesDoubleUnderscore(s: string, i: nat)
    requires i + 1 < |Strip(s)| && Strip(s)[i] == '_' && Strip(s)[i + 1] == '_'
    ensures ParseInt(s) == None
  {
    ParseIntAccepts(s);
    var t := Strip(s);
    if t[0] in "+-" {
      var u := t[1..];
      assert u[i - 1] == '_' && u[i] == '_';
    }
  }

  /** A leading underscore is refused. */
  lemma ParseIntRefusesLeadingUnderscore(s: string)
    requires |Strip(s)| > 0 && Strip(s)[0] == '_'
    ensures ParseInt(s) == None
  {
    ParseIntAccepts(s);
  }

  /** A second sign is refused. */
  lemma ParseIntRefusesTwoSigns(s: string)
    requires |Strip(s)| > 1 && Strip(s)[0] in "+-" && Strip(s)[1] in "+-"
    ensures ParseInt(s) == None
  {
    ParseIntAccepts(s);
    var u := Strip(s)[1..];
    assert !IsDigit(u[0]);
  }

  /** An ASCII separator is not white space for `int`: a line starting with U+001C is refused. */
  lemma ParseIntRefusesSeparator(s: string)
    requires |s| > 0 && s[0] == '\U{1c}'
    ensures ParseInt(s) == None
  {
    ParseIntAccepts(s);
    assert TrimStart(s) == s;
    TrimEndDropsSpace(s);
    var t := Strip(s);
    if t != [] {
      assert t[0] == s[0];
    }
  }

  /** A leading zero keeps a numeral a numeral, of the same value. */
  lemma {:induction false} LeadingZeroValue(u: string)
    ensures IsNumeral(u) ==> IsNumeral("0" + u)
    ensures NumeralValue("0" + u) == NumeralValue(u)
  {
    var z := "0" + u;
    assert forall i :: 1 <= i < |z| ==> z[i] == u[i - 1];
    if u == [] {
      assert z[..0] == [];
    } else {
      assert z[..|z| - 1] == "0" + u[..|u| - 1];
      LeadingZeroValue(u[..|u| - 1]);
    }
  }

  function DigitChar(d: nat): (c: char)
    requires d < 10
    ensures IsDigit(c) && c as int - '0' as int == d
  {
    ('0' as int + d) as char
  }

  /** Python's `str(n)` for a natural number. */
  function ShowNat(n: nat): (s: string)
    ensures |s| > 0
  {
    if n < 10 then [DigitChar(n)] else ShowNat(n / 10) + [DigitChar(n % 10)]
  }

  /** Python's `str(n)`. */
  function Show(n: int): string {
    if n < 0 then "-" + ShowNat(-n) else ShowNat(n)
  }

  lemma {:induction false} ShowNatIsNumeral(n: nat)
    ensures IsNumeral(ShowNat(n)) && NumeralValue(ShowNat(n)) == n
    ensures forall i :: 0 <= i < |ShowNat(n)| ==> IsDigit(ShowNat(n)[i])
  {
    var s := ShowNat(n);
    if n >= 10 {
      ShowNatIsNumeral(n / 10);
      var p := ShowNat(n / 10);
      assert s[..|s| - 1] == p;
      assert forall i :: 0 <= i < |p| ==> s[i] == p[i];
    }
  }

  lemma StripIdentity(s: string)
    requires s != [] && !IsSpace(s[0]) && !IsSpace(s[|s| - 1])
    ensures Strip(s) == s
  {
  }

  /** `str` of a natural number, read without a sign, gives the number back. */
  lemma ReadShowNat(n: nat)
    requires |ShowNat(n)| <= MaxStrDigits
    ensures ReadNumeral(ShowNat(n)) == Some(n)
  {
    ShowNatIsNumeral(n);
    DigitsOfDigits(ShowNat(n));
  }

  lemma ParseShowNat(n: nat)
    requires |ShowNat(n)| <= MaxStrDigits
    ensures ParseInt(ShowNat(n)) == Some(n)
  {
    var s := ShowNat(n);
    ReadShowNat(n);
    ShowNatIsNumeral(n);
    StripIdentity(s);
    assert IsDigit(s[0]);
  }

  /** What `str` prints, `int` reads back; `str` writes at most `MaxStrDigits` digits. */
  lemma ParseShow(n: int)
    requires |ShowNat(if n < 0 then -n else n)| <= MaxStrDigits
    ensures ParseInt(Show(n)) == Some(n)
  {
    if n < 0 {
      ParseNegative(-n);
    } else {
      ParseShowNat(n);
    }
  }

  lemma ParseNegative(n: nat)
    requires |ShowNat(n)| <= MaxStrDigits
    ensures ParseInt("-" + ShowNat(n)) == Some(0 - n)
  {
    var m := ShowNat(n);
    var s := "-" + m;
    ReadShowNat(n);
    ShowNatIsNumeral(n);
    assert s[1..] == m && s[0] == '-';
    StripIdentity(s);
  }
}
