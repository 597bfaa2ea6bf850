/** `hex(n)`, `f"{n}"` and `int(s, 0)` over ASCII text. */
module PyInt {
  import opened Wrappers

  function DigitChar(d: nat): char
    requires d < 16
  {
    if d < 10 then ('0' as int + d) as char else ('a' as int + d - 10) as char
  }

  datatype Base = Bin | Octal | Decimal | Hexadecimal {
    function Size(): nat {
      match this
      case Bin => 2
      case Octal => 8
      case Decimal => 10
      case Hexadecimal => 16
    }

    function Quotient(n: nat): nat {
      match this
      case Bin => n / 2
      case Octal => n / 8
      case Decimal => n / 10
      case Hexadecimal => n / 16
    }

    function Remainder(n: nat): (r: nat)
      ensures r < Size()
    {
      match this
      case Bin => n % 2
      case Octal => n % 8
      case Decimal => n % 10
      case Hexadecimal => n % 16
    }

    /** One more digit at the end. */
    function Append(n: nat, d: nat): nat {
      match this
      case Bin => 2 * n + d
      case Octal => 8 * n + d
      case Decimal => 10 * n + d
      case Hexadecimal => 16 * n + d
    }
  }

  /** The digits of n, most significant first; "0" for zero. */
  function Digits(n: nat, base: Base): (s: string)
    ensures s != ""
    decreases n
  {
    if n < base.Size() then [DigitChar(n)] else Digits(base.Quotient(n), base) + [DigitChar(base.Remainder(n))]
  }

  function Hex(n: nat): string { "0x" + Digits(n, Hexadecimal) }

  function Dec(n: nat): string { Digits(n, Decimal) }

  function DigitOf(c: char, base: Base): Option<nat> {
    var d := if '0' <= c <= '9' then c as int - '0' as int
             else if 'a' <= c <= 'f' then c as int - 'a' as int + 10
             else if 'A' <= c <= 'F' then c as int - 'A' as int + 10
             else 16;
    if d < base.Size() then Some(d) else None
  }

  /** Digits separated by single underscores, read right to left. */
  function ParseDigits(s: string, base: Base): Option<nat>
    decreases |s|
  {
    if s == "" then None
    else
      var d :- DigitOf(s[|s| - 1], base);
      var init := s[..|s| - 1];
      if init == "" then Some(d)
      else
        var init' := if init[|init| - 1] == '_' then init[..|init| - 1] else init;
        var n :- ParseDigits(init', base);
        Some(base.Append(n, d))
  }

  predicate IsSpace(c: char) { c == ' ' || '\t' <= c <= '\r' }

  function Strip(s: string): string
    decreases |s|
  {
    if s == "" then s
    else if IsSpace(s[0]) then Strip(s[1..])
    else if IsSpace(s[|s| - 1]) then Strip(s[..|s| - 1])
    else s
  }

  /** An unsigned literal: a base prefix decides, and decimals have no leading zero unless they are zero. */
  function ParseNat(s: string): Option<nat> {
    if |s| >= 2 && s[0] == '0' && s[1] in "xXoObB" then
      var base := if s[1] in "xX" then Hexadecimal else if s[1] in "oO" then Octal else Bin;
      var body := s[2..];
      ParseDigits(if body != "" && body[0] == '_' then body[1..] else body, base)
    else
      var n :- ParseDigits(s, Decimal);
      if s[0] == '0' && n != 0 then None else Some(n)
  }

  /** int(s, 0) */
  function ParseInt(s: string): Option<int> {
    var t := Strip(s);
    if t != "" && t[0] in "+-" then
      var n :- ParseNat(t[1..]);
      var v: int := if t[0] == '-' then 0 - (n as int) else n;
      Some(v)
    else
      var n :- ParseNat(t);
      var v: int := n;
      Some(v)
  }

  predicate IsDigit(c: char, base: Base) { '0' <= c <= '9' || (base == Hexadecimal && 'a' <= c <= 'f') }

  lemma DigitRoundTrip(d: nat, base: Base)
    requires d < base.Size()
    ensures DigitOf(DigitChar(d), base) == Some(d) && IsDigit(DigitChar(d), base)
    ensures DigitChar(d) == '0' ==> d == 0
  {
  }

  lemma {:induction false} ParseDigitsRoundTrip(n: nat, base: Base)
    ensures ParseDigits(Digits(n, base), base) == Some(n)
    ensures forall i :: 0 <= i < |Digits(n, base)| ==> IsDigit(Digits(n, base)[i], base)
    ensures Digits(n, base)[0] == '0' ==> n == 0
    decreases n
  {
    hide DigitOf, DigitChar;
    if n < base.Size() {
      DigitRoundTrip(n, base);
      assert Digits(n, base)[..0] == "";
    } else {
      var q, d := base.Quotient(n), base.Remainder(n);
      assert 0 < q < n && n == base.Append(q, d);
      ParseDigitsRoundTrip(q, base);
      DigitRoundTrip(d, base);
      ParseDigitsAppend(Digits(q, base), DigitChar(d), base, q, d);
    }
  }

  /** One more digit character is one more digit. */
  lemma ParseDigitsAppend(i: string, c: char, base: Base, n: nat, d: nat)
    requires i != "" && i[|i| - 1] != '_' && ParseDigits(i, base) == Some(n) && DigitOf(c, base) == Some(d)
    ensures ParseDigits(i + [c], base) == Some(base.Append(n, d))
  {
    hide DigitOf;
    assert (i + [c])[..|i|] == i;
  }

  lemma StripNoSpace(s: string)
    requires s != "" ==> !IsSpace(s[0]) && !IsSpace(s[|s| - 1])
    ensures Strip(s) == s
  {
  }

  lemma ParseHex(n: nat)
    ensures ParseInt(Hex(n)) == Some(n)
  {
    hide Digits, ParseDigits, Strip;
    ParseDigitsRoundTrip(n, Hexadecimal);
    var h := Digits(n, Hexadecimal);
    assert IsDigit(h[|h| - 1], Hexadecimal) && IsDigit(h[0], Hexadecimal);
    StripNoSpace(Hex(n));
    assert Hex(n)[2..] == h;
  }

  lemma ParseDec(n: nat)
    ensures ParseInt(Dec(n)) == Some(n)
  {
    hide Digits, ParseDigits, Strip;
    ParseDigitsRoundTrip(n, Decimal);
    var d := Digits(n, Decimal);
    assert IsDigit(d[|d| - 1], Decimal) && IsDigit(d[0], Decimal);
    assert |d| >= 2 ==> IsDigit(d[1], Decimal);
    StripNoSpace(Dec(n));
  }

  function Pow16(n: nat): (p: nat)
    ensures p > 0
  {
    if n == 0 then 1 else 16 * Pow16(n - 1)
  }

  lemma {:induction false} Pow16Mono(a: nat, b: nat)
    requires a <= b
    ensures Pow16(a) <= Pow16(b)
  {
    if a < b {
      Pow16Mono(a, b - 1);
    }
  }

  lemma {:induction false} ParseDigitsBound(s: string, base: Base)
    requires ParseDigits(s, base).Some?
    ensures s != "" && ParseDigits(s, base).value < Pow16(|s|)
    decreases |s|
  {
    hide DigitOf;
    assert forall c :: DigitOf(c, base).Some? ==> DigitOf(c, base).value < base.Size() by { DigitBound(base); }
    var init := s[..|s| - 1];
    assert Pow16(|s|) == 16 * Pow16(|init|);
    if init != "" {
      var init' := if init[|init| - 1] == '_' then init[..|init| - 1] else init;
      ParseDigitsBound(init', base);
      Pow16Mono(|init'|, |init|);
    }
  }

  lemma DigitBound(base: Base)
    ensures forall c :: DigitOf(c, base).Some? ==> DigitOf(c, base).value < base.Size()
  {
  }

  lemma {:induction false} StripShorter(s: string)
    ensures |Strip(s)| <= |s|
    decreases |s|
  {
    if s != "" {
      if IsSpace(s[0]) {
        StripShorter(s[1..]);
      } else if IsSpace(s[|s| - 1]) {
        StripShorter(s[..|s| - 1]);
      }
    }
  }

  /** A literal of k characters is below 16^k. */
  lemma ParseIntBound(s: string)
    requires ParseInt(s).Some?
    ensures s != "" && ParseInt(s).value < Pow16(|s|)
  {
    StripShorter(s);
    var t := Strip(s);
    var u := if t != "" && t[0] in "+-" then t[1..] else t;
    if |u| >= 2 && u[0] == '0' && u[1] in "xXoObB" {
      var base := if u[1] in "xX" then Hexadecimal else if u[1] in "oO" then Octal else Bin;
      var body := u[2..];
      var b := if body != "" && body[0] == '_' then body[1..] else body;
      ParseDigitsBound(b, base);
      Pow16Mono(|b|, |s|);
    } else {
      ParseDigitsBound(u, Decimal);
      Pow16Mono(|u|, |s|);
    }
  }

  // ---- the spellings, letter by letter ----

  /** Digits are lower-case and start with a zero only for zero. */
  lemma Alphabet(n: nat, base: Base)
    ensures forall d: nat :: d < 16 ==> DigitChar(d) == "0123456789abcdef"[d]
    ensures Digits(n, base)[0] == '0' ==> Digits(n, base) == "0"
    ensures n >= base.Size() ==>
      var q := Digits(n, base);
      && |q| >= 2 && q[..|q| - 1] == Digits(base.Quotient(n), base)
      && q[|q| - 1] == "0123456789abcdef"[n % base.Size()]
  {
    hide ParseDigits;
    ParseDigitsRoundTrip(n, base);
  }

  function Prefix(base: Base, upper: bool): string {
    match base
    case Bin => if upper then "0B" else "0b"
    case Octal => if upper then "0O" else "0o"
    case Decimal => ""
    case Hexadecimal => if upper then "0X" else "0x"
  }

  lemma PrefixedNat(n: nat, base: Base, upper: bool)
    ensures ParseNat(Prefix(base, upper) + Digits(n, base)) == Some(n)
  {
    hide Digits, ParseDigits;
    ParseDigitsRoundTrip(n, base);
    var d := Digits(n, base);
    assert IsDigit(d[0], base);
    assert |d| >= 2 ==> IsDigit(d[1], base);
    assert (Prefix(base, upper) + d)[|Prefix(base, upper)|..] == d;
  }

  /** Every base with either prefix, and a sign, is read. */
  lemma SignedLiterals(n: nat, base: Base, upper: bool)
    ensures var t := Prefix(base, upper) + Digits(n, base);
      && ParseInt(t) == Some(n) && ParseInt("+" + t) == Some(n) && ParseInt("-" + t) == Some(0 - (n as int))
  {
    hide Digits, ParseDigits, ParseNat, Strip;
    ParseDigitsRoundTrip(n, base);
    PrefixedNat(n, base, upper);
    var d := Digits(n, base);
    var t := Prefix(base, upper) + d;
    assert IsDigit(d[0], base) && IsDigit(d[|d| - 1], base);
    assert t[|t| - 1] == d[|d| - 1];
    StripNoSpace(t);
    StripNoSpace("+" + t);
    StripNoSpace("-" + t);
    assert ("+" + t)[1..] == t && ("-" + t)[1..] == t;
  }

  /** White space around a literal does not matter. */
  lemma {:induction false} SpacesAround(s: string, c: char)
    requires c in " \t\n\r"
    ensures ParseInt([c] + s) == ParseInt(s) && ParseInt(s + [c]) == ParseInt(s)
  {
    hide ParseNat;
    assert ([c] + s)[1..] == s;
    StripBehind(s, c);
  }

  lemma {:induction false} StripBehind(s: string, c: char)
    requires IsSpace(c)
    ensures Strip(s + [c]) == Strip(s)
    decreases |s|
  {
    if s == "" {
      assert (s + [c])[1..] == "";
    } else if IsSpace(s[0]) {
      assert (s + [c])[1..] == s[1..] + [c];
      StripBehind(s[1..], c);
    } else {
      assert (s + [c])[..|s|] == s;
    }
  }

  lemma OneDigit(c: char, base: Base)
    requires DigitOf(c, base).Some?
    ensures ParseDigits([c], base) == DigitOf(c, base)
  {
    assert [c][..0] == "";
  }

  lemma DecimalUnderscores()
    ensures ParseDigits("1_0", Decimal) == Some(10) && ParseDigits("1_", Decimal).None?
    ensures ParseDigits("1__0", Decimal).None? && ParseDigits("_1", Decimal).None?
  {
    assert DigitOf('1', Decimal) == Some(1) && DigitOf('0', Decimal) == Some(0) && DigitOf('_', Decimal).None?;
    OneDigit('1', Decimal);
    assert "1_0"[..2] == "1_" && "1_"[..1] == "1" && "1__0"[..3] == "1__" && "1__"[..2] == "1_" && "_1"[..1] == "_";
    assert "_"[..0] == "";
    hide DigitOf;
    assert ParseDigits("1_", Decimal).None? && ParseDigits("", Decimal).None?;
  }

  lemma HexDigits()
    ensures ParseDigits("1f", Hexadecimal) == Some(31)
  {
    assert DigitOf('1', Hexadecimal) == Some(1) && DigitOf('f', Hexadecimal) == Some(15);
    OneDigit('1', Hexadecimal);
    assert "1f"[..1] == "1";
  }

  /** One underscore between digits is read over. */
  lemma Underscores()
    ensures ParseInt("1_0") == Some(10) && ParseInt("0x_1f") == Some(31)
    ensures ParseInt("1__0").None? && ParseInt("_1").None? && ParseInt("1_").None?
  {
    hide ParseDigits;
    DecimalUnderscores();
    HexDigits();
    assert "0x_1f"[2..] == "_1f" && "_1f"[1..] == "1f";
  }

  /** No digits and digits of another base are refused. */
  lemma Refused()
    ensures ParseInt("").None? && ParseInt("0x").None?
    ensures ParseInt("0b2").None? && ParseInt("0o8").None? && ParseInt("1f").None?
  {
    assert DigitOf('2', Bin).None? && DigitOf('8', Octal).None? && DigitOf('f', Decimal).None?;
    assert "0x"[2..] == "" && "0b2"[2..] == "2" && "0o8"[2..] == "8";
    hide DigitOf;
    assert ParseDigits("2", Bin).None? && ParseDigits("8", Octal).None? && ParseDigits("1f", Decimal).None?;
    hide ParseDigits;
  }

  lemma ZeroDigits()
    ensures ParseDigits("017", Decimal) == Some(17) && ParseDigits("00", Decimal) == Some(0)
  {
    assert DigitOf('0', Decimal) == Some(0) && DigitOf('1', Decimal) == Some(1) && DigitOf('7', Decimal) == Some(7);
    OneDigit('0', Decimal);
    assert "017"[..2] == "01" && "01"[..1] == "0" && "00"[..1] == "0";
    hide DigitOf;
    assert ParseDigits("01", Decimal) == Some(1);
  }

  /** Leading zeros are idle unless the number is zero. */
  lemma LeadingZeros()
    ensures ParseInt("017").None? && ParseInt("00") == Some(0)
  {
    hide ParseDigits;
    ZeroDigits();
  }

  function LowerDigit(d: nat): char
    requires d < 16
  {
    "0123456789abcdef"[d]
  }

  function UpperDigit(d: nat): char
    requires d < 16
  {
    "0123456789ABCDEF"[d]
  }

  lemma DigitCodes(d: nat)
    requires d < 16
    ensures LowerDigit(d) as int == if d < 10 then 48 + d else 87 + d
    ensures UpperDigit(d) as int == if d < 10 then 48 + d else 55 + d
  {
  }

  /** Letters in either case are digits, of the bases they are small enough for. */
  lemma DigitsRead(d: nat, base: Base)
    requires d < 16
    ensures DigitOf(LowerDigit(d), base) == (if d < base.Size() then Some(d) else None)
    ensures DigitOf(UpperDigit(d), base) == (if d < base.Size() then Some(d) else None)
  {
    DigitCodes(d);
    hide LowerDigit, UpperDigit;
  }

  /** Nothing else is a digit. */
  lemma OnlyDigits(c: char, base: Base)
    requires DigitOf(c, base).Some?
    ensures var d := DigitOf(c, base).value; d < 16 && (c == LowerDigit(d) || c == UpperDigit(d))
  {
    var d := DigitOf(c, base).value;
    DigitCodes(d);
    hide LowerDigit, UpperDigit;
  }
}
