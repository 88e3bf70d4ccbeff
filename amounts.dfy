/**
 * Amount parsing and the two number conventions of the payslip ledger
 * (app2.py): `_to_float` (lines 76-80), `en_us_format` (lines 89-90) and
 * `formatar_valor_brl` (lines 111-117).
 *
 * Amounts are exact: Python's `float()` is modelled on the decimal subset
 * of its grammar and read as an exact real, and a formatted amount is an
 * integer number of hundredths.
 */
module Amounts {
  import opened Text
  import opened Wrappers

  /** A number as Python's `float()` reads it from `[+-]? (D+ ('.' D*)? | '.' D+)`:
      its sign and its integer and fraction digits. */
  datatype Decimal = Decimal(negative: bool, whole: string, frac: string)
  {
    ghost predicate Valid() {
      AllDigits(whole) && AllDigits(frac) && (whole != [] || frac != [])
    }

    /** The absolute value. */
    function Magnitude(): (m: real)
      requires Valid()
      ensures m >= 0.0
    {
      DigitsValue(whole) as real + DigitsValue(frac) as real / Pow10(|frac|) as real
    }

    function Value(): real
      requires Valid()
    {
      if negative then -Magnitude() else Magnitude()
    }
  }

  /** The unsigned part of `float()`'s decimal grammar: `D+ ('.' D*)? | '.' D+`. */
  function ParseUnsigned(body: string, negative: bool): (r: Option<Decimal>)
    ensures r.Some? ==> r.value.Valid() && r.value.negative == negative
  {
    var i := IndexOf(body, '.');
    var whole := body[..i];
    var frac := if i < |body| then body[i + 1..] else [];
    if AllDigits(whole) && AllDigits(frac) && (whole != [] || frac != []) then
      Some(Decimal(negative, whole, frac))
    else None
  }

  /** Python's `float(s)` on the decimal subset of its grammar, surrounding whitespace
      allowed; anything else is a failure (`None`). */
  function ParseFloat(s: string): (r: Option<Decimal>)
    ensures r.Some? ==> r.value.Valid()
  {
    var u := Strip(s);
    if u != [] && (u[0] == '-' || u[0] == '+') then ParseUnsigned(u[1..], u[0] == '-')
    else ParseUnsigned(u, false)
  }

  /** The unsigned text that `float()`'s decimal grammar accepts, stated character by
      character: digits and at most one point, with at least one digit. */
  predicate DecimalBody(b: string)
  {
    && (forall i :: 0 <= i < |b| ==> IsDigit(b[i]) || b[i] == '.')
    && (forall i, j :: 0 <= i < j < |b| && b[i] == '.' ==> b[j] != '.')
    && (exists i :: 0 <= i < |b| && IsDigit(b[i]))
  }

  /** The text without its leading sign, if it has one. */
  function Unsigned(u: string): string
  {
    if u != [] && (u[0] == '-' || u[0] == '+') then u[1..] else u
  }

  /** Digits, an optional point and digits, with at least one digit, form a decimal body. */
  lemma DecimalOfParts(whole: string, frac: string, point: bool)
    requires AllDigits(whole) && AllDigits(frac) && (whole != [] || frac != [])
    ensures var b := whole + (if point then "." else "") + frac;
      DecimalBody(b) && ('.' in b <==> point)
  {
    var p: string := if point then "." else "";
    var b := whole + p + frac;
    assert forall j :: 0 <= j < |whole| ==> b[j] == whole[j];
    assert forall j :: |whole| + |p| <= j < |b| ==> b[j] == frac[j - |whole| - |p|];
    if whole != [] {
      assert IsDigit(b[0]);
    } else {
      assert IsDigit(b[|p|]);
    }
  }

  /** What `ParseUnsigned` accepts is a decimal body, split at its point. */
  lemma ParseUnsignedSound(body: string, negative: bool)
    requires ParseUnsigned(body, negative).Some?
    ensures DecimalBody(body)
    ensures var d := ParseUnsigned(body, negative).value;
      body == d.whole + (if '.' in body then "." else "") + d.frac
  {
    var i := IndexOf(body, '.');
    var whole := body[..i];
    var frac := if i < |body| then body[i + 1..] else [];
    assert body == whole + (if i < |body| then "." else "") + frac;
    DecimalOfParts(whole, frac, i < |body|);
  }

  /** Every decimal body is accepted. */
  lemma ParseUnsignedComplete(body: string, negative: bool)
    requires DecimalBody(body)
    ensures ParseUnsigned(body, negative).Some?
  {
    var i := IndexOf(body, '.');
    var whole := body[..i];
    var k :| 0 <= k < |body| && IsDigit(body[k]);
    assert forall j :: 0 <= j < |whole| ==> whole[j] == body[j];
    if i < |body| {
      var frac := body[i + 1..];
      assert forall j :: 0 <= j < |frac| ==> frac[j] == body[i + 1 + j];
      if k > i {
        assert frac != [];
      }
    }
  }

  /** `ParseUnsigned` accepts exactly the decimal bodies, and splits one at its point. */
  lemma ParseUnsignedIff(body: string, negative: bool)
    ensures ParseUnsigned(body, negative).Some? <==> DecimalBody(body)
    ensures ParseUnsigned(body, negative).Some? ==>
      var d := ParseUnsigned(body, negative).value;
      body == d.whole + (if '.' in body then "." else "") + d.frac
  {
    if ParseUnsigned(body, negative).Some? {
      ParseUnsignedSound(body, negative);
    }
    if DecimalBody(body) {
      ParseUnsignedComplete(body, negative);
    }
  }

  /** `float()` succeeds exactly on an optionally signed decimal body (after stripping
      whitespace), and reads its sign and its digits on either side of the point. */
  lemma ParseFloatIff(s: string)
    ensures var u := Strip(s);
      ParseFloat(s).Some? <==> DecimalBody(Unsigned(u))
    ensures var u := Strip(s);
      ParseFloat(s).Some? ==>
        var d := ParseFloat(s).value;
        && (d.negative <==> u[0] == '-')
        && Unsigned(u) == d.whole + (if '.' in Unsigned(u) then "." else "") + d.frac
  {
    var u := Strip(s);
    if u != [] && (u[0] == '-' || u[0] == '+') {
      ParseUnsignedIff(u[1..], u[0] == '-');
    } else {
      ParseUnsignedIff(u, false);
    }
  }

  /** `_to_float`: every ',' becomes '.', the result is stripped and read by `float()`;
      a failure counts as 0. */
  function ToFloat(x: string): real
  {
    OrZero(ParseFloat(Strip(ReplaceAll(x, ",", "."))))
  }

  /** The parse-or-default rule of `_to_float`. */
  function OrZero(r: Option<Decimal>): real
    requires r.Some? ==> r.value.Valid()
  {
    match r
    case Some(d) => d.Value()
    case None => 0.0
  }

  /** Round half to even, on a non-negative exact value. */
  function RoundHalfEven(x: real): (n: nat)
    requires x >= 0.0
    ensures n as real - 0.5 <= x <= n as real + 0.5
    ensures n == x.Floor || n == x.Floor + 1
    ensures x - x.Floor as real == 0.5 ==> n % 2 == 0
  {
    var f := x.Floor;
    var d := x - f as real;
    if d < 0.5 then f
    else if d > 0.5 then f + 1
    else if f % 2 == 0 then f
    else f + 1
  }

  lemma RoundExact(n: nat)
    ensures RoundHalfEven(n as real) == n
  {
    assert (n as real).Floor == n;
  }

  /** The integer part `q` in groups of three digits, separated by `sep`. */
  function Group(q: nat, sep: char): (s: string)
    ensures s != []
  {
    if q < 1000 then NatToString(q) else Group(q / 1000, sep) + [sep] + Fixed(q % 1000, 3)
  }

  /** `m` hundredths with sign, `thousands` between groups of the integer part and
      `decimal` before exactly two fraction digits. */
  function FormatWith(negative: bool, m: nat, thousands: char, decimal: char): string
  {
    (if negative then "-" else "") + Group(m / 100, thousands) + [decimal] + Fixed(m % 100, 2)
  }

  /** en-US convention: "1,234.56". */
  function FormatEnUs(negative: bool, m: nat): string { FormatWith(negative, m, ',', '.') }

  /** Brazilian convention: "1.234,56". */
  function FormatBr(negative: bool, m: nat): string { FormatWith(negative, m, '.', ',') }

  /** `f"{x:,.2f}"` (`en_us_format`) for a value with sign flag `negative` and magnitude `mag`;
      Python keeps the sign of a negative value that rounds to zero. */
  function FormatFloat(negative: bool, mag: real): string
    requires mag >= 0.0
  {
    FormatEnUs(negative, RoundHalfEven(mag * 100.0))
  }

  /** `en_us_format(x)` for an exact value `x`. */
  function EnUsFormat(x: real): string
  {
    FormatFloat(x < 0.0, if x < 0.0 then -x else x)
  }

  /** A negative amount is the minus sign before the rendering of its magnitude. */
  lemma FormatSigned(m: nat, thousands: char, decimal: char)
    ensures FormatWith(true, m, thousands, decimal) == ['-'] + FormatWith(false, m, thousands, decimal)
  {
    var body := Group(m / 100, thousands) + [decimal] + Fixed(m % 100, 2);
    assert FormatWith(false, m, thousands, decimal) == body;
  }

  /** A value that is a whole number of hundredths renders as exactly those hundredths. */
  lemma {:induction false} EnUsFormatHundredths(x: real, n: int)
    requires x == n as real / 100.0
    ensures EnUsFormat(x) == FormatEnUs(n < 0, if n < 0 then -n else n)
  {
    var m: nat := if n < 0 then -n else n;
    ScaledHundredths(x, n);
    var mag := if x < 0.0 then -x else x;
    RoundExact(m);
    assert RoundHalfEven(mag * 100.0) == m;
    assert EnUsFormat(x) == FormatFloat(n < 0, mag);
  }

  /** Its double renders as twice those hundredths. */
  lemma {:induction false} EnUsFormatDouble(x: real, n: int)
    requires x == n as real / 100.0
    ensures EnUsFormat(2.0 * x) == FormatEnUs(n < 0, if n < 0 then -2 * n else 2 * n)
  {
    var m: nat := if n < 0 then -2 * n else 2 * n;
    ScaledHundredths(2.0 * x, 2 * n);
    RoundExact(m);
  }

  lemma ScaledHundredths(x: real, n: int)
    requires x == n as real / 100.0
    ensures x < 0.0 <==> n < 0
    ensures (if x < 0.0 then -x else x) * 100.0 == (if n < 0 then -n else n) as real
  {
  }

  /** `str(valor).replace(",", "").replace(".", "")`. */
  function StripSeparators(s: string): string
  {
    ReplaceAll(ReplaceAll(s, ",", ""), ".", "")
  }

  /** The three replacements that turn "1,234.56" into "1.234,56" (through a placeholder "X"). */
  function SwapSeparators(s: string): string
  {
    ReplaceAll(ReplaceAll(ReplaceAll(s, ",", "X"), ".", ","), "X", ".")
  }

  /** `formatar_valor_brl`: the digits left after dropping ',' and '.' are read as hundredths
      and shown in the Brazilian convention; input `float()` refuses comes back unchanged. */
  function FormatValorBrl(valor: string): (r: string)
    ensures ParseFloat(StripSeparators(valor)).None? ==> r == valor
  {
    match ParseFloat(StripSeparators(valor))
    case None => valor
    case Some(d) => SwapSeparators(FormatFloat(d.negative, d.Magnitude() / 100.0))
  }

  // ---------------------------------------------------------------------------
  // Proofs: separators, the swap, and the round trip between the conventions.

  function Swap(c: char): char
  {
    if c == ',' then '.' else if c == '.' then ',' else c
  }

  /** Character-wise exchange of ',' and '.'. */
  function SwapAll(s: string): (r: string)
    ensures |r| == |s|
  {
    if s == [] then [] else [Swap(s[0])] + SwapAll(s[1..])
  }

  lemma {:induction false} SwapAllAt(s: string)
    ensures forall i :: 0 <= i < |s| ==> SwapAll(s)[i] == Swap(s[i])
  {
    if s != [] {
      SwapAllAt(s[1..]);
    }
  }

  predicate NoX(s: string) { forall i :: 0 <= i < |s| ==> s[i] != 'X' }

  /** The placeholder chain of `formatar_valor_brl` is an exchange of ',' and '.'
      on any text without an 'X'. */
  lemma SwapSeparatorsExchanges(s: string)
    requires NoX(s)
    ensures SwapSeparators(s) == SwapAll(s)
  {
    ReplaceCharIsMap(s, ',', 'X');
    var a := MapChar(s, ',', 'X');
    ReplaceCharIsMap(a, '.', ',');
    var b := MapChar(a, '.', ',');
    ReplaceCharIsMap(b, 'X', '.');
    var c := MapChar(b, 'X', '.');
    SwapAllAt(s);
    assert c == SwapAll(s);
  }

  lemma {:induction false} SwapAllAppend(a: string, b: string)
    ensures SwapAll(a + b) == SwapAll(a) + SwapAll(b)
  {
    if a == [] {
      assert a + b == b;
    } else {
      assert (a + b)[1..] == a[1..] + b;
      SwapAllAppend(a[1..], b);
    }
  }

  lemma {:induction false} SwapAllDigits(s: string)
    requires AllDigits(s)
    ensures SwapAll(s) == s
  {
    if s != [] {
      assert IsDigit(s[0]);
      SwapAllDigits(s[1..]);
    }
  }

  lemma {:induction false} GroupSwap(q: nat)
    ensures SwapAll(Group(q, ',')) == Group(q, '.')
    ensures NoX(Group(q, ','))
  {
    if q < 1000 {
      SwapAllDigits(NatToString(q));
    } else {
      GroupSwap(q / 1000);
      SwapAllAppend(Group(q / 1000, ',') + [','], Fixed(q % 1000, 3));
      SwapAllAppend(Group(q / 1000, ','), [',']);
      SwapAllDigits(Fixed(q % 1000, 3));
    }
  }

  /** Swapping the separators of the en-US rendering gives the Brazilian rendering. */
  lemma {:induction false} SwapEnUsIsBr(negative: bool, m: nat)
    ensures NoX(FormatEnUs(negative, m))
    ensures SwapAll(FormatEnUs(negative, m)) == FormatBr(negative, m)
  {
    GroupSwap(m / 100);
    SwapParts(if negative then "-" else "", Group(m / 100, ','), Group(m / 100, '.'), Fixed(m % 100, 2));
  }

  lemma {:induction false} SwapParts(sign: string, g: string, h: string, f: string)
    requires sign == "" || sign == "-"
    requires SwapAll(g) == h && NoX(g) && AllDigits(f)
    ensures NoX(sign + g + ['.'] + f)
    ensures SwapAll(sign + g + ['.'] + f) == sign + h + [','] + f
  {
    var x := g + ['.'] + f;
    var y := h + [','] + f;
    SwapBody(g, h, f);
    Assoc(sign, g, ['.'], f);
    Assoc(sign, h, [','], f);
    if sign == "" {
      assert sign + x == x && sign + y == y;
    } else {
      SwapMinus(x, y);
    }
  }

  lemma Assoc(a: string, b: string, c: string, d: string)
    ensures a + b + c + d == a + (b + c + d)
  {
  }

  lemma {:induction false} SwapMinus(x: string, y: string)
    requires SwapAll(x) == y && NoX(x)
    ensures NoX("-" + x) && SwapAll("-" + x) == "-" + y
  {
    SwapAllAppend("-", x);
    assert SwapAll("-") == "-";
  }

  lemma {:induction false} SwapBody(g: string, h: string, f: string)
    requires SwapAll(g) == h && NoX(g) && AllDigits(f)
    ensures NoX(g + ['.'] + f)
    ensures SwapAll(g + ['.'] + f) == h + [','] + f
  {
    SwapAllAppend(g + ['.'], f);
    SwapAllAppend(g, ['.']);
    SwapAllDigits(f);
  }

  /** What `StripSeparators` leaves: the text without its ',' and '.' characters. */
  function DropSeparators(s: string): string
  {
    if s == [] then [] else (if s[0] == ',' || s[0] == '.' then [] else [s[0]]) + DropSeparators(s[1..])
  }

  lemma {:induction false} DropSeparatorsAppend(a: string, b: string)
    ensures DropSeparators(a + b) == DropSeparators(a) + DropSeparators(b)
  {
    if a == [] {
      assert a + b == b;
    } else {
      assert (a + b)[1..] == a[1..] + b;
      DropSeparatorsAppend(a[1..], b);
    }
  }

  lemma {:induction false} DropSeparatorsDigits(s: string)
    requires AllDigits(s)
    ensures DropSeparators(s) == s
  {
    if s != [] {
      DropSeparatorsDigits(s[1..]);
    }
  }

  lemma {:induction false} DropBothIsDropSeparators(s: string)
    ensures DropChar(DropChar(s, ','), '.') == DropSeparators(s)
  {
    if s != [] {
      DropBothIsDropSeparators(s[1..]);
      DropCharAppend(if s[0] == ',' then [] else [s[0]], DropChar(s[1..], ','), '.');
    }
  }

  lemma StripSeparatorsDrops(s: string)
    ensures StripSeparators(s) == DropSeparators(s)
  {
    ReplaceCharByEmpty(s, ',');
    ReplaceCharByEmpty(DropChar(s, ','), '.');
    DropBothIsDropSeparators(s);
  }

  /** Removing the separators from a digit grouping leaves the digits of its value. */
  lemma {:induction false} GroupDigits(q: nat, sep: char)
    requires sep == ',' || sep == '.'
    ensures IsDigitString(DropSeparators(Group(q, sep)))
    ensures DigitsValue(DropSeparators(Group(q, sep))) == q
  {
    if q < 1000 {
      DropSeparatorsDigits(NatToString(q));
    } else {
      var g := Group(q / 1000, sep);
      var f := Fixed(q % 1000, 3);
      assert Group(q, sep) == g + [sep] + f;
      GroupDigits(q / 1000, sep);
      DropGroup(g, sep, f);
      var d := DropSeparators(g);
      DigitsValueAppend(d, f);
      assert Pow10(|f|) == 1000 by {
        assert Pow10(3) == 1000;
      }
      ThousandsSplit(q, DigitsValue(d), DigitsValue(f));
    }
  }

  lemma ThousandsSplit(q: nat, high: nat, low: nat)
    requires high == q / 1000 && low == q % 1000
    ensures high * 1000 + low == q
  {
  }

  lemma {:induction false} DropGroup(g: string, sep: char, f: string)
    requires sep == ',' || sep == '.'
    requires AllDigits(f)
    ensures DropSeparators(g + [sep] + f) == DropSeparators(g) + f
  {
    DropSeparatorsAppend(g + [sep], f);
    DropSeparatorsAppend(g, [sep]);
    DropSeparatorsDigits(f);
    assert DropSeparators([sep]) == [];
  }

  /** Dropping the separators of `sign`, `g`, a separator and the digits `f`. */
  lemma {:induction false} DropParts(sign: string, g: string, sep: char, f: string)
    requires sign == "" || sign == "-"
    requires sep == ',' || sep == '.'
    requires AllDigits(f)
    ensures DropSeparators(sign + g + [sep] + f) == sign + DropSeparators(g) + f
  {
    var rest := g + [sep] + f;
    assert sign + g + [sep] + f == sign + rest;
    DropSeparatorsAppend(sign, rest);
    DropGroup(g, sep, f);
    assert DropSeparators(sign) == sign;
    assert sign + DropSeparators(g) + f == sign + (DropSeparators(g) + f);
  }

  /** Dropping the separators of either rendering leaves the sign and the digits of `m`. */
  lemma {:induction false} StripFormatted(negative: bool, m: nat, thousands: char, decimal: char)
    requires (thousands, decimal) == (',', '.') || (thousands, decimal) == ('.', ',')
    ensures StripSeparators(FormatWith(negative, m, thousands, decimal))
      == (if negative then "-" else "") + DropSeparators(Group(m / 100, thousands)) + Fixed(m % 100, 2)
  {
    StripSeparatorsDrops(FormatWith(negative, m, thousands, decimal));
    DropParts(if negative then "-" else "", Group(m / 100, thousands), decimal, Fixed(m % 100, 2));
  }

  /** The digits that `formatar_valor_brl` reads from either rendering have the value `m`. */
  lemma {:induction false} FormattedDigits(m: nat, thousands: char)
    requires thousands == ',' || thousands == '.'
    ensures IsDigitString(DropSeparators(Group(m / 100, thousands)) + Fixed(m % 100, 2))
    ensures DigitsValue(DropSeparators(Group(m / 100, thousands)) + Fixed(m % 100, 2)) == m
  {
    GroupDigits(m / 100, thousands);
    DigitsValueAppend(DropSeparators(Group(m / 100, thousands)), Fixed(m % 100, 2));
  }

  lemma {:induction false} ParseUnsignedDigits(digits: string, negative: bool)
    requires IsDigitString(digits)
    ensures ParseUnsigned(digits, negative) == Some(Decimal(negative, digits, []))
  {
    var i := IndexOf(digits, '.');
    assert i == |digits|;
    assert digits[..i] == digits;
  }

  lemma {:induction false} ParseFloatSigned(negative: bool, digits: string)
    requires IsDigitString(digits)
    ensures ParseFloat((if negative then "-" else "") + digits) == ParseUnsigned(digits, negative)
  {
    if negative {
      ParseFloatMinus(digits);
    } else {
      assert "" + digits == digits;
      ParseFloatPlain(digits);
    }
  }

  lemma {:induction false} ParseFloatMinus(digits: string)
    requires IsDigitString(digits)
    ensures ParseFloat("-" + digits) == ParseUnsigned(digits, true)
  {
    var t := "-" + digits;
    assert !IsSpace(t[0]) && !IsSpace(t[|t| - 1]);
    StripUnchanged(t);
    assert t[1..] == digits;
  }

  /** `float()` of a sign followed by digits. */
  lemma ParseSignedDigits(negative: bool, digits: string)
    requires IsDigitString(digits)
    ensures ParseFloat((if negative then "-" else "") + digits) == Some(Decimal(negative, digits, []))
  {
    ParseFloatSigned(negative, digits);
    ParseUnsignedDigits(digits, negative);
  }

  lemma {:induction false} MagnitudeOfDigits(negative: bool, digits: string)
    requires IsDigitString(digits)
    ensures Decimal(negative, digits, []).Valid()
    ensures Decimal(negative, digits, []).Magnitude() == DigitsValue(digits) as real
  {
    assert DigitsValue([]) == 0 && Pow10(0) == 1;
  }

  /** Reading either rendering back through `formatar_valor_brl`'s parse recovers sign and hundredths. */
  lemma {:induction false} ParseStripFormatted(negative: bool, m: nat, thousands: char, decimal: char)
    requires (thousands, decimal) == (',', '.') || (thousands, decimal) == ('.', ',')
    ensures var d := ParseFloat(StripSeparators(FormatWith(negative, m, thousands, decimal)));
      d.Some? && d.value.negative == negative && d.value.Magnitude() == m as real
  {
    var sign: string := if negative then "-" else "";
    var digits := DropSeparators(Group(m / 100, thousands)) + Fixed(m % 100, 2);
    StripFormatted(negative, m, thousands, decimal);
    assert StripSeparators(FormatWith(negative, m, thousands, decimal)) == sign + digits;
    FormattedDigits(m, thousands);
    ParseSignedDigits(negative, digits);
    MagnitudeOfDigits(negative, digits);
  }

  lemma {:induction false} FormatValorBrlOfHundredths(negative: bool, m: nat, thousands: char, decimal: char)
    requires (thousands, decimal) == (',', '.') || (thousands, decimal) == ('.', ',')
    ensures FormatValorBrl(FormatWith(negative, m, thousands, decimal)) == FormatBr(negative, m)
  {
    ParseStripFormatted(negative, m, thousands, decimal);
    assert (m as real / 100.0) * 100.0 == m as real;
    RoundExact(m);
    SwapEnUsIsBr(negative, m);
    SwapSeparatorsExchanges(FormatEnUs(negative, m));
  }

  /** Round trip: `formatar_valor_brl` turns the en-US rendering of any amount into the
      Brazilian rendering of the same amount ("1,234.56" becomes "1.234,56"). */
  lemma FormatValorBrlOfEnUs(negative: bool, m: nat)
    ensures FormatValorBrl(FormatEnUs(negative, m)) == FormatBr(negative, m)
  {
    FormatValorBrlOfHundredths(negative, m, ',', '.');
  }

  /** What `formatar_valor_brl` shows for input it can read: the Brazilian rendering of
      the digits, as hundredths rounded like `f"{x:,.2f}"`. */
  lemma {:induction false} FormatValorBrlReadable(valor: string)
    requires ParseFloat(StripSeparators(valor)).Some?
    ensures var d := ParseFloat(StripSeparators(valor)).value;
      FormatValorBrl(valor) == FormatBr(d.negative, RoundHalfEven(d.Magnitude()))
  {
    var d := ParseFloat(StripSeparators(valor)).value;
    assert d.Magnitude() / 100.0 * 100.0 == d.Magnitude();
    var m := RoundHalfEven(d.Magnitude());
    SwapEnUsIsBr(d.negative, m);
    SwapSeparatorsExchanges(FormatEnUs(d.negative, m));
  }

  /** `formatar_valor_brl` is idempotent: its own output is a fixed point. */
  lemma {:induction false} FormatValorBrlIdempotent(valor: string)
    ensures FormatValorBrl(FormatValorBrl(valor)) == FormatValorBrl(valor)
  {
    if ParseFloat(StripSeparators(valor)).Some? {
      var d := ParseFloat(StripSeparators(valor)).value;
      FormatValorBrlReadable(valor);
      FormatValorBrlOfHundredths(d.negative, RoundHalfEven(d.Magnitude()), '.', ',');
    }
  }

  lemma {:induction false} MapCharAppend(a: string, b: string, from: char, to: char)
    ensures MapChar(a + b, from, to) == MapChar(a, from, to) + MapChar(b, from, to)
  {
    assert MapChar(a + b, from, to) == MapChar(a, from, to) + MapChar(b, from, to);
  }

  lemma {:induction false} MapCharAbsent(s: string, from: char, to: char)
    requires forall j :: 0 <= j < |s| ==> s[j] != from
    ensures MapChar(s, from, to) == s
  {
    assert MapChar(s, from, to) == s;
  }

  /** `_to_float` after its ',' to '.' replacement: the text that `float()` reads. */
  lemma {:induction false} ToFloatReads(x: string, y: string)
    requires MapChar(x, ',', '.') == y
    ensures ToFloat(x) == OrZero(ParseFloat(y))
  {
    ReplaceCharIsMap(x, ',', '.');
    StripUnchanged(Strip(y));
  }

  lemma {:induction false} ParseFloatPlain(y: string)
    requires y != [] && IsDigit(y[0]) && !IsSpace(y[|y| - 1])
    ensures ParseFloat(y) == ParseUnsigned(y, false)
  {
    StripUnchanged(y);
  }

  lemma {:induction false} ParseUnsignedPoint(whole: string, rest: string, negative: bool)
    requires AllDigits(whole)
    ensures ParseUnsigned(whole + ['.'] + rest, negative)
      == if AllDigits(rest) && (whole != [] || rest != []) then Some(Decimal(negative, whole, rest)) else None
  {
    var y := whole + ['.'] + rest;
    IndexOfFirst(whole, '.', rest);
    assert y[..|whole|] == whole && y[|whole| + 1..] == rest;
  }

  lemma {:induction false} CommaToPoint(a: string, b: string)
    requires forall j :: 0 <= j < |a| ==> a[j] != ','
    requires forall j :: 0 <= j < |b| ==> b[j] != ','
    ensures MapChar(a + [','] + b, ',', '.') == a + ['.'] + b
  {
    MapCharAppend(a + [','], b, ',', '.');
    MapCharAppend(a, [','], ',', '.');
    MapCharAbsent(a, ',', '.');
    MapCharAbsent(b, ',', '.');
  }

  /** An amount without thousands separator and with a ',' decimal separator is read in
      full ("300,00" counts as 300). */
  lemma {:induction false} ToFloatDecimalComma(whole: string, frac: string)
    requires IsDigitString(whole) && IsDigitString(frac)
    ensures ToFloat(whole + [','] + frac)
      == DigitsValue(whole) as real + DigitsValue(frac) as real / Pow10(|frac|) as real
  {
    var x := whole + [','] + frac;
    var y := whole + ['.'] + frac;
    CommaToPoint(whole, frac);
    ToFloatReads(x, y);
    ParseFloatPlain(y);
    ParseUnsignedPoint(whole, frac, false);
  }

  /** An amount with a '.' thousands separator and a ',' decimal separator ("1.500,00")
      is unreadable to `_to_float`, and so counts as 0. */
  lemma {:induction false} ToFloatThousandsDot(lead: string, group: string, frac: string)
    requires IsDigitString(lead) && IsDigitString(group) && IsDigitString(frac)
    ensures ToFloat(lead + ['.'] + group + [','] + frac) == 0.0
  {
    var y := lead + ['.'] + (group + ['.'] + frac);
    ThousandsDotReads(lead, group, frac);
    TwoPointsRefused(lead, group, frac);
    assert ParseFloat(y) == None;
  }

  lemma {:induction false} ThousandsDotReads(lead: string, group: string, frac: string)
    requires IsDigitString(lead) && IsDigitString(group) && IsDigitString(frac)
    ensures ToFloat(lead + ['.'] + group + [','] + frac) == OrZero(ParseFloat(lead + ['.'] + (group + ['.'] + frac)))
  {
    var x := lead + ['.'] + group + [','] + frac;
    var y := lead + ['.'] + (group + ['.'] + frac);
    CommaToPoint(lead + ['.'] + group, frac);
    assert (lead + ['.'] + group) + ['.'] + frac == y;
    ToFloatReads(x, y);
  }

  lemma {:induction false} TwoPointsRefused(lead: string, group: string, frac: string)
    requires IsDigitString(lead) && IsDigitString(group) && IsDigitString(frac)
    ensures ParseFloat(lead + ['.'] + (group + ['.'] + frac)) == None
  {
    var rest := group + ['.'] + frac;
    var y := lead + ['.'] + rest;
    ParseFloatPlain(y);
    ParseUnsignedPoint(lead, rest, false);
    assert rest[|group|] == '.';
  }
}
