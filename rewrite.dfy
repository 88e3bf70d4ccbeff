/**
 * The paragraph rewrite of `ajustar_valores_docx` (app2.py:198-228): every match of
 * `[\d,]+\.\d{2}` in a paragraph is an en-US amount, to be rewritten by
 * `formatar_valor_brl` into the Brazilian convention.
 *
 * The rewrite takes the converter as a parameter `brl`; the document loop passes
 * `Amounts.FormatValorBrl`, and the round trips below need of it only
 * `ConvertsEnUs`, which `FormatValorBrlConverts` proves.
 *
 * The code replaces each found amount with `str.replace` over the WHOLE paragraph,
 * one after the other, so an earlier, shorter amount is also rewritten inside a
 * later, longer one ("34.56" inside "1,234.56"). `AsWritten` models that, and the
 * document loop uses it; `Adjust` is the intended rewrite of each match at its own
 * position. The two agree whenever a paragraph holds a single amount.
 */
module Rewrite {
  import opened Text
  import Amounts

  /** A character of `[\d,]`. */
  predicate AmountChar(c: char)
  {
    IsDigit(c) || c == ','
  }

  /** The language of `[\d,]+\.\d{2}`. */
  predicate IsAmount(x: string)
  {
    && |x| >= 4
    && x[|x| - 3] == '.' && IsDigit(x[|x| - 2]) && IsDigit(x[|x| - 1])
    && forall j :: 0 <= j < |x| - 3 ==> AmountChar(x[j])
  }

  /** What the greedy `[\d,]+` takes at the start of `s`: its longest prefix of digits
      and commas. */
  function AmountRun(s: string): (n: nat)
    ensures n <= |s|
    ensures forall j :: 0 <= j < n ==> AmountChar(s[j])
    ensures n == |s| || !AmountChar(s[n])
  {
    if s != [] && AmountChar(s[0]) then 1 + AmountRun(s[1..]) else 0
  }

  /** The length of the match of `[\d,]+\.\d{2}` at the start of `s`, or 0 without one. */
  function MatchLength(s: string): (n: nat)
    ensures n == 0 || 4 <= n <= |s|
  {
    var run := AmountRun(s);
    if 1 <= run && run + 3 <= |s| && s[run] == '.' && IsDigit(s[run + 1]) && IsDigit(s[run + 2])
    then run + 3
    else 0
  }

  /** The match at the start of `s` is the only prefix of `s` in the pattern's language:
      a match at a position is unique, so backtracking has no other choice. */
  lemma MatchLengthIff(s: string, n: nat)
    requires n <= |s|
    ensures IsAmount(s[..n]) <==> n > 0 && n == MatchLength(s)
  {
    var run := AmountRun(s);
    if IsAmount(s[..n]) {
      var x := s[..n];
      assert forall j :: 0 <= j < n - 3 ==> AmountChar(s[j]) by {
        forall j | 0 <= j < n - 3 ensures AmountChar(s[j]) { assert s[j] == x[j]; }
      }
      assert s[n - 3] == x[n - 3] == '.';
      assert run == n - 3;
    }
    if n > 0 && n == MatchLength(s) {
      assert run == n - 3;
      var x := s[..n];
      assert forall j :: 0 <= j < n - 3 ==> AmountChar(x[j]) by {
        forall j | 0 <= j < n - 3 ensures AmountChar(x[j]) { assert x[j] == s[j]; }
      }
    }
  }

  /** `pattern.findall(text)`: the matches, leftmost first, none overlapping. */
  function FindAmounts(s: string): seq<string>
    decreases |s|
  {
    if s == [] then []
    else
      var n := MatchLength(s);
      if n > 0 then [s[..n]] + FindAmounts(s[n..]) else FindAmounts(s[1..])
  }

  /** Every found string is in the pattern's language. */
  lemma {:induction false} FindAmountsSound(s: string)
    ensures forall i :: 0 <= i < |FindAmounts(s)| ==> IsAmount(FindAmounts(s)[i])
    decreases |s|
  {
    if s != [] {
      var n := MatchLength(s);
      if n > 0 {
        MatchLengthIff(s, n);
        FindAmountsSound(s[n..]);
      } else {
        FindAmountsSound(s[1..]);
      }
    }
  }

  /** `findall` finds nothing exactly when the pattern matches at no position. */
  lemma {:induction false} FindAmountsNone(s: string)
    ensures FindAmounts(s) == [] <==> forall q :: 0 <= q < |s| ==> MatchLength(s[q..]) == 0
    decreases |s|
  {
    if s != [] {
      assert s[0..] == s;
      if MatchLength(s) == 0 {
        var t := s[1..];
        FindAmountsNone(t);
        assert forall q :: 0 < q < |s| ==> s[q..] == t[q - 1..];
      }
    }
  }

  /** The leftmost position where the pattern matches, or `|s|` when there is none. */
  function FirstMatch(s: string): (q: nat)
    ensures q <= |s|
    decreases |s|
  {
    if s == [] || MatchLength(s) > 0 then 0 else 1 + FirstMatch(s[1..])
  }

  /** `findall` is leftmost: it skips the positions before the first match, none of which
      matches, and finds nothing when there is no match at all. */
  lemma {:induction false} FindAmountsSkip(s: string)
    ensures var q := FirstMatch(s);
      && FindAmounts(s) == FindAmounts(s[q..])
      && (forall j :: 0 <= j < q ==> MatchLength(s[j..]) == 0)
      && (q < |s| ==> MatchLength(s[q..]) > 0)
      && (q == |s| ==> FindAmounts(s) == [])
    decreases |s|
  {
    assert s[0..] == s;
    assert s[|s|..] == [];
    if s != [] && MatchLength(s) == 0 {
      var t := s[1..];
      FindAmountsSkip(t);
      var q := FirstMatch(t);
      assert t[q..] == s[q + 1..];
      forall j | 0 < j < q + 1 ensures MatchLength(s[j..]) == 0 {
        assert s[j..] == t[j - 1..];
      }
    }
  }

  /** The intended rewrite: each match, at its own position, becomes its
      `formatar_valor_brl` rendering; every other character stays. */
  function Adjust(s: string, brl: string -> string): string
    decreases |s|
  {
    if s == [] then []
    else
      var n := MatchLength(s);
      if n > 0 then brl(s[..n]) + Adjust(s[n..], brl) else [s[0]] + Adjust(s[1..], brl)
  }

  /** What the round trips need of the converter: it turns the en-US rendering of an
      amount into the Brazilian one. */
  ghost predicate ConvertsEnUs(brl: string -> string)
  {
    forall m: nat :: brl(Amounts.FormatEnUs(false, m)) == Amounts.FormatBr(false, m)
  }

  /** `formatar_valor_brl` is such a converter. */
  lemma FormatValorBrlConverts()
    ensures ConvertsEnUs(Amounts.FormatValorBrl)
  {
    forall m: nat
      ensures Amounts.FormatValorBrl(Amounts.FormatEnUs(false, m)) == Amounts.FormatBr(false, m)
    {
      Amounts.FormatValorBrlOfEnUs(false, m);
    }
  }

  /** A paragraph without a match is left as it is (the `if found:` guard). */
  lemma {:induction false} AdjustNoMatch(s: string, brl: string -> string)
    requires FindAmounts(s) == []
    ensures Adjust(s, brl) == s
    decreases |s|
  {
    if s != [] {
      assert MatchLength(s) == 0;
      AdjustNoMatch(s[1..], brl);
    }
  }

  /** A character outside `[\d,]` cannot start a match, and is kept. */
  lemma AdjustOther(c: char, rest: string, brl: string -> string)
    requires !AmountChar(c)
    ensures Adjust([c] + rest, brl) == [c] + Adjust(rest, brl)
    ensures FindAmounts([c] + rest) == FindAmounts(rest)
  {
    assert ([c] + rest)[1..] == rest;
  }

  lemma {:induction false} GroupAmountChars(q: nat)
    ensures Amounts.Group(q, ',') != []
    ensures forall j :: 0 <= j < |Amounts.Group(q, ',')| ==> AmountChar(Amounts.Group(q, ',')[j])
    decreases q
  {
    if q >= 1000 {
      GroupAmountChars(q / 1000);
    }
  }

  /** The en-US rendering of an amount, followed by anything, is matched in full. */
  lemma MatchEnUs(m: nat, rest: string)
    ensures var x := Amounts.FormatEnUs(false, m);
      MatchLength(x + rest) == |x| && (x + rest)[..|x|] == x
  {
    var g := Amounts.Group(m / 100, ',');
    var f := Fixed(m % 100, 2);
    var x := Amounts.FormatEnUs(false, m);
    assert x == g + ['.'] + f;
    GroupAmountChars(m / 100);
    var s := x + rest;
    assert s[|g|] == '.';
    assert forall j :: 0 <= j < |g| ==> s[j] == g[j];
    assert AmountRun(s) == |g|;
    assert s[|g| + 1] == f[0] && s[|g| + 2] == f[1];
  }

  /** The en-US rendering of an amount, followed by anything, is the first amount found. */
  lemma MatchEnUsFound(m: nat, rest: string)
    ensures FindAmounts(Amounts.FormatEnUs(false, m) + rest) == [Amounts.FormatEnUs(false, m)] + FindAmounts(rest)
  {
    var x := Amounts.FormatEnUs(false, m);
    MatchEnUs(m, rest);
    assert (x + rest)[|x|..] == rest;
  }

  /** A character outside `[\d,]` is skipped by `findall`. */
  lemma FindOther(c: char, rest: string)
    requires !AmountChar(c)
    ensures FindAmounts([c] + rest) == FindAmounts(rest)
  {
    assert ([c] + rest)[1..] == rest;
  }

  lemma AdjustEnUsUnsigned(m: nat, rest: string, brl: string -> string)
    requires ConvertsEnUs(brl)
    ensures Adjust(Amounts.FormatEnUs(false, m) + rest, brl) == Amounts.FormatBr(false, m) + Adjust(rest, brl)
    ensures FindAmounts(Amounts.FormatEnUs(false, m) + rest) == [Amounts.FormatEnUs(false, m)] + FindAmounts(rest)
  {
    var x := Amounts.FormatEnUs(false, m);
    var s := x + rest;
    MatchEnUs(m, rest);
    assert s[|x|..] == rest;
    assert brl(x) == Amounts.FormatBr(false, m);
    assert Adjust(s, brl) == brl(x) + Adjust(rest, brl);
  }

  /** A minus sign before a matched amount is kept, and is not part of the match. */
  lemma SignedStep(x: string, xb: string, rest: string, brl: string -> string)
    requires Adjust(x + rest, brl) == xb + Adjust(rest, brl)
    requires FindAmounts(x + rest) == [x] + FindAmounts(rest)
    ensures Adjust((['-'] + x) + rest, brl) == (['-'] + xb) + Adjust(rest, brl)
    ensures FindAmounts((['-'] + x) + rest) == [x] + FindAmounts(rest)
  {
    assert (['-'] + x) + rest == ['-'] + (x + rest);
    AdjustOther('-', x + rest, brl);
  }

  lemma AdjustEnUsNegative(m: nat, rest: string, brl: string -> string)
    requires ConvertsEnUs(brl)
    ensures Adjust(Amounts.FormatEnUs(true, m) + rest, brl) == Amounts.FormatBr(true, m) + Adjust(rest, brl)
    ensures FindAmounts(Amounts.FormatEnUs(true, m) + rest) == [Amounts.FormatEnUs(false, m)] + FindAmounts(rest)
  {
    AdjustEnUsUnsigned(m, rest, brl);
    Amounts.FormatSigned(m, ',', '.');
    Amounts.FormatSigned(m, '.', ',');
    SignedStep(Amounts.FormatEnUs(false, m), Amounts.FormatBr(false, m), rest, brl);
  }

  /** Round trip: the en-US rendering of a signed amount, followed by anything, becomes its
      Brazilian rendering ("-1,234.56" becomes "-1.234,56"), and it is the one amount found
      there. */
  lemma AdjustEnUs(negative: bool, m: nat, rest: string, brl: string -> string)
    requires ConvertsEnUs(brl)
    ensures Adjust(Amounts.FormatEnUs(negative, m) + rest, brl) == Amounts.FormatBr(negative, m) + Adjust(rest, brl)
    ensures FindAmounts(Amounts.FormatEnUs(negative, m) + rest) ==
      [Amounts.FormatEnUs(false, m)] + FindAmounts(rest)
  {
    if negative {
      AdjustEnUsNegative(m, rest, brl);
    } else {
      AdjustEnUsUnsigned(m, rest, brl);
    }
  }

  /** A paragraph as a sequence of pieces: a plain character, or an amount in hundredths. */
  datatype Piece = Plain(c: char) | Money(negative: bool, cents: nat)

  /** The paragraph with its amounts written in the en-US convention... */
  function RenderUs(p: seq<Piece>): string
  {
    if p == [] then []
    else
      match p[0]
      case Plain(c) => [c] + RenderUs(p[1..])
      case Money(negative, cents) => Amounts.FormatEnUs(negative, cents) + RenderUs(p[1..])
  }

  /** ... and in the Brazilian one. */
  function RenderBr(p: seq<Piece>): string
  {
    if p == [] then []
    else
      match p[0]
      case Plain(c) => [c] + RenderBr(p[1..])
      case Money(negative, cents) => Amounts.FormatBr(negative, cents) + RenderBr(p[1..])
  }

  /** The amounts of a paragraph, as `findall` should see them (without their sign). */
  function MoneyUs(p: seq<Piece>): seq<string>
  {
    if p == [] then []
    else
      match p[0]
      case Plain(_) => MoneyUs(p[1..])
      case Money(_, cents) => [Amounts.FormatEnUs(false, cents)] + MoneyUs(p[1..])
  }

  /** No plain character is a digit or a comma, so none of them can extend an amount. */
  ghost predicate Separated(p: seq<Piece>)
  {
    forall i :: 0 <= i < |p| && p[i].Plain? ==> !AmountChar(p[i].c)
  }

  /** For a paragraph whose plain text holds no digit or comma, `findall` finds exactly its
      amounts, and the rewrite turns the en-US paragraph into the Brazilian one. */
  lemma {:induction false} AdjustParagraph(p: seq<Piece>, brl: string -> string)
    requires Separated(p) && ConvertsEnUs(brl)
    ensures FindAmounts(RenderUs(p)) == MoneyUs(p)
    ensures Adjust(RenderUs(p), brl) == RenderBr(p)
  {
    if p != [] {
      assert Separated(p[1..]) by {
        forall i | 0 <= i < |p[1..]| && p[1..][i].Plain? ensures !AmountChar(p[1..][i].c) {
          assert p[1..][i] == p[i + 1];
        }
      }
      AdjustParagraph(p[1..], brl);
      match p[0]
      case Plain(c) =>
        assert !AmountChar(p[0].c);
        AdjustOther(c, RenderUs(p[1..]), brl);
      case Money(negative, cents) =>
        AdjustEnUs(negative, cents, RenderUs(p[1..]), brl);
    }
  }

  /** The code as written: each found amount is replaced, one after the other, everywhere
      in the paragraph's current text. */
  function ReplaceEach(text: string, found: seq<string>, brl: string -> string): string
    requires forall i :: 0 <= i < |found| ==> found[i] != []
    decreases |found|
  {
    if found == [] then text
    else ReplaceEach(ReplaceAll(text, found[0], brl(found[0])), found[1..], brl)
  }

  /** The rewrite of one paragraph as the code does it: the amounts `findall` found in the
      original text, each replaced everywhere in turn. */
  function AsWritten(text: string, brl: string -> string): string
  {
    FindAmountsSound(text);
    ReplaceEach(text, FindAmounts(text), brl)
  }

  /** The inner loop of `ajustar_valores_docx`, as written. */
  method ReplaceFound(text: string, brl: string -> string) returns (r: string)
    ensures r == AsWritten(text, brl)
  {
    var found := FindAmounts(text);
    FindAmountsSound(text);
    r := text;
    var i := 0;
    while i < |found|
      invariant 0 <= i <= |found|
      invariant ReplaceEach(r, found[i..], brl) == ReplaceEach(text, found, brl)
    {
      assert found[i..][0] == found[i] && found[i..][1..] == found[i + 1..];
      r := ReplaceAll(r, found[i], brl(found[i]));
      i := i + 1;
    }
  }

  /** Where the pattern matches nowhere, an amount does not occur either, so a global
      replacement of it changes nothing. */
  lemma {:induction false} ReplaceAbsentAmount(s: string, x: string, y: string)
    requires FindAmounts(s) == [] && IsAmount(x)
    ensures ReplaceAll(s, x, y) == s
    decreases |s|
  {
    if |s| >= |x| {
      assert MatchLength(s) == 0;
      if s[..|x|] == x {
        MatchLengthIff(s, |x|);
      }
      ReplaceAbsentAmount(s[1..], x, y);
    }
  }

  /** When `findall` finds a single amount, its global replacement rewrites just that
      match: the code as written and the per-match rewrite agree. */
  lemma {:induction false} ReplaceSingle(s: string, x: string, brl: string -> string)
    requires FindAmounts(s) == [x]
    ensures x != [] && ReplaceAll(s, x, brl(x)) == Adjust(s, brl)
    decreases |s|
  {
    FindAmountsSound(s);
    assert FindAmounts(s)[0] == x;
    var n := MatchLength(s);
    if n > 0 {
      assert FindAmounts(s) == [s[..n]] + FindAmounts(s[n..]);
      assert s[..n] == x && FindAmounts(s[n..]) == [];
      ReplaceAbsentAmount(s[n..], x, brl(x));
      AdjustNoMatch(s[n..], brl);
    } else {
      assert FindAmounts(s[1..]) == [x];
      if |s| >= |x| && s[..|x|] == x {
        MatchLengthIff(s, |x|);
      }
      ReplaceSingle(s[1..], x, brl);
    }
  }

  /** A paragraph with at most one amount is rewritten correctly by the code as written:
      with none it is left alone, and with one, that amount alone is converted. */
  lemma AsWrittenSingle(text: string, brl: string -> string)
    requires |FindAmounts(text)| <= 1
    ensures AsWritten(text, brl) == Adjust(text, brl)
  {
    var found := FindAmounts(text);
    if found == [] {
      AdjustNoMatch(text, brl);
    } else {
      var x := found[0];
      assert found == [x] && found[1..] == [];
      ReplaceSingle(text, x, brl);
      FindAmountsSound(text);
      assert ReplaceEach(text, found, brl) == ReplaceEach(ReplaceAll(text, x, brl(x)), [], brl);
    }
  }

  /** Round trip for the code as written: an en-US paragraph (no digit or comma in its
      plain text) holding at most one amount becomes the Brazilian paragraph. */
  lemma AsWrittenSingleAmount(p: seq<Piece>, brl: string -> string)
    requires Separated(p) && ConvertsEnUs(brl) && |MoneyUs(p)| <= 1
    ensures AsWritten(RenderUs(p), brl) == RenderBr(p)
  {
    AdjustParagraph(p, brl);
    AsWrittenSingle(RenderUs(p), brl);
  }

  lemma NatToStringTwo(n: nat)
    requires 10 <= n < 100
    ensures NatToString(n) == [DigitChar(n / 10), DigitChar(n % 10)]
  {
  }

  lemma FixedTwo(n: nat)
    requires n < 100
    ensures Fixed(n, 2) == [DigitChar(n / 10), DigitChar(n % 10)]
  {
    assert Fixed(n / 10, 1) == [DigitChar(n / 10)];
  }

  lemma FixedThree(n: nat)
    requires n < 1000
    ensures Fixed(n, 3) == [DigitChar(n / 100), DigitChar(n / 10 % 10), DigitChar(n % 10)]
  {
    FixedTwo(n / 10);
  }

  /** The rendering of `m` hundredths with a two-digit integer part, digit by digit. */
  lemma FormatTwoDigits(m: nat, t: char, d: char)
    requires 1000 <= m < 10000
    ensures Amounts.FormatWith(false, m, t, d) ==
      [DigitChar(m / 100 / 10), DigitChar(m / 100 % 10), d, DigitChar(m % 100 / 10), DigitChar(m % 100 % 10)]
  {
    NatToStringTwo(m / 100);
    FixedTwo(m % 100);
  }

  /** The rendering of `m` hundredths with a four-digit integer part, digit by digit. */
  lemma FormatFourDigits(m: nat, t: char, d: char)
    requires 100000 <= m < 1000000
    ensures var q := m / 100;
      Amounts.FormatWith(false, m, t, d) ==
      [DigitChar(q / 1000), t, DigitChar(q % 1000 / 100), DigitChar(q % 1000 / 10 % 10), DigitChar(q % 1000 % 10),
       d, DigitChar(m % 100 / 10), DigitChar(m % 100 % 10)]
  {
    var q := m / 100;
    assert Amounts.Group(q / 1000, t) == [DigitChar(q / 1000)];
    FixedThree(q % 1000);
    FixedTwo(m % 100);
  }

  /** 3456 hundredths in both conventions. */
  lemma SmallAmount(m: nat)
    requires m == 3456
    ensures Amounts.FormatEnUs(false, m) == "34.56"
    ensures Amounts.FormatBr(false, m) == "34,56"
  {
    assert m / 100 / 10 == 3 && m / 100 % 10 == 4 && m % 100 / 10 == 5 && m % 100 % 10 == 6;
    FormatTwoDigits(m, ',', '.');
    FormatTwoDigits(m, '.', ',');
  }

  /** 123456 hundredths in both conventions. */
  lemma LargeAmount(m: nat)
    requires m == 123456
    ensures Amounts.FormatEnUs(false, m) == "1,234.56"
    ensures Amounts.FormatBr(false, m) == "1.234,56"
  {
    var q := m / 100;
    assert q == 1234 && m % 100 == 56;
    var r := q % 1000;
    assert q / 1000 == 1 && r == 234;
    assert r / 100 == 2 && r / 10 % 10 == 3 && r % 10 == 4;
    FormatFourDigits(m, ',', '.');
    FormatFourDigits(m, '.', ',');
  }

  /** The example paragraph: two amounts separated by a space. */
  lemma ExampleText(x: string, y: string)
    requires x == "34.56" && y == "1,234.56"
    ensures "34.56 1,234.56" == x + (" " + (y + []))
  {
  }

  lemma ExampleTextBr(x: string, y: string)
    requires x == "34,56" && y == "1.234,56"
    ensures x + (" " + (y + [])) == "34,56 1.234,56"
  {
  }

  /** `findall` on the example paragraph. */
  lemma ExampleFound()
    ensures FindAmounts("34.56 1,234.56") == ["34.56", "1,234.56"]
  {
    var a: nat, b: nat := 3456, 123456;
    SmallAmount(a);
    LargeAmount(b);
    var x, y := Amounts.FormatEnUs(false, a), Amounts.FormatEnUs(false, b);
    ExampleText(x, y);
    MatchEnUsFound(b, []);
    FindOther(' ', y + []);
    MatchEnUsFound(a, " " + (y + []));
  }

  /** The intended rewrite on the example paragraph. */
  lemma ExampleAdjusted(brl: string -> string)
    requires ConvertsEnUs(brl)
    ensures Adjust("34.56 1,234.56", brl) == "34,56 1.234,56"
  {
    var a: nat, b: nat := 3456, 123456;
    SmallAmount(a);
    LargeAmount(b);
    var x, y := Amounts.FormatEnUs(false, a), Amounts.FormatEnUs(false, b);
    ExampleText(x, y);
    ExampleTextBr(Amounts.FormatBr(false, a), Amounts.FormatBr(false, b));
    AdjustEnUsUnsigned(b, [], brl);
    AdjustOther(' ', y + [], brl);
    AdjustEnUsUnsigned(a, " " + (y + []), brl);
  }

  lemma ReplaceHit(s: string, pat: string, rep: string)
    requires pat != [] && |pat| <= |s| && s[..|pat|] == pat
    ensures ReplaceAll(s, pat, rep) == rep + ReplaceAll(s[|pat|..], pat, rep)
  {
  }

  lemma ReplaceMiss(s: string, pat: string, rep: string)
    requires pat != [] && s != [] && s[0] != pat[0]
    ensures ReplaceAll(s, pat, rep) == [s[0]] + ReplaceAll(s[1..], pat, rep)
  {
    if |pat| <= |s| {
      assert s[..|pat|][0] != pat[0];
    }
  }

  lemma FirstReplaceText(rep: string)
    requires rep == "34,56"
    ensures rep + ([' '] + (['1'] + ([','] + (['2'] + (rep + []))))) == "34,56 1,234,56"
  {
  }

  /** The first replacement of the code as written, over the whole example paragraph:
      "34.56" is rewritten at the start and again inside "1,234.56". */
  lemma FirstReplace(text: string, pat: string, rep: string)
    requires text == "34.56 1,234.56" && pat == "34.56" && rep == "34,56"
    ensures ReplaceAll(text, pat, rep) == "34,56 1,234,56"
  {
    assert text[..5] == pat;
    ReplaceHit(text, pat, rep);
    var t1 := text[5..];
    ReplaceMiss(t1, pat, rep);
    var t2 := t1[1..];
    ReplaceMiss(t2, pat, rep);
    var t3 := t2[1..];
    ReplaceMiss(t3, pat, rep);
    var t4 := t3[1..];
    ReplaceMiss(t4, pat, rep);
    var t5 := t4[1..];
    assert t5 == pat;
    ReplaceHit(t5, pat, rep);
    assert t5[5..] == [];
    FirstReplaceText(rep);
  }

  lemma OnceHasNoLongAmount()
    ensures !Contains("34,56 1,234,56", "1,234.56")
  {
    assert '.' !in "34,56 1,234,56";
    assert "1,234.56"[5] == '.';
    NoPointNoAmount("34,56 1,234,56", "1,234.56");
  }

  /** Two found amounts are replaced one after the other, each everywhere. */
  lemma ReplaceEachTwo(text: string, x: string, y: string, brl: string -> string)
    requires x != [] && y != []
    ensures ReplaceEach(text, [x, y], brl) == ReplaceAll(ReplaceAll(text, x, brl(x)), y, brl(y))
  {
    var once := ReplaceAll(text, x, brl(x));
    var twice := ReplaceAll(once, y, brl(y));
    assert [x, y][1..] == [y];
    assert ReplaceEach(text, [x, y], brl) == ReplaceEach(once, [y], brl);
    assert [y][1..] == [];
    assert ReplaceEach(once, [y], brl) == ReplaceEach(twice, [], brl);
  }

  /** The code as written on the example paragraph: "1,234.56" has already lost its point
      when its turn comes. */
  lemma AsWrittenExample(brl: string -> string)
    requires ConvertsEnUs(brl)
    ensures AsWritten("34.56 1,234.56", brl) == "34,56 1,234,56"
  {
    ExampleFound();
    ReplaceEachTwo("34.56 1,234.56", "34.56", "1,234.56", brl);
    var a: nat := 3456;
    SmallAmount(a);
    assert brl(Amounts.FormatEnUs(false, a)) == Amounts.FormatBr(false, a);
    FirstReplace("34.56 1,234.56", "34.56", brl("34.56"));
    OnceHasNoLongAmount();
    ReplaceAllAbsent("34,56 1,234,56", "1,234.56", brl("1,234.56"));
  }

  /** The text "34.56 1,234.56" holds two amounts; written out, the first replacement also
      rewrites the tail of the second, which is then never found, and the paragraph reads
      "34,56 1,234,56". The intended rewrite gives "34,56 1.234,56". This holds for any
      converter that renders en-US amounts the Brazilian way, `formatar_valor_brl` among
      them. */
  lemma AsWrittenCorruptsLongerAmount(brl: string -> string)
    requires ConvertsEnUs(brl)
    ensures AsWritten("34.56 1,234.56", brl) == "34,56 1,234,56"
    ensures Adjust("34.56 1,234.56", brl) == "34,56 1.234,56"
  {
    AsWrittenExample(brl);
    ExampleAdjusted(brl);
  }

  lemma {:induction false} NoPointNoAmount(s: string, pat: string)
    requires '.' !in s
    requires '.' in pat
    ensures !Contains(s, pat)
    decreases |s|
  {
    var k :| 0 <= k < |pat| && pat[k] == '.';
    if |pat| <= |s| {
      assert s[..|pat|][k] == s[k] != pat[k];
    }
    if s != [] {
      NoPointNoAmount(s[1..], pat);
    }
  }

  /** One paragraph: rewritten when `findall` finds something, else left alone. */
  method AdjustText(text: string, brl: string -> string) returns (r: string)
    ensures r == AsWritten(text, brl)
  {
    r := text;
    if FindAmounts(text) != [] {
      r := ReplaceFound(text, brl);
    }
  }

  /** The paragraph loop of `ajustar_valores_docx`, with the converter `brl`
      (`formatar_valor_brl`, that is `Amounts.FormatValorBrl`, in the source). */
  method AdjustDocument(paragraphs: array<string>, brl: string -> string)
    modifies paragraphs
    ensures forall i :: 0 <= i < paragraphs.Length ==> paragraphs[i] == AsWritten(old(paragraphs[i]), brl)
  {
    ghost var before := paragraphs[..];
    var i := 0;
    while i < paragraphs.Length
      invariant 0 <= i <= paragraphs.Length
      invariant forall k :: 0 <= k < i ==> paragraphs[k] == AsWritten(before[k], brl)
      invariant forall k :: i <= k < paragraphs.Length ==> paragraphs[k] == before[k]
    {
      paragraphs[i] := AdjustText(paragraphs[i], brl);
      i := i + 1;
    }
  }
}
