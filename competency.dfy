/**
 * The competency extractor `extrair_competencias_filtradas_por_contexto`
 * (app2.py:275-303): "MM/YYYY" periods found in the three lines that follow a
 * line naming both "Competência" and "Período", de-duplicated, sorted
 * chronologically and labelled "Competência 1", "Competência 2", ...
 */
module Competency {
  import opened Text
  import opened Wrappers
  import Scanner

  /** A row of the competency table: Data Competência and Nome Competência. */
  datatype Competency = Competency(date: string, name: string)

  // ---------------------------------------------------------------------------
  // The period pattern `\b(0[1-9]|1[0-2])/(\d{4})\b`

  /** `0[1-9]|1[0-2]`: a month written with two digits. */
  predicate MonthDigits(a: char, b: char)
  {
    (a == '0' && '1' <= b <= '9') || (a == '1' && '0' <= b <= '2')
  }

  /** A period as the pattern captures it: "MM/YYYY" with a month from 01 to 12. */
  predicate PeriodText(p: string)
  {
    |p| == 7 && MonthDigits(p[0], p[1]) && p[2] == '/' && AllDigits(p[3..])
  }

  /** The pattern matches at position `i` of `s`, word boundaries included. */
  predicate MatchAt(s: string, i: nat)
  {
    && i + 7 <= |s|
    && (i == 0 || !IsWordChar(s[i - 1]))
    && MonthDigits(s[i], s[i + 1])
    && s[i + 2] == '/'
    && AllDigits(s[i + 3..i + 7])
    && (i + 7 == |s| || !IsWordChar(s[i + 7]))
  }

  /** `findall` from position `i`: the leftmost match, then the search resumes after it. */
  function FindPeriodsFrom(s: string, i: nat): seq<string>
    decreases |s| - i
  {
    if i + 7 > |s| then []
    else if MatchAt(s, i) then [s[i..i + 7]] + FindPeriodsFrom(s, i + 7)
    else FindPeriodsFrom(s, i + 1)
  }

  /** `padrao_competencia.findall(linha)`, each `(mes, ano)` joined back as "MM/YYYY". */
  function FindPeriods(s: string): seq<string>
  {
    FindPeriodsFrom(s, 0)
  }

  lemma MatchIsPeriod(s: string, i: nat)
    requires MatchAt(s, i)
    ensures PeriodText(s[i..i + 7])
  {
    assert s[i..i + 7][3..] == s[i + 3..i + 7];
  }

  /** Two matches never overlap: inside a match every position but one follows a digit,
      and the one that follows the slash is not followed by a slash two places on. */
  lemma MatchesApart(s: string, i: nat, j: nat)
    requires MatchAt(s, i) && i < j < i + 7
    ensures !MatchAt(s, j)
  {
    if j != i + 3 {
      assert j - 1 == i || j - 1 == i + 1 || i + 3 <= j - 1 < i + 7;
      if i + 3 <= j - 1 {
        assert s[j - 1] == s[i + 3..i + 7][j - 1 - (i + 3)];
      }
      assert IsDigit(s[j - 1]);
    } else if j + 7 <= |s| {
      assert s[j + 2] == s[i + 3..i + 7][2];
    }
  }

  /** Soundness: `findall` returns only matches, each a period. */
  lemma {:induction false} FindPeriodsSound(s: string, from: nat, p: string)
    requires p in FindPeriodsFrom(s, from)
    ensures exists i: nat :: from <= i && MatchAt(s, i) && s[i..i + 7] == p
    ensures PeriodText(p)
    decreases |s| - from
  {
    if from + 7 <= |s| {
      if MatchAt(s, from) && p == s[from..from + 7] {
        MatchIsPeriod(s, from);
      } else if MatchAt(s, from) {
        FindPeriodsSound(s, from + 7, p);
      } else {
        FindPeriodsSound(s, from + 1, p);
      }
    }
  }

  /** Completeness: every match at or after `from` is returned. */
  lemma {:induction false} FindPeriodsComplete(s: string, from: nat, i: nat)
    requires from <= i && MatchAt(s, i)
    ensures s[i..i + 7] in FindPeriodsFrom(s, from)
    decreases |s| - from
  {
    if from < i {
      if MatchAt(s, from) {
        if i < from + 7 {
          MatchesApart(s, from, i);
        }
        FindPeriodsComplete(s, from + 7, i);
      } else {
        FindPeriodsComplete(s, from + 1, i);
      }
    }
  }

  /** A string is found in a line exactly when the pattern matches it somewhere there. */
  lemma FindPeriodsIff(s: string, p: string)
    ensures p in FindPeriods(s) <==> exists i: nat :: MatchAt(s, i) && s[i..i + 7] == p
    ensures p in FindPeriods(s) ==> PeriodText(p)
  {
    if p in FindPeriods(s) {
      FindPeriodsSound(s, 0, p);
    }
    if exists i: nat :: MatchAt(s, i) && s[i..i + 7] == p {
      var i: nat :| MatchAt(s, i) && s[i..i + 7] == p;
      FindPeriodsComplete(s, 0, i);
    }
  }

  // ---------------------------------------------------------------------------
  // Collection over pages

  /** A line naming both "Competência" and "Período" opens a window of three lines. */
  predicate IsContextLine(line: string)
  {
    Contains(line, "Competência") && Contains(line, "Período")
  }

  /** The periods of lines `i + 1` .. `i + m` that exist. */
  function WindowUpTo(lines: seq<string>, i: nat, m: nat): seq<string>
  {
    if m == 0 then []
    else WindowUpTo(lines, i, m - 1) + (if i + m < |lines| then FindPeriods(lines[i + m]) else [])
  }

  /** The periods contributed by line `i`. */
  function LinePeriods(lines: seq<string>, i: nat): seq<string>
    requires i < |lines|
  {
    if IsContextLine(lines[i]) then WindowUpTo(lines, i, 3) else []
  }

  /** The periods contributed by the first `n` lines of a page. */
  function PagePeriodsUpTo(lines: seq<string>, n: nat): seq<string>
    requires n <= |lines|
  {
    if n == 0 then [] else PagePeriodsUpTo(lines, n - 1) + LinePeriods(lines, n - 1)
  }

  /** The periods contributed by the first `n` pages. */
  function PeriodsUpTo(pages: seq<seq<string>>, n: nat): seq<string>
    requires n <= |pages|
  {
    if n == 0 then [] else PeriodsUpTo(pages, n - 1) + PagePeriodsUpTo(pages[n - 1], |pages[n - 1]|)
  }

  /** `competencias_extraidas`: every period found, in page and line order, with repeats. */
  function Periods(pages: seq<seq<string>>): seq<string>
  {
    PeriodsUpTo(pages, |pages|)
  }

  /** `p` is found in line `i + j`, if that line exists. */
  ghost predicate Found(lines: seq<string>, i: nat, j: nat, p: string)
  {
    i + j < |lines| && p in FindPeriods(lines[i + j])
  }

  /** `p` is found in line `i + j`, one of the three lines after the context line `i`. */
  ghost predicate Windowed(lines: seq<string>, i: int, j: int, p: string)
  {
    0 <= i < |lines| && 1 <= j <= 3 && IsContextLine(lines[i]) && Found(lines, i, j, p)
  }

  lemma {:induction false} WindowIff(lines: seq<string>, i: nat, m: nat, p: string)
    ensures p in WindowUpTo(lines, i, m) <==> exists j: nat :: 1 <= j <= m && Found(lines, i, j, p)
  {
    if m > 0 {
      WindowIff(lines, i, m - 1, p);
      if Found(lines, i, m, p) {
        assert p in WindowUpTo(lines, i, m);
      }
    }
  }

  lemma PagePeriodsIff(lines: seq<string>, n: nat, p: string)
    requires n <= |lines|
    ensures p in PagePeriodsUpTo(lines, n) <==> exists i, j :: i < n && Windowed(lines, i, j, p)
  {
    if p in PagePeriodsUpTo(lines, n) {
      PagePeriodsSound(lines, n, p);
    }
    if exists i, j :: i < n && Windowed(lines, i, j, p) {
      var i, j :| i < n && Windowed(lines, i, j, p);
      PagePeriodsComplete(lines, n, i, j, p);
    }
  }

  lemma {:induction false} PagePeriodsSound(lines: seq<string>, n: nat, p: string)
    requires n <= |lines| && p in PagePeriodsUpTo(lines, n)
    ensures exists i, j :: i < n && Windowed(lines, i, j, p)
  {
    var last := n - 1;
    if p in PagePeriodsUpTo(lines, last) {
      PagePeriodsSound(lines, last, p);
    } else {
      LinePeriodsIff(lines, last, p);
      var j :| Windowed(lines, last, j, p);
      assert last < n;
    }
  }

  lemma {:induction false} PagePeriodsComplete(lines: seq<string>, n: nat, i: nat, j: int, p: string)
    requires n <= |lines| && i < n && Windowed(lines, i, j, p)
    ensures p in PagePeriodsUpTo(lines, n)
  {
    var last := n - 1;
    if i < last {
      PagePeriodsComplete(lines, last, i, j, p);
    } else {
      LinePeriodsIff(lines, last, p);
    }
  }

  lemma LinePeriodsIff(lines: seq<string>, i: nat, p: string)
    requires i < |lines|
    ensures p in LinePeriods(lines, i) <==> exists j :: Windowed(lines, i, j, p)
  {
    WindowIff(lines, i, 3, p);
    if p in LinePeriods(lines, i) {
      var j: nat :| 1 <= j <= 3 && Found(lines, i, j, p);
      assert Windowed(lines, i, j, p);
    }
    if exists j :: Windowed(lines, i, j, p) {
      var j :| Windowed(lines, i, j, p);
      assert p in LinePeriods(lines, i);
    }
  }

  lemma PeriodsIff(pages: seq<seq<string>>, n: nat, p: string)
    requires n <= |pages|
    ensures p in PeriodsUpTo(pages, n) <==> exists q, i, j :: 0 <= q < n && Windowed(pages[q], i, j, p)
  {
    if p in PeriodsUpTo(pages, n) {
      PeriodsSound(pages, n, p);
    }
    if exists q, i, j :: 0 <= q < n && Windowed(pages[q], i, j, p) {
      var q, i, j :| 0 <= q < n && Windowed(pages[q], i, j, p);
      PeriodsComplete(pages, n, q, i, j, p);
    }
  }

  lemma {:induction false} PeriodsSound(pages: seq<seq<string>>, n: nat, p: string)
    requires n <= |pages| && p in PeriodsUpTo(pages, n)
    ensures exists q, i, j :: 0 <= q < n && Windowed(pages[q], i, j, p)
  {
    var last := n - 1;
    if p in PeriodsUpTo(pages, last) {
      PeriodsSound(pages, last, p);
    } else {
      var lines := pages[last];
      PagePeriodsIff(lines, |lines|, p);
      var i, j :| i < |lines| && Windowed(lines, i, j, p);
      assert Windowed(pages[last], i, j, p);
    }
  }

  lemma {:induction false} PeriodsComplete(pages: seq<seq<string>>, n: nat, q: nat, i: int, j: int, p: string)
    requires n <= |pages| && q < n && Windowed(pages[q], i, j, p)
    ensures p in PeriodsUpTo(pages, n)
  {
    var last := n - 1;
    if q < last {
      PeriodsComplete(pages, last, q, i, j, p);
    } else {
      var lines := pages[last];
      PagePeriodsIff(lines, |lines|, p);
      assert i < |lines|;
    }
  }

  /** A period is collected exactly when the pattern matches it in one of the three lines
      after a line naming "Competência" and "Período", on some page; every collected
      string is a period. */
  lemma PeriodsCollected(pages: seq<seq<string>>, p: string)
    ensures p in Periods(pages) <==> exists q, i, j :: 0 <= q < |pages| && Windowed(pages[q], i, j, p)
    ensures p in Periods(pages) ==> PeriodText(p)
  {
    PeriodsIff(pages, |pages|, p);
    if p in Periods(pages) {
      var q, i, j :| 0 <= q < |pages| && Windowed(pages[q], i, j, p);
      FindPeriodsIff(pages[q][i + j], p);
    }
  }

  /** The line loop of one page (app2.py:287-294). */
  method CollectPage(lines: seq<string>) returns (found: seq<string>)
    ensures found == PagePeriodsUpTo(lines, |lines|)
  {
    found := [];
    var i := 0;
    while i < |lines|
      invariant 0 <= i <= |lines|
      invariant found == PagePeriodsUpTo(lines, i)
    {
      if IsContextLine(lines[i]) {
        var j := 1;
        while j < 4
          invariant 1 <= j <= 4
          invariant found == PagePeriodsUpTo(lines, i) + WindowUpTo(lines, i, j - 1)
        {
          if i + j < |lines| {
            var matches := FindPeriods(lines[i + j]);
            AppendAssoc(PagePeriodsUpTo(lines, i), WindowUpTo(lines, i, j - 1), matches);
            found := found + matches;
          }
          j := j + 1;
        }
      }
      i := i + 1;
    }
  }

  /** The page loop (app2.py:280-294); a page without text has no lines. */
  method CollectPeriods(pages: seq<seq<string>>) returns (found: seq<string>)
    ensures found == Periods(pages)
  {
    found := [];
    var q := 0;
    while q < |pages|
      invariant 0 <= q <= |pages|
      invariant found == PeriodsUpTo(pages, q)
    {
      var pageFound := CollectPage(pages[q]);
      found := found + pageFound;
      q := q + 1;
    }
  }

  // ---------------------------------------------------------------------------
  // Chronological order and labels

  function Month(p: string): nat
    requires PeriodText(p)
  {
    DigitsValue(p[..2])
  }

  function Year(p: string): nat
    requires PeriodText(p)
  {
    DigitsValue(p[3..])
  }

  /** The sort key `datetime.strptime(p, "%m/%Y")`, as a month count. */
  function Key(p: string): int
  {
    if PeriodText(p) then Year(p) * 100 + Month(p) else -1
  }

  /** Distinct periods are distinct dates: the key is injective on periods. */
  lemma KeyInjective(p: string, q: string)
    requires PeriodText(p) && PeriodText(q) && Key(p) == Key(q)
    ensures p == q
  {
    DigitsValueBound(p[..2]);
    DigitsValueBound(q[..2]);
    assert Pow10(2) == 100;
    KeyParts(Year(p), Month(p), Year(q), Month(q));
    DigitsValueInjective(p[..2], q[..2]);
    DigitsValueInjective(p[3..], q[3..]);
    assert p == p[..2] + [p[2]] + p[3..];
    assert q == q[..2] + [q[2]] + q[3..];
  }

  lemma KeyParts(y1: int, m1: int, y2: int, m2: int)
    requires 0 <= m1 < 100 && 0 <= m2 < 100 && y1 * 100 + m1 == y2 * 100 + m2
    ensures y1 == y2 && m1 == m2
  {
  }

  ghost predicate AllPeriodText(xs: seq<string>)
  {
    forall i :: 0 <= i < |xs| ==> PeriodText(xs[i])
  }

  /** Strictly increasing dates: chronological and free of repeats. */
  ghost predicate Chronological(xs: seq<string>)
  {
    forall i, j :: 0 <= i < j < |xs| ==> Key(xs[i]) < Key(xs[j])
  }

  /** A date earlier than every date of a chronological list can lead it. */
  lemma ChronologicalCons(x: string, rest: seq<string>)
    requires Chronological(rest)
    requires forall k :: 0 <= k < |rest| ==> Key(x) < Key(rest[k])
    ensures Chronological([x] + rest)
  {
    var r := [x] + rest;
    forall i, j | 0 <= i < j < |r|
      ensures Key(r[i]) < Key(r[j])
    {
      assert r[j] == rest[j - 1];
      if i > 0 {
        assert r[i] == rest[i - 1];
      }
    }
  }

  /** Every element of a list drawn from `xs[1..]` and `p` comes after `xs[0]`. */
  lemma AfterHead(xs: seq<string>, p: string, rest: seq<string>)
    requires xs != [] && Chronological(xs) && Key(xs[0]) < Key(p)
    requires forall x :: x in rest ==> x in xs[1..] || x == p
    ensures forall k :: 0 <= k < |rest| ==> Key(xs[0]) < Key(rest[k])
  {
    forall k | 0 <= k < |rest|
      ensures Key(xs[0]) < Key(rest[k])
    {
      assert rest[k] in rest;
      if rest[k] != p {
        var t :| 0 <= t < |xs[1..]| && xs[1..][t] == rest[k];
        assert xs[t + 1] == rest[k];
      }
    }
  }

  /** Adds `p` to a chronological list unless it is already there. */
  function Insert(p: string, xs: seq<string>): (r: seq<string>)
    requires PeriodText(p) && AllPeriodText(xs) && Chronological(xs)
    ensures AllPeriodText(r) && Chronological(r)
    ensures forall x :: x in r <==> x in xs || x == p
  {
    if xs == [] then [p]
    else if p == xs[0] then xs
    else if Key(p) < Key(xs[0]) then
      ChronologicalCons(p, xs);
      [p] + xs
    else
      assert Key(p) != Key(xs[0]) by {
        if Key(p) == Key(xs[0]) {
          KeyInjective(p, xs[0]);
        }
      }
      var rest := Insert(p, xs[1..]);
      AfterHead(xs, p, rest);
      ChronologicalCons(xs[0], rest);
      assert forall x :: x in xs <==> x == xs[0] || x in xs[1..];
      [xs[0]] + rest
  }

  /** `sorted(set(xs), key=...)`: the distinct periods of `xs` in chronological order. */
  function SortUnique(xs: seq<string>): (r: seq<string>)
    requires AllPeriodText(xs)
    ensures AllPeriodText(r) && Chronological(r)
    ensures forall x :: x in r <==> x in xs
  {
    if xs == [] then []
    else
      var init := xs[..|xs| - 1];
      assert forall x :: x in xs <==> x in init || x == xs[|xs| - 1];
      Insert(xs[|xs| - 1], SortUnique(init))
  }

  lemma HeadNotInTail(a: seq<string>)
    requires a != [] && Chronological(a)
    ensures a[0] !in a[1..]
  {
    forall t | 0 <= t < |a| - 1
      ensures a[1..][t] != a[0]
    {
      assert Key(a[0]) < Key(a[t + 1]);
    }
  }

  /** The first date of a chronological list is its earliest. */
  lemma Earliest(b: seq<string>)
    requires b != [] && Chronological(b)
    ensures forall k :: 0 <= k < |b| ==> Key(b[0]) <= Key(b[k])
  {
    forall k | 0 < k < |b|
      ensures Key(b[0]) < Key(b[k])
    {
    }
  }

  /** Two chronological lists of periods with the same elements start with the same one. */
  lemma SameHead(a: seq<string>, b: seq<string>)
    requires a != [] && b != [] && AllPeriodText(a) && AllPeriodText(b)
    requires Chronological(a) && Chronological(b)
    requires forall x :: x in a <==> x in b
    ensures a[0] == b[0]
  {
    assert a[0] in a && b[0] in b;
    var k :| 0 <= k < |b| && b[k] == a[0];
    var m :| 0 <= m < |a| && a[m] == b[0];
    Earliest(a);
    Earliest(b);
    assert Key(b[0]) <= Key(a[0]) <= Key(b[0]);
    KeyInjective(a[0], b[0]);
  }

  /** A chronological list of periods is determined by its elements, so the order in which
      they were found does not matter. */
  lemma {:induction false} ChronologicalUnique(a: seq<string>, b: seq<string>)
    requires AllPeriodText(a) && AllPeriodText(b) && Chronological(a) && Chronological(b)
    requires forall x :: x in a <==> x in b
    ensures a == b
  {
    if a != [] {
      assert a[0] in b;
    }
    if b != [] {
      assert b[0] in a;
    }
    if a != [] {
      SameHead(a, b);
      HeadNotInTail(a);
      HeadNotInTail(b);
      assert forall x :: x in a <==> x == a[0] || x in a[1..];
      assert forall x :: x in b <==> x == b[0] || x in b[1..];
      ChronologicalUnique(a[1..], b[1..]);
      assert a == [a[0]] + a[1..] && b == [b[0]] + b[1..];
    }
  }

  /** "Competência i" for the i-th period, counting from 1. */
  function Label(dates: seq<string>): (table: seq<Competency>)
    ensures |table| == |dates|
    ensures forall i :: 0 <= i < |dates| ==>
      table[i].date == dates[i] && table[i].name == Scanner.IntervalLabel(i + 1)
  {
    seq(|dates|, i requires 0 <= i < |dates| => Competency(dates[i], Scanner.IntervalLabel(i + 1)))
  }

  /** Some collected period has year 0000, which `strptime` rejects. */
  predicate HasYearZero(xs: seq<string>)
  {
    exists i :: 0 <= i < |xs| && PeriodText(xs[i]) && Year(xs[i]) == 0
  }

  lemma PeriodsArePeriodText(pages: seq<seq<string>>)
    ensures AllPeriodText(Periods(pages))
  {
    var found := Periods(pages);
    forall i | 0 <= i < |found|
      ensures PeriodText(found[i])
    {
      PeriodsCollected(pages, found[i]);
    }
  }

  /** The dates column of a competency table. */
  function Dates(table: seq<Competency>): (dates: seq<string>)
    ensures |dates| == |table| && forall i :: 0 <= i < |table| ==> dates[i] == table[i].date
  {
    seq(|table|, i requires 0 <= i < |table| => table[i].date)
  }

  /** The competency table of the collected periods `found` (app2.py:296-301), or the error
      `strptime` raises for year 0000. On success the dates are the distinct periods of
      `found`, strictly chronological, named "Competência 1", "Competência 2", ... */
  function Tabulate(found: seq<string>): (r: Result<seq<Competency>, string>)
    requires AllPeriodText(found)
    ensures r.Failure? <==> HasYearZero(found)
    ensures r.Success? ==>
      && Chronological(Dates(r.value))
      && (forall p :: p in Dates(r.value) <==> p in found)
      && (forall i :: 0 <= i < |r.value| ==> r.value[i].name == Scanner.IntervalLabel(i + 1))
  {
    if HasYearZero(found) then Failure("year 0 is out of range")
    else
      var table := Label(SortUnique(found));
      assert Dates(table) == SortUnique(found);
      Success(table)
  }

  /** `extrair_competencias_filtradas_por_contexto` on a document's page lines. */
  function Competencies(pages: seq<seq<string>>): Result<seq<Competency>, string>
  {
    PeriodsArePeriodText(pages);
    Tabulate(Periods(pages))
  }

  /** The same, with the collection done by its loops. */
  method ExtractCompetencies(pages: seq<seq<string>>) returns (r: Result<seq<Competency>, string>)
    ensures r == Competencies(pages)
  {
    var found := CollectPeriods(pages);
    PeriodsArePeriodText(pages);
    r := Tabulate(found);
  }
}
