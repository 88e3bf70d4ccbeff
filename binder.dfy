/**
 * The date binder `criar_informacoes_com_datas` (app2.py:385-399): a record whose
 * Intervalos value names segment n, with 1 <= n <= the number of competencies,
 * takes the n-th competency's date as its Data; every other row keeps its own.
 */
module Binder {
  import opened Text
  import opened Wrappers
  import Scanner
  import Competency

  /** `Competência\s+(\d+)` matched at the start of `s`: the number it names. */
  function IntervalNumberAt(s: string): Option<nat>
  {
    if StartsWith(s, Scanner.CompetencyWord) then
      var t := s[|Scanner.CompetencyWord|..];
      var k := LeadingSpace(t);
      var u := t[k..];
      var d := DigitRun(u);
      if k >= 1 && d >= 1 then Some(DigitsValue(u[..d])) else None
    else None
  }

  /** `re.search` of that pattern: the number named at the leftmost position where it
      matches, `int(match.group(1))`. */
  function IntervalNumber(s: string): Option<nat>
    decreases |s|
  {
    if s == [] then None
    else
      match IntervalNumberAt(s)
      case Some(n) => Some(n)
      case None => IntervalNumber(s[1..])
  }

  /** The binder reads back the segment number the segment counter wrote. */
  lemma IntervalNumberOfLabel(n: nat)
    ensures IntervalNumber(Scanner.IntervalLabel(n)) == Some(n)
  {
    var word := Scanner.CompetencyWord;
    var digits := NatToString(n);
    var s := Scanner.IntervalLabel(n);
    assert s == word + " " + digits;
    assert s[..|word|] == word;
    var t := s[|word|..];
    assert t == [' '] + digits;
    assert !IsSpace(t[1]);
    assert LeadingSpace(t) == 1;
    assert t[1..] == digits;
    assert DigitRun(digits) == |digits|;
    assert digits[..|digits|] == digits;
  }

  /** The Data a tagged row ends with: the date of competency n when its Intervalos names
      segment n and 1 <= n <= |comps|, else its own page-level Data. */
  function BoundDate(t: Scanner.Tagged, comps: seq<Competency.Competency>): string
  {
    match IntervalNumber(t.interval)
    case Some(n) => if 1 <= n <= |comps| then comps[n - 1].date else t.row.date
    case None => t.row.date
  }

  /** The loop body on one row sets its Data to the bound date. */
  lemma BindOne(t: Scanner.Tagged, comps: seq<Competency.Competency>, number: Option<nat>, bound: Scanner.Tagged)
    requires number == IntervalNumber(t.interval)
    requires bound == if number.Some? && 0 <= number.value - 1 < |comps|
      then Scanner.Tagged(t.row.(date := comps[number.value - 1].date), t.interval) else t
    ensures bound == Scanner.Tagged(t.row.(date := BoundDate(t, comps)), t.interval)
  {
  }

  /** The row loop of `criar_informacoes_com_datas`: only the Data column changes. */
  method BindDates(rows: seq<Scanner.Tagged>, comps: seq<Competency.Competency>) returns (out: seq<Scanner.Tagged>)
    ensures |out| == |rows|
    ensures forall i :: 0 <= i < |rows| ==>
      out[i] == Scanner.Tagged(rows[i].row.(date := BoundDate(rows[i], comps)), rows[i].interval)
  {
    out := rows;
    var i := 0;
    while i < |out|
      invariant 0 <= i <= |out| == |rows|
      invariant forall k :: 0 <= k < i ==>
        out[k] == Scanner.Tagged(rows[k].row.(date := BoundDate(rows[k], comps)), rows[k].interval)
      invariant forall k :: i <= k < |out| ==> out[k] == rows[k]
    {
      var t := out[i];
      var number := IntervalNumber(t.interval);
      var bound := t;
      if number.Some? {
        var n := number.value;
        if 0 <= n - 1 < |comps| {
          bound := Scanner.Tagged(t.row.(date := comps[n - 1].date), t.interval);
        }
      }
      BindOne(t, comps, number, bound);
      out := out[i := bound];
      i := i + 1;
    }
  }

  /** On the scanner's output: header rows and records before the first header keep their
      page-level Data; a record in segment n takes competency n's date when there is one,
      and keeps its own otherwise. */
  lemma BoundDateOfSegment(rows: seq<Scanner.Row>, i: nat, comps: seq<Competency.Competency>)
    requires i < |rows|
    ensures var n := Scanner.HeadersBefore(rows, i);
      BoundDate(Scanner.Tagged(rows[i], Scanner.IntervalOf(rows, i)), comps) ==
        if rows[i].code != Scanner.HeaderCode && 1 <= n <= |comps| then comps[n - 1].date
        else rows[i].date
  {
    var n := Scanner.HeadersBefore(rows, i);
    if rows[i].code != Scanner.HeaderCode && n > 0 {
      IntervalNumberOfLabel(n);
    }
  }
}
