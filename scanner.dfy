/**
 * The payslip line scanner and the segment counter of
 * `extrair_dados_contracheques_plumber` (app2.py:305-383).
 *
 * A document is its pages, each page the lines of its extracted text.
 * Extraction is off until the first line matching the DIP pattern (the
 * "Data de Início do Pagamento (DIP)" banner); that line is skipped, and from
 * then on, on every later line and page, lines holding "Data de Nascimento"
 * are dropped and the rest are classified as a "Rubrica" header row, a
 * deduction record, or nothing.
 */
module Scanner {
  import opened Text
  import opened Wrappers

  /** One row of the extraction table: columns Código, Descrição Rubrica, Valor, Data, Página. */
  datatype Row = Row(code: string, desc: string, amount: string, date: string, page: int)

  /** A row with its Intervalos column, as the segment counter leaves it. */
  datatype Tagged = Tagged(row: Row, interval: string)

  const HeaderCode: string := "Rubrica"
  const DipPrefix: string := "Data de Início do Pagamento (DIP): "
  const DipMiddle: string := " MR: R$ "
  const BirthMarker: string := "Data de Nascimento"
  const CompetencyWord: string := "Competência"
  const NoDate: string := "N/A"

  /** The row emitted for a "RUBRICA" header line. */
  function HeaderRow(date: string, page: int): Row
  {
    Row(HeaderCode, "Descrição Rubrica", "Valor", date, page)
  }

  /** `text.split("\n")` for a page whose text is not empty; an empty or absent text
      contributes no lines. */
  function PageLines(text: string): (lines: seq<string>)
    ensures text != [] ==> Join(lines, "\n") == text
  {
    if text == [] then [] else SplitOn(text, '\n')
  }

  // ---------------------------------------------------------------------------
  // The start trigger and the line filter

  predicate AmountChar(c: char) { IsDigit(c) || c == '.' || c == ',' }

  /** `\d{2}/\d{2}/\d{4} MR: R\$ [\d.,]+`, anchored at the start of `t`, trailing text allowed. */
  predicate DipTail(t: string)
  {
    && |t| >= 19
    && AllDigits(t[0..2]) && t[2] == '/'
    && AllDigits(t[3..5]) && t[5] == '/'
    && AllDigits(t[6..10])
    && t[10..18] == DipMiddle
    && AmountChar(t[18])
  }

  /** `padrao_DIP.match(line)`: the DIP banner at the start of the line. */
  predicate DipMatch(line: string)
  {
    StartsWith(line, DipPrefix) && DipTail(line[|DipPrefix|..])
  }

  /** Some line of `lines` is a DIP line. */
  predicate HasDip(lines: seq<string>)
  {
    lines != [] && (DipMatch(lines[0]) || HasDip(lines[1..]))
  }

  /** `HasDip` holds exactly when some line is a DIP line. */
  lemma {:induction false} HasDipIff(lines: seq<string>)
    ensures HasDip(lines) <==> exists j :: 0 <= j < |lines| && DipMatch(lines[j])
  {
    if lines != [] {
      HasDipIff(lines[1..]);
      if HasDip(lines[1..]) {
        var j :| 0 <= j < |lines[1..]| && DipMatch(lines[1..][j]);
        assert DipMatch(lines[j + 1]);
      }
      if exists j :: 0 <= j < |lines| && DipMatch(lines[j]) {
        var j :| 0 <= j < |lines| && DipMatch(lines[j]);
        if j > 0 {
          assert DipMatch(lines[1..][j - 1]);
        }
      }
    }
  }

  lemma {:induction false} HasDipSnoc(lines: seq<string>, line: string)
    ensures HasDip(lines + [line]) == (HasDip(lines) || DipMatch(line))
  {
    if lines != [] {
      assert (lines + [line])[1..] == lines[1..] + [line];
      HasDipSnoc(lines[1..], line);
    }
  }

  /** Index of the first DIP line of a page, if any. */
  function FirstDip(lines: seq<string>): (r: Option<nat>)
    ensures r.None? <==> !HasDip(lines)
    ensures r.Some? ==> r.value < |lines| && DipMatch(lines[r.value])
    ensures r.Some? ==> forall j :: 0 <= j < r.value ==> !DipMatch(lines[j])
  {
    if lines == [] then None
    else if DipMatch(lines[0]) then Some(0)
    else
      match FirstDip(lines[1..])
      case None =>
        None
      case Some(k) =>
        assert forall j :: 1 <= j <= k ==> lines[j] == lines[1..][j - 1];
        Some(k + 1)
  }

  /** The lines that survive the birth-date filter, in order. */
  function DropBirth(lines: seq<string>): seq<string>
  {
    if lines == [] then []
    else (if Contains(lines[0], BirthMarker) then [] else [lines[0]]) + DropBirth(lines[1..])
  }

  /** The lines of one page that reach classification (`linhas_filtradas`), given whether
      extraction was already on when the page began: all lines once on; otherwise only
      those after the page's first DIP line, and none when the page has no DIP line.
      Birth-date lines are dropped in both cases. */
  function Kept(started: bool, lines: seq<string>): seq<string>
  {
    if started then DropBirth(lines)
    else
      match FirstDip(lines)
      case None => []
      case Some(k) => DropBirth(lines[k + 1..])
  }

  /** One step of the line filter's state machine. */
  lemma {:induction false} KeptStep(started: bool, lines: seq<string>)
    requires lines != []
    ensures Kept(started, lines) ==
      if started then
        (if Contains(lines[0], BirthMarker) then [] else [lines[0]]) + Kept(true, lines[1..])
      else if DipMatch(lines[0]) then Kept(true, lines[1..])
      else Kept(false, lines[1..])
  {
    if !started && !DipMatch(lines[0]) {
      match FirstDip(lines[1..])
      case None =>
        assert !HasDip(lines);
      case Some(k) =>
        assert FirstDip(lines) == Some(k + 1);
        assert lines[k + 2..] == lines[1..][k + 1..];
    }
  }

  // ---------------------------------------------------------------------------
  // Page date and line classification

  /** `\d{2}/\d{4}`: a month/year period written "MM/YYYY". */
  predicate MonthYearText(s: string)
  {
    |s| == 7 && AllDigits(s[..2]) && s[2] == '/' && AllDigits(s[3..])
  }

  /** `Competência\s*(\d{2}/\d{4})` matched at the start of `s`; the captured period. */
  function CompetencyAt(s: string): (r: Option<string>)
    ensures r.Some? ==> MonthYearText(r.value)
  {
    if StartsWith(s, CompetencyWord) then
      var t := s[|CompetencyWord|..];
      var u := t[LeadingSpace(t)..];
      if |u| >= 7 && MonthYearText(u[..7]) then Some(u[..7]) else None
    else None
  }

  /** `re.search` of that pattern: the leftmost position where it matches. */
  function SearchCompetency(s: string): (r: Option<string>)
    ensures r.Some? ==> MonthYearText(r.value)
    decreases |s|
  {
    if s == [] then None
    else
      match CompetencyAt(s)
      case Some(v) => Some(v)
      case None => SearchCompetency(s[1..])
  }

  /** The page-level Data: the first "Competência MM/YYYY" in the page's surviving lines
      joined by newlines, or "N/A". */
  function PageDate(kept: seq<string>): (date: string)
    ensures date == NoDate || MonthYearText(date)
  {
    match SearchCompetency(Join(kept, "\n"))
    case Some(v) => v
    case None => NoDate
  }

  /** `"RUBRICA" in linha.upper()`. */
  predicate IsHeaderLine(line: string)
  {
    Contains(Upper(line), "RUBRICA")
  }

  /** At least three whitespace-separated fields, the first made of digits. */
  predicate IsRecordLine(line: string)
  {
    var f := SplitWs(line);
    |f| >= 3 && IsDigitString(f[0])
  }

  /** `" ".join(parts[1:-1]).replace("R$", "").strip()`. */
  function Description(parts: seq<string>): (d: string)
    requires |parts| >= 2
    ensures Stripped(d)
  {
    Strip(ReplaceAll(Join(parts[1..|parts| - 1], " "), "R$", ""))
  }

  /** The rows one surviving line yields: a header row, a record, or nothing. */
  function Classify(line: string, date: string, page: int): seq<Row>
  {
    if IsHeaderLine(line) then [HeaderRow(date, page)]
    else
      var parts := SplitWs(line);
      if |parts| >= 3 && IsDigitString(parts[0]) then
        [Row(parts[0], Description(parts), parts[|parts| - 1], date, page)]
      else []
  }

  /** A line yields a header row exactly when it mentions "RUBRICA" in any letter case;
      otherwise a record exactly when it has three or more fields led by a digit string,
      the record's code being that first field and its amount the last. */
  lemma ClassifyCases(line: string, date: string, page: int)
    ensures var r := Classify(line, date, page);
      && |r| <= 1
      && (IsHeaderLine(line) ==> r == [HeaderRow(date, page)])
      && (!IsHeaderLine(line) ==> (r != [] <==> IsRecordLine(line)))
      && (forall x | x in r :: x.date == date && x.page == page)
      && (forall x | x in r :: x.code == HeaderCode <==> IsHeaderLine(line))
      && (r != [] && !IsHeaderLine(line) ==>
            var f := SplitWs(line);
            && r[0].code == f[0] && IsDigitString(r[0].code)
            && r[0].amount == f[|f| - 1] && r[0].amount != [] && NoSpace(r[0].amount)
            && Stripped(r[0].desc))
  {
    if !IsHeaderLine(line) {
      var parts := SplitWs(line);
      ClassifyOther(line, date, page);
      if |parts| >= 3 && IsDigitString(parts[0]) {
        RecordFields(parts);
      }
    }
  }

  lemma ClassifyOther(line: string, date: string, page: int)
    requires !IsHeaderLine(line)
    ensures var f := SplitWs(line);
      Classify(line, date, page) ==
        if |f| >= 3 && IsDigitString(f[0]) then [Row(f[0], Description(f), f[|f| - 1], date, page)] else []
  {
  }

  /** The fields of a record line: a numeric code, which is never "Rubrica", and a
      non-empty amount without spaces. */
  lemma RecordFields(f: seq<string>)
    requires |f| >= 3 && IsDigitString(f[0])
    requires forall k :: 0 <= k < |f| ==> f[k] != [] && NoSpace(f[k])
    ensures f[0] != HeaderCode
    ensures f[|f| - 1] != [] && NoSpace(f[|f| - 1])
  {
    assert f[0][0] != HeaderCode[0];
  }

  /** A row of the extraction table as the scanner can produce it. */
  ghost predicate WellFormedRow(r: Row)
  {
    && (r.code == HeaderCode ==> r == HeaderRow(r.date, r.page))
    && (r.code != HeaderCode ==> IsDigitString(r.code) && r.amount != [] && NoSpace(r.amount) && Stripped(r.desc))
    && (r.date == NoDate || MonthYearText(r.date))
  }

  function ClassifyAll(lines: seq<string>, date: string, page: int): seq<Row>
  {
    if lines == [] then [] else Classify(lines[0], date, page) + ClassifyAll(lines[1..], date, page)
  }

  /** The rows of one page: nothing when no line survived, else every surviving line
      classified under the page's Data. */
  function PageRows(kept: seq<string>, page: int): seq<Row>
  {
    if kept == [] then [] else ClassifyAll(kept, PageDate(kept), page)
  }

  /** Each surviving line yields at most one row, stamped with the page's Data and number. */
  lemma {:induction false} ClassifyAllRows(lines: seq<string>, date: string, page: int)
    requires date == NoDate || MonthYearText(date)
    ensures |ClassifyAll(lines, date, page)| <= |lines|
    ensures forall x | x in ClassifyAll(lines, date, page) :: x.date == date && x.page == page && WellFormedRow(x)
  {
    if lines != [] {
      ClassifyCases(lines[0], date, page);
      ClassifyAllRows(lines[1..], date, page);
    }
  }

  lemma PageRowsWellFormed(kept: seq<string>, page: int)
    ensures forall x | x in PageRows(kept, page) :: x.page == page && WellFormedRow(x)
  {
    if kept != [] {
      ClassifyAllRows(kept, PageDate(kept), page);
    }
  }

  /** The surviving lines of each page, given whether extraction is already on: the
      `iniciar_extracao` flag turns on at the first DIP line and stays on for every
      later page. */
  function KeptPages(pages: seq<seq<string>>, started: bool): (kept: seq<seq<string>>)
    ensures |kept| == |pages|
  {
    if pages == [] then []
    else [Kept(started, pages[0])] + KeptPages(pages[1..], started || HasDip(pages[0]))
  }

  /** The rows of pages whose surviving lines are `kept`, numbered from `page`. */
  function RowsOf(kept: seq<seq<string>>, page: int): seq<Row>
  {
    if kept == [] then [] else PageRows(kept[0], page) + RowsOf(kept[1..], page + 1)
  }

  /** The whole scan: extraction off at the start, pages numbered from 1. */
  function Scan(pages: seq<seq<string>>): seq<Row>
  {
    RowsOf(KeptPages(pages, false), 1)
  }

  // ---------------------------------------------------------------------------
  // The imperative scanner and the segment counter

  /** The line loop of one page (app2.py:317-336): the lines that survive the DIP gate and
      the birth-date filter, and whether extraction is on after the page. */
  method FilterLines(started: bool, lines: seq<string>) returns (kept: seq<string>, startedAfter: bool)
    ensures kept == Kept(started, lines)
    ensures startedAfter == (started || HasDip(lines))
  {
    kept := [];
    startedAfter := started;
    var i := 0;
    while i < |lines|
      invariant 0 <= i <= |lines|
      invariant kept + Kept(startedAfter, lines[i..]) == Kept(started, lines)
      invariant startedAfter == (started || HasDip(lines[..i]))
    {
      var line := lines[i];
      FilterStep(started, lines, i, kept, startedAfter);
      if !startedAfter {
        if DipMatch(line) {
          startedAfter := true;
        }
      } else if !Contains(line, BirthMarker) {
        kept := kept + [line];
      }
      i := i + 1;
    }
    assert lines[..i] == lines && lines[i..] == [];
  }

  /** One iteration of the line loop keeps the loop's invariant. */
  lemma FilterStep(started: bool, lines: seq<string>, i: nat, kept: seq<string>, on: bool)
    requires i < |lines|
    requires kept + Kept(on, lines[i..]) == Kept(started, lines)
    requires on == (started || HasDip(lines[..i]))
    ensures var kept' := if on && !Contains(lines[i], BirthMarker) then kept + [lines[i]] else kept;
      kept' + Kept(on || DipMatch(lines[i]), lines[i + 1..]) == Kept(started, lines)
    ensures (on || DipMatch(lines[i])) == (started || HasDip(lines[..i + 1]))
  {
    KeptStep(on, lines[i..]);
    assert lines[i..][1..] == lines[i + 1..];
    if on {
      AppendAssoc(kept, [lines[i]], Kept(true, lines[i + 1..]));
      assert [] + Kept(true, lines[i + 1..]) == Kept(true, lines[i + 1..]);
    }
    HasDipPrefix(lines, i);
  }

  lemma HasDipPrefix(lines: seq<string>, i: nat)
    requires i < |lines|
    ensures HasDip(lines[..i + 1]) == (HasDip(lines[..i]) || DipMatch(lines[i]))
  {
    assert lines[..i + 1] == lines[..i] + [lines[i]];
    HasDipSnoc(lines[..i], lines[i]);
  }

  /** The body of the classification loop for one line: the rows it appends, and the
      `rubrica_detectada` flag after it. */
  method ClassifyLine(line: string, date: string, page: int, rubricaDetected: bool)
    returns (found: seq<Row>, detectedAfter: bool)
    ensures found == Classify(line, date, page)
  {
    found := [];
    detectedAfter := rubricaDetected;
    if IsHeaderLine(line) {
      ClassifyHeader(line, date, page);
      found := [HeaderRow(date, page)];
      detectedAfter := true;
    } else {
      var parts := SplitWs(line);
      if |parts| >= 3 && IsDigitString(parts[0]) {
        if detectedAfter {
          detectedAfter := false;
        }
        found := [Row(parts[0], Description(parts), parts[|parts| - 1], date, page)];
      }
      ClassifyOther(line, date, page);
    }
  }

  lemma ClassifyHeader(line: string, date: string, page: int)
    requires IsHeaderLine(line)
    ensures Classify(line, date, page) == [HeaderRow(date, page)]
  {
  }

  /** The classification loop of one page (app2.py:342-372); `rubrica_detectada` is set
      and cleared as in the source and never reaches a row. */
  method ClassifyLines(kept: seq<string>, date: string, page: int) returns (rows: seq<Row>)
    ensures rows == ClassifyAll(kept, date, page)
  {
    rows := [];
    var rubricaDetected := false;
    var j := 0;
    while j < |kept|
      invariant 0 <= j <= |kept|
      invariant rows + ClassifyAll(kept[j..], date, page) == ClassifyAll(kept, date, page)
    {
      assert kept[j..][1..] == kept[j + 1..];
      var found;
      found, rubricaDetected := ClassifyLine(kept[j], date, page, rubricaDetected);
      rows := rows + found;
      j := j + 1;
    }
    assert kept[j..] == [];
  }

  /** One iteration of the page loop: the page's rows, and whether extraction is on
      after the page. */
  method ScanPage(started: bool, lines: seq<string>, page: int) returns (pageRows: seq<Row>, startedAfter: bool)
    ensures pageRows == PageRows(Kept(started, lines), page)
    ensures startedAfter == (started || HasDip(lines))
  {
    var kept;
    kept, startedAfter := FilterLines(started, lines);
    pageRows := [];
    if kept != [] {
      var date := PageDate(kept);
      pageRows := ClassifyLines(kept, date, page);
    }
  }

  lemma ScanStep(pages: seq<seq<string>>, p: nat, started: bool, page: int)
    requires p < |pages|
    ensures RowsOf(KeptPages(pages[p..], started), page) ==
      PageRows(Kept(started, pages[p]), page) + RowsOf(KeptPages(pages[p + 1..], started || HasDip(pages[p])), page + 1)
  {
    assert pages[p..][0] == pages[p] && pages[p..][1..] == pages[p + 1..];
  }

  /** The page loop of `extrair_dados_contracheques_plumber` (app2.py:313-372): the
      `iniciar_extracao` flag is carried from page to page. */
  method ExtractRows(pages: seq<seq<string>>) returns (rows: seq<Row>)
    ensures rows == Scan(pages)
  {
    rows := [];
    var started := false;
    var p := 0;
    while p < |pages|
      invariant 0 <= p <= |pages|
      invariant rows + RowsOf(KeptPages(pages[p..], started), p + 1) == Scan(pages)
    {
      var pageRows;
      ghost var before := rows;
      ScanStep(pages, p, started, p + 1);
      pageRows, started := ScanPage(started, pages[p], p + 1);
      AppendAssoc(before, pageRows, RowsOf(KeptPages(pages[p + 1..], started), p + 2));
      rows := rows + pageRows;
      p := p + 1;
    }
    assert pages[p..] == [] && pages[0..] == pages;
  }

  /** Number of "Rubrica" header rows among the first `i` rows. */
  function HeadersBefore(rows: seq<Row>, i: nat): nat
    requires i <= |rows|
  {
    if i == 0 then 0
    else HeadersBefore(rows, i - 1) + (if rows[i - 1].code == HeaderCode then 1 else 0)
  }

  /** The label of segment `n`: "Competência n". */
  function IntervalLabel(n: nat): string
  {
    CompetencyWord + " " + NatToString(n)
  }

  /** The Intervalos value of row `i`: empty for a header row; for a record, the label of
      the number of header rows before it, or empty when there is none. */
  function IntervalOf(rows: seq<Row>, i: nat): string
    requires i < |rows|
  {
    if rows[i].code == HeaderCode then ""
    else
      var n := HeadersBefore(rows, i);
      if n > 0 then IntervalLabel(n) else ""
  }

  /** The `current_segment` loop (app2.py:374-382). */
  method AssignIntervals(rows: seq<Row>) returns (tagged: seq<Tagged>)
    ensures |tagged| == |rows|
    ensures forall i :: 0 <= i < |rows| ==> tagged[i] == Tagged(rows[i], IntervalOf(rows, i))
  {
    var currentSegment := 0;
    tagged := [];
    var i := 0;
    while i < |rows|
      invariant 0 <= i <= |rows|
      invariant currentSegment == HeadersBefore(rows, i)
      invariant |tagged| == i
      invariant forall k :: 0 <= k < i ==> tagged[k] == Tagged(rows[k], IntervalOf(rows, k))
    {
      var interval: string;
      IntervalStep(rows, i);
      TaggedSnoc(rows, tagged, i);
      if rows[i].code == HeaderCode {
        currentSegment := currentSegment + 1;
        interval := "";
      } else {
        interval := if currentSegment > 0 then IntervalLabel(currentSegment) else "";
      }
      tagged := tagged + [Tagged(rows[i], interval)];
      i := i + 1;
    }
  }

  /** One step of the segment counter: a header row opens the next segment and gets no
      interval; any other row gets the current segment's label, if a segment is open. */
  lemma IntervalStep(rows: seq<Row>, i: nat)
    requires i < |rows|
    ensures HeadersBefore(rows, i + 1) == HeadersBefore(rows, i) + (if rows[i].code == HeaderCode then 1 else 0)
    ensures IntervalOf(rows, i) ==
      if rows[i].code == HeaderCode then ""
      else if HeadersBefore(rows, i) > 0 then IntervalLabel(HeadersBefore(rows, i)) else ""
  {
  }

  /** Appending the tagged row `i` extends the tagged prefix by one. */
  lemma TaggedSnoc(rows: seq<Row>, tagged: seq<Tagged>, i: nat)
    requires i < |rows| && |tagged| == i
    requires forall k :: 0 <= k < i ==> tagged[k] == Tagged(rows[k], IntervalOf(rows, k))
    ensures var t := tagged + [Tagged(rows[i], IntervalOf(rows, i))];
      forall k :: 0 <= k < i + 1 ==> t[k] == Tagged(rows[k], IntervalOf(rows, k))
  {
  }

  /** `extrair_dados_contracheques_plumber`: the scan followed by the segment counter. */
  method ExtractPayslip(pages: seq<seq<string>>) returns (tagged: seq<Tagged>)
    ensures |tagged| == |Scan(pages)|
    ensures forall i :: 0 <= i < |tagged| ==> tagged[i] == Tagged(Scan(pages)[i], IntervalOf(Scan(pages), i))
  {
    var rows := ExtractRows(pages);
    tagged := AssignIntervals(rows);
  }

  // ---------------------------------------------------------------------------
  // Properties of the scan

  /** Some page of `pages` has a DIP line. */
  predicate AnyDip(pages: seq<seq<string>>)
  {
    pages != [] && (HasDip(pages[0]) || AnyDip(pages[1..]))
  }

  lemma {:induction false} AnyDipIff(pages: seq<seq<string>>)
    ensures AnyDip(pages) <==> exists q :: 0 <= q < |pages| && HasDip(pages[q])
  {
    if pages != [] {
      AnyDipIff(pages[1..]);
      if AnyDip(pages[1..]) {
        var q :| 0 <= q < |pages[1..]| && HasDip(pages[1..][q]);
        assert HasDip(pages[q + 1]);
      }
      if exists q :: 0 <= q < |pages| && HasDip(pages[q]) {
        var q :| 0 <= q < |pages| && HasDip(pages[q]);
        if q > 0 {
          assert HasDip(pages[1..][q - 1]);
        }
      }
    }
  }

  /** Page `q` keeps its lines as the line filter does with extraction on exactly when it
      was on at the start or some earlier page has a DIP line. */
  lemma {:induction false} KeptPagesAt(pages: seq<seq<string>>, started: bool, q: nat)
    requires q < |pages|
    ensures KeptPages(pages, started)[q] == Kept(started || AnyDip(pages[..q]), pages[q])
  {
    if q == 0 {
      assert pages[..q] == [];
    } else {
      KeptPagesAt(pages[1..], started || HasDip(pages[0]), q - 1);
      assert pages[..q][0] == pages[0];
      assert pages[..q][1..] == pages[1..][..q - 1];
      assert pages[1..][q - 1] == pages[q];
    }
  }

  /** Birth-date lines are dropped and every other line is kept. */
  lemma {:induction false} DropBirthKeeps(lines: seq<string>)
    ensures forall l | l in DropBirth(lines) :: l in lines && !Contains(l, BirthMarker)
    ensures forall l | l in lines && !Contains(l, BirthMarker) :: l in DropBirth(lines)
  {
    if lines != [] {
      DropBirthKeeps(lines[1..]);
      assert forall l | l in lines :: l == lines[0] || l in lines[1..];
    }
  }

  /** Gating: when the document's first DIP line is line `k` of page `p`, the pages before
      `p` keep nothing, page `p` keeps what follows line `k`, and every later page keeps
      all its lines; birth-date lines are dropped throughout. */
  lemma ScanGating(pages: seq<seq<string>>, p: nat, k: nat)
    requires p < |pages| && k < |pages[p]| && DipMatch(pages[p][k])
    requires forall q :: 0 <= q < p ==> !HasDip(pages[q])
    requires forall j :: 0 <= j < k ==> !DipMatch(pages[p][j])
    ensures var kept := KeptPages(pages, false);
      && (forall q :: 0 <= q < p ==> kept[q] == [])
      && kept[p] == DropBirth(pages[p][k + 1..])
      && (forall q :: p < q < |pages| ==> kept[q] == DropBirth(pages[q]))
  {
    forall q | 0 <= q < p
      ensures KeptPages(pages, false)[q] == []
    {
      GatingBefore(pages, p, q);
    }
    GatingAt(pages, p, k);
    HasDipIff(pages[p]);
    forall q | p < q < |pages|
      ensures KeptPages(pages, false)[q] == DropBirth(pages[q])
    {
      GatingAfter(pages, p, q);
    }
  }

  lemma GatingBefore(pages: seq<seq<string>>, p: nat, q: nat)
    requires q < p < |pages|
    requires forall q :: 0 <= q < p ==> !HasDip(pages[q])
    ensures KeptPages(pages, false)[q] == []
  {
    NoDipBefore(pages, q);
    KeptPagesAt(pages, false, q);
    KeptWithoutDip(pages[q]);
  }

  /** No page before `q` has a DIP line. */
  lemma NoDipBefore(pages: seq<seq<string>>, q: nat)
    requires q <= |pages|
    requires forall i :: 0 <= i < q ==> !HasDip(pages[i])
    ensures !AnyDip(pages[..q])
  {
    AnyDipIff(pages[..q]);
    forall i | 0 <= i < q
      ensures !HasDip(pages[..q][i])
    {
      assert pages[..q][i] == pages[i];
    }
  }

  /** Before the trigger, a page without a DIP line keeps nothing. */
  lemma KeptWithoutDip(lines: seq<string>)
    requires !HasDip(lines)
    ensures Kept(false, lines) == []
  {
    assert FirstDip(lines).None?;
  }

  lemma GatingAt(pages: seq<seq<string>>, p: nat, k: nat)
    requires p < |pages| && k < |pages[p]| && DipMatch(pages[p][k])
    requires forall q :: 0 <= q < p ==> !HasDip(pages[q])
    requires forall j :: 0 <= j < k ==> !DipMatch(pages[p][j])
    ensures KeptPages(pages, false)[p] == DropBirth(pages[p][k + 1..])
  {
    NoDipBefore(pages, p);
    KeptPagesAt(pages, false, p);
    HasDipIff(pages[p]);
    assert FirstDip(pages[p]) == Some(k);
  }

  lemma GatingAfter(pages: seq<seq<string>>, p: nat, q: nat)
    requires p < q < |pages| && HasDip(pages[p])
    ensures KeptPages(pages, false)[q] == DropBirth(pages[q])
  {
    KeptPagesAt(pages, false, q);
    AnyDipIff(pages[..q]);
    assert pages[..q][p] == pages[p];
  }

  lemma {:induction false} RowsOfNothing(kept: seq<seq<string>>, page: int)
    requires forall q :: 0 <= q < |kept| ==> kept[q] == []
    ensures RowsOf(kept, page) == []
  {
    if kept != [] {
      RowsOfNothing(kept[1..], page + 1);
    }
  }

  /** Without a DIP line anywhere, the scan yields nothing. */
  lemma ScanWithoutTrigger(pages: seq<seq<string>>)
    requires forall q :: 0 <= q < |pages| ==> !HasDip(pages[q])
    ensures Scan(pages) == []
  {
    var kept := KeptPages(pages, false);
    forall q | 0 <= q < |pages|
      ensures kept[q] == []
    {
      KeptPagesAt(pages, false, q);
      AnyDipIff(pages[..q]);
    }
    RowsOfNothing(kept, 1);
  }

  lemma {:induction false} RowsOfRows(kept: seq<seq<string>>, page: int)
    ensures forall r | r in RowsOf(kept, page) :: WellFormedRow(r) && page <= r.page < page + |kept|
  {
    if kept != [] {
      PageRowsWellFormed(kept[0], page);
      RowsOfRows(kept[1..], page + 1);
    }
  }

  /** Every row of the scan is a header row or a record with a numeric code and a
      one-field amount, carries a page-level Data that is "N/A" or "MM/YYYY", and
      names a page of the document. */
  lemma ScanRows(pages: seq<seq<string>>)
    ensures forall r | r in Scan(pages) :: WellFormedRow(r) && 1 <= r.page <= |pages|
  {
    RowsOfRows(KeptPages(pages, false), 1);
  }
}
