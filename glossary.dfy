/**
 * The glossary filter `cruzar_descontos_com_rubricas` (app2.py:229-244): one
 * decision per distinct description, "is its best similarity score against the
 * glossary at least the threshold?", then applied to every row.
 *
 * The scorer `fuzz.ratio` is a parameter: any function from two strings to a
 * score in 0..100.
 */
module Glossary {
  import Scanner

  type Score = x: int | 0 <= x <= 100

  type Scorer = (string, string) -> Score

  /** The score `process.extractOne` reports: the best score of `desc` against any
      glossary entry. */
  function BestScore(desc: string, glossary: seq<string>, ratio: Scorer): (best: Score)
    requires glossary != []
    ensures forall k :: 0 <= k < |glossary| ==> ratio(desc, glossary[k]) <= best
    ensures exists k :: 0 <= k < |glossary| && ratio(desc, glossary[k]) == best
  {
    var last := ratio(desc, glossary[|glossary| - 1]);
    if |glossary| == 1 then last
    else
      var init := BestScore(desc, glossary[..|glossary| - 1], ratio);
      assert forall k :: 0 <= k < |glossary| - 1 ==> glossary[..|glossary| - 1][k] == glossary[k];
      if init >= last then init else last
  }

  /** `mapping[desc]`: the best score reaches the threshold. */
  predicate Matches(desc: string, glossary: seq<string>, threshold: int, ratio: Scorer)
    requires glossary != []
  {
    BestScore(desc, glossary, ratio) >= threshold
  }

  /** The rows whose description matches, in their original order. */
  function KeepMatching(rows: seq<Scanner.Row>, glossary: seq<string>, threshold: int, ratio: Scorer): seq<Scanner.Row>
    requires glossary != []
  {
    if rows == [] then []
    else
      KeepMatching(rows[..|rows| - 1], glossary, threshold, ratio)
      + (if Matches(rows[|rows| - 1].desc, glossary, threshold, ratio) then [rows[|rows| - 1]] else [])
  }

  /** The filter: nothing for an empty table or glossary, else the matching rows. */
  function GlossaryFilter(rows: seq<Scanner.Row>, glossary: seq<string>, threshold: int, ratio: Scorer): seq<Scanner.Row>
  {
    if rows == [] || glossary == [] then [] else KeepMatching(rows, glossary, threshold, ratio)
  }

  /** `df_descontos["DESCRIÇÃO"].unique()`: the distinct descriptions, in order of first
      appearance. */
  method UniqueDescriptions(rows: seq<Scanner.Row>) returns (unique: seq<string>)
    ensures forall d :: d in unique <==> exists i :: 0 <= i < |rows| && rows[i].desc == d
    ensures forall a, b :: 0 <= a < b < |unique| ==> unique[a] != unique[b]
  {
    unique := [];
    var i := 0;
    while i < |rows|
      invariant 0 <= i <= |rows|
      invariant forall d :: d in unique <==> exists k :: 0 <= k < i && rows[k].desc == d
      invariant forall a, b :: 0 <= a < b < |unique| ==> unique[a] != unique[b]
    {
      if rows[i].desc !in unique {
        unique := unique + [rows[i].desc];
      }
      i := i + 1;
    }
  }

  /** `cruzar_descontos_com_rubricas`: the `mapping` loop over distinct descriptions, then
      the mask applied row by row. */
  method FilterByGlossary(rows: seq<Scanner.Row>, glossary: seq<string>, threshold: int, ratio: Scorer)
    returns (kept: seq<Scanner.Row>)
    ensures kept == GlossaryFilter(rows, glossary, threshold, ratio)
  {
    if rows == [] || glossary == [] {
      return [];
    }
    var unique := UniqueDescriptions(rows);
    var mapping: map<string, bool> := map[];
    var i := 0;
    while i < |unique|
      invariant 0 <= i <= |unique|
      invariant forall d :: d in mapping <==> d in unique[..i]
      invariant forall d | d in mapping :: mapping[d] == Matches(d, glossary, threshold, ratio)
    {
      var desc := unique[i];
      var best := BestScore(desc, glossary, ratio);
      mapping := mapping[desc := best >= threshold];
      assert unique[..i + 1] == unique[..i] + [desc];
      i := i + 1;
    }
    assert unique[..i] == unique;
    kept := [];
    var j := 0;
    while j < |rows|
      invariant 0 <= j <= |rows|
      invariant kept == KeepMatching(rows[..j], glossary, threshold, ratio)
    {
      assert rows[j].desc in unique;
      if mapping[rows[j].desc] {
        kept := kept + [rows[j]];
      }
      assert rows[..j + 1][..j] == rows[..j];
      j := j + 1;
    }
    assert rows[..j] == rows;
  }

  /** `a` is `b` with some elements removed, order kept. */
  predicate IsSubsequence<T(==)>(a: seq<T>, b: seq<T>)
    decreases |b|
  {
    || a == []
    || (b != [] && a[|a| - 1] == b[|b| - 1] && IsSubsequence(a[..|a| - 1], b[..|b| - 1]))
    || (b != [] && IsSubsequence(a, b[..|b| - 1]))
  }

  lemma {:induction false} KeepMatchingSubsequence(rows: seq<Scanner.Row>, glossary: seq<string>, threshold: int, ratio: Scorer)
    requires glossary != []
    ensures IsSubsequence(KeepMatching(rows, glossary, threshold, ratio), rows)
  {
    if rows != [] {
      var init := rows[..|rows| - 1];
      KeepMatchingSubsequence(init, glossary, threshold, ratio);
      var kept := KeepMatching(rows, glossary, threshold, ratio);
      var keptInit := KeepMatching(init, glossary, threshold, ratio);
      if Matches(rows[|rows| - 1].desc, glossary, threshold, ratio) {
        assert kept[..|kept| - 1] == keptInit;
      } else {
        assert kept == keptInit;
      }
    }
  }

  /** A row is kept exactly when it is in the table, the glossary is not empty, and its
      description's best score reaches the threshold. */
  lemma {:induction false} GlossaryFilterMembers(rows: seq<Scanner.Row>, glossary: seq<string>, threshold: int, ratio: Scorer, r: Scanner.Row)
    ensures r in GlossaryFilter(rows, glossary, threshold, ratio) <==>
      r in rows && glossary != [] && Matches(r.desc, glossary, threshold, ratio)
    decreases |rows|
  {
    if rows != [] && glossary != [] {
      var init := rows[..|rows| - 1];
      GlossaryFilterMembers(init, glossary, threshold, ratio, r);
      assert forall x :: x in rows <==> x in init || x == rows[|rows| - 1];
      if init == [] {
        assert KeepMatching(init, glossary, threshold, ratio) == [];
      }
    }
  }

  /** Rows that share a description are kept or dropped together. */
  lemma SameDescriptionSameFate(rows: seq<Scanner.Row>, glossary: seq<string>, threshold: int, ratio: Scorer, i: nat, j: nat)
    requires i < |rows| && j < |rows| && rows[i].desc == rows[j].desc
    ensures rows[i] in GlossaryFilter(rows, glossary, threshold, ratio) <==>
      rows[j] in GlossaryFilter(rows, glossary, threshold, ratio)
  {
    GlossaryFilterMembers(rows, glossary, threshold, ratio, rows[i]);
    GlossaryFilterMembers(rows, glossary, threshold, ratio, rows[j]);
  }

  /** The result keeps the input's order: it is a subsequence. */
  lemma GlossaryFilterSubsequence(rows: seq<Scanner.Row>, glossary: seq<string>, threshold: int, ratio: Scorer)
    ensures IsSubsequence(GlossaryFilter(rows, glossary, threshold, ratio), rows)
  {
    if rows != [] && glossary != [] {
      KeepMatchingSubsequence(rows, glossary, threshold, ratio);
    }
  }

  /** With a non-empty glossary, a threshold of 0 or less keeps every row and one above
      100 keeps none. */
  lemma {:induction false} ThresholdExtremes(rows: seq<Scanner.Row>, glossary: seq<string>, threshold: int, ratio: Scorer)
    requires glossary != []
    ensures threshold <= 0 ==> KeepMatching(rows, glossary, threshold, ratio) == rows
    ensures threshold > 100 ==> KeepMatching(rows, glossary, threshold, ratio) == []
  {
    if rows != [] {
      ThresholdExtremes(rows[..|rows| - 1], glossary, threshold, ratio);
      assert rows == rows[..|rows| - 1] + [rows[|rows| - 1]];
    }
  }
}
