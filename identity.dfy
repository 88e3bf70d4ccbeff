/**
 * The name and NIT read from the first page's text (`extrair_nome_e_nit_corrigido`,
 * app2.py:257-271): `re.search(r"NIT:\s*([\d\.\-]+)")` and `re.search(r"Nome:\s*([A-Z\s]+)")`,
 * the captures stripped, the name cut at its first line break, "N/D" when nothing matches.
 */
module Identity {
  import opened Text
  import opened Wrappers

  const NitWord := "NIT:"
  const NameWord := "Nome:"
  /** What either field holds when its pattern finds nothing. */
  const Unknown := "N/D"

  /** The class `[\d\.\-]`. */
  predicate NitChar(c: char) { IsDigit(c) || c == '.' || c == '-' }

  predicate IsUpperAscii(c: char) { 'A' <= c <= 'Z' }

  /** The class `[A-Z\s]`. */
  predicate NameChar(c: char) { IsUpperAscii(c) || IsSpace(c) }

  /** Length of the leading run of `[\d\.\-]`. */
  function NitRun(s: string): (n: nat)
    ensures n <= |s|
    ensures forall i :: 0 <= i < n ==> NitChar(s[i])
    ensures n == |s| || !NitChar(s[n])
  {
    if s == [] || !NitChar(s[0]) then 0 else 1 + NitRun(s[1..])
  }

  /** Length of the leading run of `[A-Z\s]`. */
  function NameRun(s: string): (n: nat)
    ensures n <= |s|
    ensures forall i :: 0 <= i < n ==> NameChar(s[i])
    ensures n == |s| || !NameChar(s[n])
  {
    if s == [] || !NameChar(s[0]) then 0 else 1 + NameRun(s[1..])
  }

  /** `re.search`: the capture of the leftmost position where `at` matches. */
  function Search(s: string, at: string -> Option<string>): Option<string>
    decreases |s|
  {
    if s == [] then None
    else
      match at(s)
      case Some(c) => Some(c)
      case None => Search(s[1..], at)
  }

  /** The NIT pattern matched at the start of `s`: its group 1. `\s*` takes every space; the
      class after it holds no space, so giving spaces back never helps. */
  function NitAt(s: string): (r: Option<string>)
    ensures r.Some? ==> r.value != [] && forall i :: 0 <= i < |r.value| ==> NitChar(r.value[i])
  {
    if !StartsWith(s, NitWord) then None
    else
      var t := s[|NitWord|..];
      var u := t[LeadingSpace(t)..];
      var n := NitRun(u);
      if n == 0 then None else Some(u[..n])
  }

  /** The name pattern matched at the start of `s`: its group 1. After the greedy `\s*`, the
      capture is the `[A-Z\s]` run that follows; when that run is empty but `\s*` took a
      space, the engine gives the last space back and the capture is that one space. */
  function NameAt(s: string): (r: Option<string>)
    ensures r.Some? ==> r.value != [] && forall i :: 0 <= i < |r.value| ==> NameChar(r.value[i])
  {
    if !StartsWith(s, NameWord) then None
    else
      var t := s[|NameWord|..];
      var k := LeadingSpace(t);
      var u := t[k..];
      var n := NameRun(u);
      if n > 0 then Some(u[..n])
      else if k > 0 then Some([t[k - 1]])
      else None
  }

  /** The NIT field: the stripped capture, or "N/D". */
  function Nit(text: string): string
  {
    match Search(text, NitAt)
    case Some(c) => Strip(c)
    case None => Unknown
  }

  /** The name field: the stripped capture up to its first line break, or "N/D". */
  function Name(text: string): string
  {
    match Search(text, NameAt)
    case Some(c) => SplitOn(Strip(c), '\n')[0]
    case None => Unknown
  }

  /** `re.search` finds the capture of the leftmost matching position, and nothing when no
      position matches. */
  lemma {:induction false} SearchLeftmost(s: string, at: string -> Option<string>)
    ensures Search(s, at).None? <==> forall i :: 0 <= i < |s| ==> at(s[i..]).None?
    ensures Search(s, at).Some? ==>
      exists i :: 0 <= i < |s| && at(s[i..]) == Search(s, at) && forall j :: 0 <= j < i ==> at(s[j..]).None?
    decreases |s|
  {
    if s != [] {
      assert s[0..] == s;
      SearchLeftmost(s[1..], at);
      forall i | 1 <= i < |s|
        ensures s[i..] == s[1..][i - 1..]
      {
      }
      if at(s).None? && Search(s, at).Some? {
        var i :| 0 <= i < |s[1..]| && at(s[1..][i..]) == Search(s, at) && forall j :: 0 <= j < i ==> at(s[1..][j..]).None?;
        assert s[i + 1..] == s[1..][i..];
        forall j | 0 <= j < i + 1
          ensures at(s[j..]).None?
        {
          if j > 0 {
            assert s[j..] == s[1..][j - 1..];
          }
        }
      }
    }
  }

  /** A NIT capture never holds whitespace, so stripping it changes nothing, and the field is
      "N/D" exactly when no position matches (a capture never starts with 'N'). */
  lemma NitField(text: string)
    ensures Nit(text) == Unknown <==> forall i :: 0 <= i < |text| ==> NitAt(text[i..]).None?
    ensures Search(text, NitAt).Some? ==> Nit(text) == Search(text, NitAt).value
  {
    SearchLeftmost(text, NitAt);
    if Search(text, NitAt).Some? {
      var c := Search(text, NitAt).value;
      NitSearchValue(text);
      NitCaptureStripped(c);
      assert c[0] != Unknown[0];
    }
  }

  /** What the NIT search finds is a capture of the NIT pattern. */
  lemma NitSearchValue(text: string)
    requires Search(text, NitAt).Some?
    ensures Search(text, NitAt).value != []
    ensures forall i :: 0 <= i < |Search(text, NitAt).value| ==> NitChar(Search(text, NitAt).value[i])
  {
    SearchLeftmost(text, NitAt);
    var i :| 0 <= i < |text| && NitAt(text[i..]) == Search(text, NitAt);
  }

  lemma NitCaptureStripped(c: string)
    requires c != [] && forall i :: 0 <= i < |c| ==> NitChar(c[i])
    ensures Strip(c) == c
  {
    assert NitChar(c[0]) && NitChar(c[|c| - 1]);
    StripUnchanged(c);
  }

  /** Round trip: a NIT written after its label, with any spacing, is read back. */
  lemma NitOfLabel(ws: string, nit: string, rest: string)
    requires forall i :: 0 <= i < |ws| ==> IsSpace(ws[i])
    requires nit != [] && forall i :: 0 <= i < |nit| ==> NitChar(nit[i])
    requires rest == [] || !NitChar(rest[0])
    ensures Nit(NitWord + ws + nit + rest) == nit
  {
    var s := NitWord + ws + nit + rest;
    assert s[..|NitWord|] == NitWord;
    var t := s[|NitWord|..];
    assert t == ws + (nit + rest);
    LeadingSpaceOver(ws, nit + rest);
    var u := t[|ws|..];
    assert u == nit + rest;
    assert NitRun(u) == |nit| by {
      NitRunOver(nit, rest);
    }
    assert u[..|nit|] == nit;
    assert NitAt(s) == Some(nit);
    NitCaptureStripped(nit);
  }

  lemma {:induction false} LeadingSpaceOver(ws: string, v: string)
    requires forall i :: 0 <= i < |ws| ==> IsSpace(ws[i])
    requires v != [] && !IsSpace(v[0])
    ensures LeadingSpace(ws + v) == |ws|
  {
    if ws != [] {
      assert (ws + v)[1..] == ws[1..] + v;
      LeadingSpaceOver(ws[1..], v);
    }
  }

  lemma {:induction false} NitRunOver(a: string, b: string)
    requires forall i :: 0 <= i < |a| ==> NitChar(a[i])
    requires b == [] || !NitChar(b[0])
    ensures NitRun(a + b) == |a|
  {
    if a != [] {
      assert (a + b)[1..] == a[1..] + b;
      NitRunOver(a[1..], b);
    } else {
      assert a + b == b;
    }
  }

  lemma {:induction false} NameRunOver(a: string, b: string)
    requires forall i :: 0 <= i < |a| ==> NameChar(a[i])
    ensures NameRun(a + b) == |a| + NameRun(b)
  {
    if a != [] {
      assert (a + b)[1..] == a[1..] + b;
      NameRunOver(a[1..], b);
    } else {
      assert a + b == b;
    }
  }

  /** A name: capital letters and spaces, beginning and ending with a letter. */
  predicate IsName(name: string)
  {
    && name != []
    && (forall i :: 0 <= i < |name| ==> IsUpperAscii(name[i]) || name[i] == ' ')
    && IsUpperAscii(name[0]) && IsUpperAscii(name[|name| - 1])
  }

  /** Stripping a string that starts and ends its first part with a non-space keeps that
      part and cuts only from the rest. */
  lemma StripKeepsHead(a: string, b: string)
    requires a != [] && !IsSpace(a[0]) && !IsSpace(a[|a| - 1])
    ensures exists b' :: Strip(a + b) == a + b' && (b' == [] || b' == b[..|b'|])
  {
    var s := a + b;
    assert LeadingSpace(s) == 0;
    assert s[0..] == s;
    var n := TrailingSpace(s);
    assert !IsSpace(s[|a| - 1]);
    assert n <= |b|;
    var b' := b[..|b| - n];
    assert Strip(s) == s[..|s| - n];
    assert s[..|s| - n] == a + b';
  }

  /** After the label and its spaces, the capture is the name followed by the `[A-Z\s]` run
      of what comes after it. */
  lemma NameAtLabel(ws: string, name: string, rest: string)
    requires forall i :: 0 <= i < |ws| ==> IsSpace(ws[i])
    requires IsName(name)
    ensures NameAt(NameWord + ws + name + rest) == Some(name + rest[..NameRun(rest)])
  {
    var s := NameWord + ws + name + rest;
    assert s[..|NameWord|] == NameWord;
    var t := s[|NameWord|..];
    assert t == ws + (name + rest);
    LeadingSpaceOver(ws, name + rest);
    var u := t[|ws|..];
    assert u == name + rest;
    NameRunOver(name, rest);
    assert u[..|name| + NameRun(rest)] == name + rest[..NameRun(rest)];
  }

  /** The name pattern at the label: the capture is the name, then possibly a line break and
      whatever `[A-Z\s]` run follows it. */
  lemma NameCapture(ws: string, name: string, rest: string)
    requires forall i :: 0 <= i < |ws| ==> IsSpace(ws[i])
    requires IsName(name)
    requires rest == [] || rest[0] == '\n' || !NameChar(rest[0])
    ensures exists more :: NameAt(NameWord + ws + name + rest) == Some(name + more) && (more == [] || more[0] == '\n')
  {
    NameAtLabel(ws, name, rest);
    var more := rest[..NameRun(rest)];
    if more != [] {
      assert NameChar(rest[0]);
    }
    assert NameAt(NameWord + ws + name + rest) == Some(name + more);
  }

  /** Cutting at the first `c` keeps a part free of `c` that is followed by `c` or nothing. */
  lemma FirstPiece(a: string, c: char, b: string)
    requires forall j :: 0 <= j < |a| ==> a[j] != c
    requires b == [] || b[0] == c
    ensures SplitOn(a + b, c)[0] == a
  {
    if b == [] {
      assert a + b == a;
      assert IndexOf(a, c) == |a|;
    } else {
      assert a + b == a + [c] + b[1..];
      IndexOfFirst(a, c, b[1..]);
      assert (a + b)[..|a|] == a;
    }
  }

  /** Stripping and cutting at the first line break leave a name followed by a line break. */
  lemma NameFirstLine(name: string, more: string)
    requires IsName(name)
    requires more == [] || more[0] == '\n'
    ensures SplitOn(Strip(name + more), '\n')[0] == name
  {
    StripKeepsHead(name, more);
    var b' :| Strip(name + more) == name + b' && (b' == [] || b' == more[..|b'|]);
    assert forall j :: 0 <= j < |name| ==> name[j] != '\n';
    FirstPiece(name, '\n', b');
  }

  /** Round trip: a name written after its label, then a line break or any character outside
      `[A-Z\s]`, is read back. */
  lemma NameOfLabel(ws: string, name: string, rest: string)
    requires forall i :: 0 <= i < |ws| ==> IsSpace(ws[i])
    requires IsName(name)
    requires rest == [] || rest[0] == '\n' || !NameChar(rest[0])
    ensures Name(NameWord + ws + name + rest) == name
  {
    NameCapture(ws, name, rest);
    var more :| NameAt(NameWord + ws + name + rest) == Some(name + more) && (more == [] || more[0] == '\n');
    NameFirstLine(name, more);
  }

  /** When the label and its spaces are followed by anything outside `[A-Z\s]` (digits, say),
      the engine gives back the last space, the capture is that one space, and the name read
      is empty rather than "N/D". */
  lemma NameBeforeNonName(ws: string, rest: string)
    requires ws != [] && forall i :: 0 <= i < |ws| ==> IsSpace(ws[i])
    requires rest != [] && !NameChar(rest[0])
    ensures Name(NameWord + ws + rest) == []
  {
    var s := NameWord + ws + rest;
    assert s[..|NameWord|] == NameWord;
    var t := s[|NameWord|..];
    assert t == ws + rest;
    LeadingSpaceOver(ws, rest);
    assert t[|ws|..] == rest;
    assert NameAt(s) == Some([ws[|ws| - 1]]);
    assert Strip([ws[|ws| - 1]]) == [];
  }
}
