/** The two regular expressions the comment parser applies, written out as
    total functions over the text with the exact behaviour of Python's
    backtracking engine:
    - `re.search(r'\*\*<label>[：:]\*\*\s*(.+)', body)` — the first labelled field;
    - `re.findall(r'\|([^|]+)\|([^|]+)\|([^|]+)\|', body)` — every three-cell table row. */
module Patterns {
  import opened Seqs
  import opened Text

  // ---------------------------------------------------------------------------
  // Table rows: `\|([^|]+)\|([^|]+)\|([^|]+)\|` under findall
  // ---------------------------------------------------------------------------

  /** The three captured cells of one row match, as typed (not yet stripped). */
  datatype Row = Row(c0: string, c1: string, c2: string)

  /** A cell `[^|]+` can capture: non-empty and without a bar. Line breaks are allowed. */
  predicate CellText(c: string)
  {
    c != [] && '|' !in c
  }

  predicate WellFormedRow(r: Row)
  {
    CellText(r.c0) && CellText(r.c1) && CellText(r.c2)
  }

  /** The text a row match consumes, closing bar included. */
  function RowText(r: Row): string
  {
    "|" + (r.c0 + ("|" + (r.c1 + ("|" + (r.c2 + "|")))))
  }

  /** The first bar at or after index `j`. */
  function BarFrom(s: string, j: nat): (e: Option<nat>)
    requires j <= |s|
    ensures e.Some? ==> j <= e.value < |s| && s[e.value] == '|'
    decreases |s| - j
  {
    if j == |s| then None else if s[j] == '|' then Some(j) else BarFrom(s, j + 1)
  }

  /** `([^|]+)\|` tried at index `i`: the index of the bar that closes the
      cell. The greedy `[^|]+` runs to the first bar, and backtracking never
      helps, since what it gives back is not a bar. */
  function CellEnd(s: string, i: nat): (e: Option<nat>)
    requires i <= |s|
    ensures e.Some? ==> i < e.value < |s| && s[e.value] == '|'
  {
    if i == |s| || s[i] == '|' then None else BarFrom(s, i + 1)
  }

  /** No bar lies before the bar found. */
  lemma {:induction false} BarFromFirst(s: string, j: nat)
    requires j <= |s| && BarFrom(s, j).Some?
    ensures forall k :: j <= k < BarFrom(s, j).value ==> s[k] != '|'
    decreases |s| - j
  {
    if s[j] != '|' {
      BarFromFirst(s, j + 1);
    }
  }

  /** A bar with no bar before it is the one found. */
  lemma {:induction false} BarFromTo(s: string, j: nat, e: nat)
    requires j <= e < |s| && s[e] == '|' && forall k :: j <= k < e ==> s[k] != '|'
    ensures BarFrom(s, j) == Some(e)
    decreases e - j
  {
    if j < e {
      BarFromTo(s, j + 1, e);
    }
  }

  /** What a cell match captures is a cell's text. */
  lemma CellEndText(s: string, i: nat)
    requires i <= |s| && CellEnd(s, i).Some?
    ensures CellText(s[i..CellEnd(s, i).value])
  {
    var e := CellEnd(s, i).value;
    BarFromFirst(s, i + 1);
    assert forall k :: 0 <= k < e - i ==> s[i..e][k] == s[i + k];
  }

  /** A cell followed by a bar is captured whole. */
  lemma CellAt(s: string, i: nat, c: string)
    requires i + |c| < |s| && s[i..i + |c|] == c && s[i + |c|] == '|' && CellText(c)
    ensures CellEnd(s, i) == Some(i + |c|)
  {
    assert forall k :: i <= k < i + |c| ==> s[k] == c[k - i] && c[k - i] in c;
    assert s[i] == c[0];
    BarFromTo(s, i + 1, i + |c|);
  }

  /** The row pattern tried at the start of `s`: the captured row and the
      number of characters the match consumes. */
  function RowAt(s: string): (m: Option<(Row, nat)>)
    ensures m.Some? ==> 0 < m.value.1 <= |s|
  {
    if s == [] || s[0] != '|' then None
    else match CellEnd(s, 1)
      case None => None
      case Some(a) =>
        match CellEnd(s, a + 1)
        case None => None
        case Some(b) =>
          match CellEnd(s, b + 1)
          case None => None
          case Some(c) => Some((Row(s[1..a], s[a + 1..b], s[b + 1..c]), c + 1))
  }

  /** A match captures three cells and consumes the row's text. */
  lemma RowAtRow(s: string)
    requires RowAt(s).Some?
    ensures WellFormedRow(RowAt(s).value.0) && RowAt(s).value.1 == |RowText(RowAt(s).value.0)|
  {
    var a := CellEnd(s, 1).value;
    var b := CellEnd(s, a + 1).value;
    CellEndText(s, 1);
    CellEndText(s, a + 1);
    CellEndText(s, b + 1);
  }

  /** A match consumes exactly the text of the row it captures. */
  lemma RowAtConsumes(s: string)
    requires RowAt(s).Some?
    ensures s[..RowAt(s).value.1] == RowText(RowAt(s).value.0)
  {
    var a := CellEnd(s, 1).value;
    var b := CellEnd(s, a + 1).value;
    var c := CellEnd(s, b + 1).value;
    RowAtCells(s, a, b, c);
    SliceRow(s, a, b, c);
  }

  /** The text of a match, cut at its four bars, is the row's text. */
  lemma SliceRow(s: string, a: nat, b: nat, c: nat)
    requires 0 < a < b < c < |s|
    requires s[0] == '|' && s[a] == '|' && s[b] == '|' && s[c] == '|'
    ensures s[..c + 1] == RowText(Row(s[1..a], s[a + 1..b], s[b + 1..c]))
  {
    assert s[b + 1..c + 1] == s[b + 1..c] + "|";
    assert s[b..c + 1] == "|" + s[b + 1..c + 1];
    assert s[a + 1..c + 1] == s[a + 1..b] + s[b..c + 1];
    assert s[a..c + 1] == "|" + s[a + 1..c + 1];
    assert s[1..c + 1] == s[1..a] + s[a..c + 1];
    assert s[..c + 1] == "|" + s[1..c + 1];
  }

  /** `re.findall` of the row pattern: at each position try a match; on success
      record it and resume after it, otherwise advance by one character. */
  function ScanRows(s: string): (rows: seq<Row>)
    ensures forall r :: r in rows ==> WellFormedRow(r)
    ensures 7 * |rows| <= |s|
    decreases |s|
  {
    if s == [] then []
    else match RowAt(s)
      case Some((r, n)) =>
        RowAtRow(s);
        [r] + ScanRows(s[n..])
      case None => ScanRows(s[1..])
  }

  /** A row written out in the table syntax is matched as exactly that row. */
  lemma RowAtText(r: Row, rest: string)
    requires WellFormedRow(r)
    ensures RowAt(RowText(r) + rest) == Some((r, |RowText(r)|))
  {
    var s := RowText(r) + rest;
    var a, b, c := 1 + |r.c0|, 2 + |r.c0| + |r.c1|, 3 + |r.c0| + |r.c1| + |r.c2|;
    RowTextSlices(r, rest);
    RowTextCells(s, r, a, b, c);
    RowAtCells(s, a, b, c);
    assert Row(s[1..a], s[a + 1..b], s[b + 1..c]) == r;
  }

  /** The three cells of a row's text are captured whole. */
  lemma RowTextCells(s: string, r: Row, a: nat, b: nat, c: nat)
    requires WellFormedRow(r) && a == 1 + |r.c0| && b == a + 1 + |r.c1| && c == b + 1 + |r.c2|
    requires |s| > c && s[0] == '|' && s[a] == '|' && s[b] == '|' && s[c] == '|'
    requires s[1..a] == r.c0 && s[a + 1..b] == r.c1 && s[b + 1..c] == r.c2
    ensures CellEnd(s, 1) == Some(a) && CellEnd(s, a + 1) == Some(b) && CellEnd(s, b + 1) == Some(c)
  {
    CellAt(s, 1, r.c0);
    CellAt(s, a + 1, r.c1);
    CellAt(s, b + 1, r.c2);
  }

  /** The pieces of a row's text followed by more text. */
  lemma RowTextSlices(r: Row, rest: string)
    ensures var s, a, b, c := RowText(r) + rest, 1 + |r.c0|, 2 + |r.c0| + |r.c1|, 3 + |r.c0| + |r.c1| + |r.c2|;
      && |s| > c && s[0] == '|' && s[a] == '|' && s[b] == '|' && s[c] == '|'
      && s[1..a] == r.c0 && s[a + 1..b] == r.c1 && s[b + 1..c] == r.c2
      && |RowText(r)| == c + 1
  {
    var s := RowText(r) + rest;
    var t0 := r.c0 + ("|" + (r.c1 + ("|" + (r.c2 + ("|" + rest)))));
    RowTextThen(r, rest);
    assert s[1..] == t0;
    CellsThen(s, r.c0, r.c1, r.c2, rest);
  }

  /** Three cells, each closed by a bar, after the first character of `s`. */
  lemma CellsThen(s: string, c0: string, c1: string, c2: string, rest: string)
    requires 1 <= |s| && s[1..] == c0 + ("|" + (c1 + ("|" + (c2 + ("|" + rest)))))
    ensures var a, b, c := 1 + |c0|, 2 + |c0| + |c1|, 3 + |c0| + |c1| + |c2|;
      && |s| > c && s[a] == '|' && s[b] == '|' && s[c] == '|'
      && s[1..a] == c0 && s[a + 1..b] == c1 && s[b + 1..c] == c2
  {
    var t1 := c1 + ("|" + (c2 + ("|" + rest)));
    CellThen(s, 1, c0, t1);
    TwoCellsThen(s, 2 + |c0|, c1, c2, rest);
  }

  /** Two cells, each closed by a bar, from index `i` of `s`. */
  lemma TwoCellsThen(s: string, i: nat, c1: string, c2: string, rest: string)
    requires i <= |s| && s[i..] == c1 + ("|" + (c2 + ("|" + rest)))
    ensures && i + |c1| + |c2| + 1 < |s| && s[i + |c1|] == '|' && s[i + |c1| + 1 + |c2|] == '|'
      && s[i..i + |c1|] == c1 && s[i + |c1| + 1..i + |c1| + 1 + |c2|] == c2
  {
    CellThen(s, i, c1, c2 + ("|" + rest));
    CellThen(s, i + |c1| + 1, c2, rest);
  }

  lemma RowTextThen(r: Row, rest: string)
    ensures RowText(r) + rest == "|" + (r.c0 + ("|" + (r.c1 + ("|" + (r.c2 + ("|" + rest))))))
  {
    var u := "|" + (r.c1 + ("|" + (r.c2 + "|")));
    var u2 := "|" + (r.c2 + "|");
    assert (r.c2 + "|") + rest == r.c2 + ("|" + rest);
    assert u2 + rest == "|" + (r.c2 + ("|" + rest));
    assert (r.c1 + u2) + rest == r.c1 + (u2 + rest);
    assert u + rest == "|" + (r.c1 + ("|" + (r.c2 + ("|" + rest))));
    assert (r.c0 + u) + rest == r.c0 + (u + rest);
  }

  /** A cell and its closing bar at index `i` of `s`, followed by `t`. */
  lemma CellThen(s: string, i: nat, c: string, t: string)
    requires i <= |s| && s[i..] == c + ("|" + t)
    ensures i + |c| < |s| && s[i..i + |c|] == c && s[i + |c|] == '|' && s[i + |c| + 1..] == t
  {
    assert s[i..][..|c|] == c;
    assert s[i..][|c|] == '|';
    assert s[i..][|c| + 1..] == t;
  }

  lemma RowAtCells(s: string, a: nat, b: nat, c: nat)
    requires s != [] && s[0] == '|' && a < |s| && b < |s|
    requires CellEnd(s, 1) == Some(a) && CellEnd(s, a + 1) == Some(b) && CellEnd(s, b + 1) == Some(c)
    ensures RowAt(s) == Some((Row(s[1..a], s[a + 1..b], s[b + 1..c]), c + 1))
  {
  }

  /** Text without a bar holds no row. */
  lemma {:induction false} ScanRowsNoBar(s: string)
    requires '|' !in s
    ensures ScanRows(s) == []
    decreases |s|
  {
    if s != [] {
      assert s[0] in s;
      assert forall k :: 0 <= k < |s| - 1 ==> s[1..][k] in s;
      ScanRowsNoBar(s[1..]);
    }
  }

  /** Text without a bar in front of the table does not change what is scanned. */
  lemma {:induction false} ScanRowsSkip(p: string, s: string)
    requires '|' !in p
    ensures ScanRows(p + s) == ScanRows(s)
    decreases |p|
  {
    if p != [] {
      assert p[0] in p;
      assert (p + s)[0] == p[0];
      assert (p + s)[1..] == p[1..] + s;
      assert forall k :: 0 <= k < |p| - 1 ==> p[1..][k] in p;
      ScanRowsSkip(p[1..], s);
    } else {
      assert p + s == s;
    }
  }

  /** A well-formed row at the front is scanned first, and the scan resumes right after it. */
  lemma ScanRowsRow(r: Row, s: string)
    requires WellFormedRow(r)
    ensures ScanRows(RowText(r) + s) == [r] + ScanRows(s)
  {
    RowAtText(r, s);
    assert (RowText(r) + s)[|RowText(r)|..] == s;
  }

  /** A Markdown table, one row per line. */
  function TableText(rows: seq<Row>): string
  {
    if rows == [] then "" else RowText(rows[0]) + ("\n" + TableText(rows[1..]))
  }

  /** Scanning a table written one row per line gives back exactly its rows, in order. */
  lemma {:induction false} ScanRowsTable(rows: seq<Row>, s: string)
    requires forall r :: r in rows ==> WellFormedRow(r)
    ensures ScanRows(TableText(rows) + s) == rows + ScanRows(s)
    decreases |rows|
  {
    if rows == [] {
      assert TableText(rows) + s == s;
    } else {
      var t := TableText(rows[1..]);
      TableTextFront(rows, s);
      ScanRowsRow(rows[0], "\n" + (t + s));
      ScanRowsSkip("\n", t + s);
      ScanRowsTable(rows[1..], s);
      var tail := ScanRows(s);
      assert ScanRows(TableText(rows) + s) == [rows[0]] + (rows[1..] + tail);
      ConsAppend(rows, tail);
    }
  }

  lemma TableTextFront(rows: seq<Row>, s: string)
    requires rows != []
    ensures TableText(rows) + s == RowText(rows[0]) + ("\n" + (TableText(rows[1..]) + s))
  {
  }

  /** Every scanned row occurs, bars and all, in the scanned text. */
  lemma {:induction false} ScanRowsOccur(s: string, r: Row)
    requires r in ScanRows(s)
    ensures Contains(s, RowText(r))
    decreases |s|
  {
    match RowAt(s)
    case Some((r0, n)) =>
      if r == r0 {
        RowAtConsumes(s);
        ContainsInfix([], RowText(r), s[n..]);
        assert [] + RowText(r) + s[n..] == s;
      } else {
        ScanRowsOccur(s[n..], r);
        ContainsSuffix(s, n, RowText(r));
      }
    case None =>
      ScanRowsOccur(s[1..], r);
      ContainsSuffix(s, 1, RowText(r));
  }

  lemma ContainsSuffix(s: string, n: nat, sub: string)
    requires n <= |s| && Contains(s[n..], sub)
    ensures Contains(s, sub)
  {
    ContainsIff(s[n..], sub);
    var i :| OccursAt(s[n..], sub, i);
    assert s[n + i..n + i + |sub|] == s[n..][i..i + |sub|];
    assert OccursAt(s, sub, n + i);
    ContainsIff(s, sub);
  }

  // ---------------------------------------------------------------------------
  // Labelled fields: `\*\*<label>[：:]\*\*\s*(.+)` under search
  // ---------------------------------------------------------------------------

  predicate IsColon(c: char)
  {
    c == '：' || c == ':'
  }

  /** `**<label>[：:]**` at the start of `s`; it is `|label| + 5` characters long. */
  predicate LabelAt(s: string, key: string)
  {
    && |s| >= |key| + 5
    && s[0] == '*' && s[1] == '*'
    && s[2..2 + |key|] == key
    && IsColon(s[2 + |key|])
    && s[3 + |key|] == '*' && s[4 + |key|] == '*'
  }

  /** How far the greedy `\s*` reaches: the leading whitespace, line breaks included. */
  function SpaceRun(s: string): (n: nat)
    ensures n <= |s| && AllSpace(s[..n])
    ensures n < |s| ==> !IsSpace(s[n])
    decreases |s|
  {
    if s != [] && IsSpace(s[0]) then
      var n := 1 + SpaceRun(s[1..]);
      assert forall k :: 1 <= k < n ==> s[..n][k] == s[1..][..n - 1][k - 1];
      n
    else 0
  }

  /** How far `.` repeated reaches: up to the next line break. */
  function LineRun(s: string): (n: nat)
    ensures n <= |s| && '\n' !in s[..n]
    ensures n < |s| ==> s[n] == '\n'
    decreases |s|
  {
    if s != [] && s[0] != '\n' then
      var n := 1 + LineRun(s[1..]);
      assert forall k :: 1 <= k < n ==> s[..n][k] == s[1..][..n - 1][k - 1];
      n
    else 0
  }

  /** The last index below `hi` that is not a line break. */
  function LastNonNewline(s: string, hi: nat): (p: Option<nat>)
    requires hi <= |s|
    ensures p.Some? ==> p.value < hi && s[p.value] != '\n' && forall q :: p.value < q < hi ==> s[q] == '\n'
    ensures p.None? ==> forall q :: 0 <= q < hi ==> s[q] == '\n'
  {
    if hi == 0 then None
    else if s[hi - 1] != '\n' then Some(hi - 1)
    else LastNonNewline(s, hi - 1)
  }

  /** `\s*(.+)` at the start of `s`, group 1. The greedy `\s*` takes the whole
      whitespace run and gives it back one character at a time until `.+` can
      take at least one non-line-break character; `.+` then runs to the end of
      that line. So the group starts at the last position `\s*` may stop at
      that is not a line break. */
  function SpaceThenLine(s: string): (g: Option<string>)
    ensures g.Some? ==> g.value != [] && '\n' !in g.value
  {
    var k := SpaceRun(s);
    match LastNonNewline(s, if k < |s| then k + 1 else k)
    case None => None
    case Some(q) => Some(s[q..q + LineRun(s[q..])])
  }

  /** The whole field pattern tried at the start of `s`: group 1, if it matches. */
  function FieldAt(s: string, key: string): (g: Option<string>)
    ensures g.Some? ==> LabelAt(s, key) && g.value != [] && '\n' !in g.value
  {
    if LabelAt(s, key) then SpaceThenLine(s[|key| + 5..]) else None
  }

  /** `re.search` of the field pattern: group 1 of the leftmost match. */
  function SearchField(s: string, key: string): (g: Option<string>)
    ensures g.Some? ==> g.value != [] && '\n' !in g.value
    decreases |s|
  {
    var m := FieldAt(s, key);
    if m.Some? || s == [] then m else SearchField(s[1..], key)
  }

  /** `**<label><colon>**` followed by `t`. */
  function Labelled(key: string, colon: char, t: string): (s: string)
    ensures |s| == |key| + 5 + |t|
  {
    "**" + (key + ([colon] + ("**" + t)))
  }

  /** A label followed by `t` is where the field pattern can match, and the
      pattern goes on with `t`. */
  lemma LabelledAt(key: string, colon: char, t: string)
    requires IsColon(colon)
    ensures LabelAt(Labelled(key, colon, t), key) && Labelled(key, colon, t)[|key| + 5..] == t
  {
    var s := Labelled(key, colon, t);
    var u := key + ([colon] + ("**" + t));
    assert s[2..] == u;
    assert s[2..2 + |key|] == u[..|key|] == key;
    assert s[2 + |key|] == u[|key|] == colon;
    assert u[|key| + 1..] == "**" + t;
    assert s[3 + |key|] == u[|key| + 1] && s[4 + |key|] == u[|key| + 2];
    assert s[|key| + 5..] == u[|key| + 1..][2..];
  }

  /** The field's value is the rest of the line after the label and any
      whitespace; that whitespace may include line breaks, so a label whose own
      line is blank takes its value from the next non-blank line. */
  lemma FieldLine(key: string, colon: char, ws: string, v: string, rest: string)
    requires IsColon(colon) && AllSpace(ws)
    requires v != [] && !IsSpace(v[0]) && '\n' !in v
    requires rest == [] || rest[0] == '\n'
    ensures FieldAt(Labelled(key, colon, ws + (v + rest)), key) == Some(v)
  {
    LabelledAt(key, colon, ws + (v + rest));
    SpaceThenValue(ws, v, rest);
  }

  /** After whitespace, `\s*(.+)` captures the rest of the line. */
  lemma SpaceThenValue(ws: string, v: string, rest: string)
    requires AllSpace(ws)
    requires v != [] && !IsSpace(v[0]) && '\n' !in v
    requires rest == [] || rest[0] == '\n'
    ensures SpaceThenLine(ws + (v + rest)) == Some(v)
  {
    var t := ws + (v + rest);
    var k := |ws|;
    assert t[..k] == ws;
    assert t[k..] == v + rest;
    assert t[k] == v[0];
    SpaceRunTo(t, k);
    assert LastNonNewline(t, k + 1) == Some(k);
    assert (v + rest)[..|v|] == v;
    LineRunTo(v + rest, |v|);
    assert t[k..k + |v|] == (v + rest)[..|v|];
  }

  lemma SpaceRunTo(t: string, k: nat)
    requires k < |t| && AllSpace(t[..k]) && !IsSpace(t[k])
    ensures SpaceRun(t) == k
  {
    var n := SpaceRun(t);
    assert forall j :: 0 <= j < k ==> t[..k][j] == t[j];
  }

  lemma LineRunTo(t: string, k: nat)
    requires k <= |t| && '\n' !in t[..k] && (k == |t| || t[k] == '\n')
    ensures LineRun(t) == k
  {
    var n := LineRun(t);
    assert forall j :: 0 <= j < k ==> t[..k][j] == t[j];
  }

  /** A label followed only by whitespace to the end of the text either fails
      to match or captures whitespace alone (which then strips to nothing). */
  lemma FieldAtBlankTail(t: string)
    requires AllSpace(t)
    ensures SpaceThenLine(t).Some? ==> AllSpace(SpaceThenLine(t).value)
    ensures SpaceThenLine(t).None? <==> forall q :: 0 <= q < |t| ==> t[q] == '\n'
  {
    var k := SpaceRun(t);
    assert k == |t|;
    match LastNonNewline(t, k)
    case None =>
    case Some(q) =>
      var v := t[q..q + LineRun(t[q..])];
      assert forall i :: 0 <= i < |v| ==> v[i] == t[q + i];
  }

  /** Text without a star in front does not change what the search finds. */
  lemma {:induction false} SearchFieldSkip(p: string, s: string, key: string)
    requires '*' !in p
    ensures SearchField(p + s, key) == SearchField(s, key)
    decreases |p|
  {
    if p != [] {
      assert p[0] in p;
      assert (p + s)[0] == p[0];
      assert (p + s)[1..] == p[1..] + s;
      assert forall k :: 0 <= k < |p| - 1 ==> p[1..][k] in p;
      SearchFieldSkip(p[1..], s, key);
    } else {
      assert p + s == s;
    }
  }

  /** A line labelled with a different label is passed over: the search resumes after its closing stars. */
  lemma SearchFieldOtherLabel(other: string, colon: char, key: string, rest: string)
    requires '*' !in other && colon != '*' && '*' !in key && key != []
    requires !StartsWith(other + [colon], key)
    requires rest != [] && rest[0] != '*' && rest[0] != key[0]
    ensures SearchField(Labelled(other, colon, rest), key) == SearchField(rest, key)
  {
    var oc := other + [colon];
    var t := "**" + rest;
    var s := "**" + (oc + t);
    assert other + ([colon] + t) == oc + t;
    assert Labelled(other, colon, rest) == s;
    assert '*' !in oc by {
      assert forall k :: 0 <= k < |oc| ==> oc[k] == (if k < |other| then other[k] else colon);
      assert forall k :: 0 <= k < |other| ==> other[k] in other;
    }
    OtherLabelNotAt(oc, key, t);
    SearchFieldStep(s, key);
    assert s[1..][1] == oc[0] != '*';
    SearchFieldStep(s[1..], key);
    assert s[1..][1..] == oc + t;
    SearchFieldSkip(oc, t, key);
    assert t[2] == rest[0];
    SearchFieldStep(t, key);
    assert t[1..][1] == rest[0];
    SearchFieldStep(t[1..], key);
    assert t[1..][1..] == rest;
  }

  lemma OtherLabelNotAt(oc: string, key: string, t: string)
    requires oc != [] && '*' !in key && !StartsWith(oc, key) && |t| >= 2 && t[0] == '*'
    ensures !LabelAt("**" + (oc + t), key)
  {
    var s := "**" + (oc + t);
    if |key| <= |oc| {
      assert s[2..2 + |key|] == oc[..|key|];
    } else if 2 + |key| <= |s| {
      assert s[2..2 + |key|][|oc|] == t[0];
      assert key[|oc|] in key;
    }
  }

  /** Where no label starts, the search moves on by one character. */
  lemma SearchFieldStep(s: string, key: string)
    requires |s| >= 2 && (s[1] != '*' || (|s| >= 3 && key != [] && s[2] != key[0]) || !LabelAt(s, key))
    ensures SearchField(s, key) == SearchField(s[1..], key)
  {
    if |s| >= 3 && key != [] && 2 + |key| <= |s| {
      assert s[2..2 + |key|][0] == s[2];
    }
  }

  /** The search finds a field only where its label occurs. */
  lemma {:induction false} SearchFieldLabelled(s: string, key: string)
    requires SearchField(s, key).Some?
    ensures Contains(s, key)
    decreases |s|
  {
    if FieldAt(s, key).Some? {
      assert s[..2 + |key|][2..] == key;
      ContainsInfix(s[..2], key, s[2 + |key|..]);
      assert s[..2] + key + s[2 + |key|..] == s;
    } else {
      SearchFieldLabelled(s[1..], key);
      ContainsSuffix(s, 1, key);
    }
  }

  /** The search returns the leftmost match: when the pattern matches at `i`
      and at no earlier position, the search yields that match. */
  lemma {:induction false} SearchFieldLeftmost(s: string, key: string, i: nat)
    requires i <= |s| && FieldAt(s[i..], key).Some?
    requires forall j :: 0 <= j < i ==> FieldAt(s[j..], key).None?
    ensures SearchField(s, key) == FieldAt(s[i..], key)
    decreases i
  {
    assert s[0..] == s;
    if i > 0 {
      forall j | 0 <= j < i - 1
        ensures FieldAt(s[1..][j..], key).None?
      {
        assert s[1..][j..] == s[j + 1..];
      }
      assert s[1..][i - 1..] == s[i..];
      SearchFieldLeftmost(s[1..], key, i - 1);
    }
  }
}
