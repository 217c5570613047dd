/** The submission template the collector is built for, and the proof that
    the parser reads back what an author fills into it. */
module Template {
  import opened Seqs
  import opened Text
  import opened Patterns
  import opened Teams
  import opened Parser

  const Intro: string := "\n## 团队信息提交\n\n"
  const MembersLabel: string := "团队成员信息"
  const HeaderRow: Row := Row(" 成员姓名 ", " 个人 GitHub ID ", " 个人 GitHub 链接 ")
  const SeparatorRow: Row := Row("----------", "----------------", "------------------")

  /** One labelled line, `**<label>：** <value>`, followed by `s`. */
  function LabelThen(key: string, v: string, s: string): string
  {
    Labelled(key, '：', " " + (v + ("\n" + s)))
  }

  /** The three optional labelled lines that close the template. */
  function Closing(account: string, repo: string, time: string): string
  {
    "\n" + LabelThen(AccountLabel, account, LabelThen(RepoLabel, repo, "\n" + LabelThen(TimeLabel, time, "")))
  }

  /** The members heading line, `**团队成员信息：**`, followed by `s`. */
  function MembersThen(s: string): string
  {
    "\n" + Labelled(MembersLabel, '：', "\n" + s)
  }

  /** A comment body filled in from the template: the heading, the team-name
      line, the member table with its header and separator rows, then the
      account, repository and submission-time lines. */
  function Body(name: string, rows: seq<Row>, account: string, repo: string, time: string): string
  {
    Intro + LabelThen(TeamNameLabel, name,
      MembersThen(TableText([HeaderRow, SeparatorRow] + rows) + Closing(account, repo, time)))
  }

  /** A value an author may type after a label: it starts on the label's line,
      stays on one line, and holds no bar and no star. */
  predicate FieldValue(v: string)
  {
    v != [] && !IsSpace(v[0]) && '\n' !in v && '|' !in v && '*' !in v
  }

  /** A member row an author may type: three cells without stars that survive the filter. */
  predicate DataRow(r: Row)
  {
    WellFormedRow(r) && '*' !in r.c0 && '*' !in r.c1 && '*' !in r.c2 && RowMember(r).Some?
  }

  /** Reading back a filled-in template gives the team name, the members of the
      data rows in order, the three optional fields (all stripped) and the
      comment's id and author. */
  lemma TemplateParses(name: string, rows: seq<Row>, account: string, repo: string, time: string,
                       commentId: int, author: string)
    requires FieldValue(name) && FieldValue(account) && FieldValue(repo) && FieldValue(time)
    requires rows != [] && forall r :: r in rows ==> DataRow(r)
    ensures TeamInfoOf(Body(name, rows, account, repo, time), commentId, author)
         == Some(TeamInfo(Strip(name), MembersOf(rows), Strip(account), Strip(repo), Strip(time), commentId, author))
    ensures |MembersOf(rows)| == |rows|
  {
    var body := Body(name, rows, account, repo, time);
    NameFound(name, rows, account, repo, time);
    AccountFound(name, rows, account, repo, time);
    RepoFound(name, rows, account, repo, time);
    TimeFound(name, rows, account, repo, time);
    TemplateRows(name, rows, account, repo, time);
    FilterMapAll(rows, RowMember);
    StripEmpty(name);
    Accepted(body, name, account, repo, time, MembersOf(rows), commentId, author);
  }

  /** The parser's result once each search over the body is known. */
  lemma Accepted(body: string, name: string, account: string, repo: string, time: string,
                 members: seq<TeamMember>, commentId: int, author: string)
    requires SearchField(body, TeamNameLabel) == Some(name) && Strip(name) != [] && members != []
    requires MembersOf(ScanRows(body)) == members
    requires SearchField(body, AccountLabel) == Some(account)
    requires SearchField(body, RepoLabel) == Some(repo)
    requires SearchField(body, TimeLabel) == Some(time)
    ensures TeamInfoOf(body, commentId, author)
         == Some(TeamInfo(Strip(name), members, Strip(account), Strip(repo), Strip(time), commentId, author))
  {
    SearchFieldLabelled(body, TeamNameLabel);
  }

  lemma NameFound(name: string, rows: seq<Row>, account: string, repo: string, time: string)
    requires FieldValue(name)
    ensures SearchField(Body(name, rows, account, repo, time), TeamNameLabel) == Some(name)
  {
    NameLine(name, MembersThen(TableText([HeaderRow, SeparatorRow] + rows) + Closing(account, repo, time)));
  }

  /** After the heading, the team-name line is the first labelled line. */
  lemma NameLine(name: string, rest: string)
    requires FieldValue(name)
    ensures SearchField(Intro + LabelThen(TeamNameLabel, name, rest), TeamNameLabel) == Some(name)
  {
    IntroFree();
    SearchFieldSkip(Intro, LabelThen(TeamNameLabel, name, rest), TeamNameLabel);
    FindLine(TeamNameLabel, name, rest);
  }

  lemma IntroFree()
    ensures '*' !in Intro && '|' !in Intro
  {
  }

  lemma AccountFound(name: string, rows: seq<Row>, account: string, repo: string, time: string)
    requires FieldValue(name) && FieldValue(account) && forall r :: r in rows ==> DataRow(r)
    ensures SearchField(Body(name, rows, account, repo, time), AccountLabel) == Some(account)
  {
    ToClosing(name, rows, account, repo, time, AccountLabel);
    ClosingAccount(account, repo, time);
  }

  lemma RepoFound(name: string, rows: seq<Row>, account: string, repo: string, time: string)
    requires FieldValue(name) && FieldValue(account) && FieldValue(repo) && forall r :: r in rows ==> DataRow(r)
    ensures SearchField(Body(name, rows, account, repo, time), RepoLabel) == Some(repo)
  {
    ToClosing(name, rows, account, repo, time, RepoLabel);
    ClosingRepo(account, repo, time);
  }

  lemma TimeFound(name: string, rows: seq<Row>, account: string, repo: string, time: string)
    requires FieldValue(name) && FieldValue(account) && FieldValue(repo) && FieldValue(time)
    requires forall r :: r in rows ==> DataRow(r)
    ensures SearchField(Body(name, rows, account, repo, time), TimeLabel) == Some(time)
  {
    ToClosing(name, rows, account, repo, time, TimeLabel);
    ClosingTime(account, repo, time);
  }

  lemma ClosingAccount(account: string, repo: string, time: string)
    requires FieldValue(account)
    ensures SearchField(Closing(account, repo, time), AccountLabel) == Some(account)
  {
    var rest := LabelThen(RepoLabel, repo, "\n" + LabelThen(TimeLabel, time, ""));
    SearchFieldSkip("\n", LabelThen(AccountLabel, account, rest), AccountLabel);
    FindLine(AccountLabel, account, rest);
  }

  lemma ClosingRepo(account: string, repo: string, time: string)
    requires FieldValue(account) && FieldValue(repo)
    ensures SearchField(Closing(account, repo, time), RepoLabel) == Some(repo)
  {
    var rest := "\n" + LabelThen(TimeLabel, time, "");
    SearchFieldSkip("\n", LabelThen(AccountLabel, account, LabelThen(RepoLabel, repo, rest)), RepoLabel);
    KeyFacts(RepoLabel);
    SkipLine(AccountLabel, account, LabelThen(RepoLabel, repo, rest), RepoLabel, 2);
    FindLine(RepoLabel, repo, rest);
  }

  lemma ClosingTime(account: string, repo: string, time: string)
    requires FieldValue(account) && FieldValue(repo) && FieldValue(time)
    ensures SearchField(Closing(account, repo, time), TimeLabel) == Some(time)
  {
    var last := LabelThen(TimeLabel, time, "");
    SearchFieldSkip("\n", LabelThen(AccountLabel, account, LabelThen(RepoLabel, repo, "\n" + last)), TimeLabel);
    KeyFacts(TimeLabel);
    SkipLine(AccountLabel, account, LabelThen(RepoLabel, repo, "\n" + last), TimeLabel, 0);
    SkipLine(RepoLabel, repo, "\n" + last, TimeLabel, 0);
    SearchFieldSkip("\n", last, TimeLabel);
    FindLine(TimeLabel, time, "");
  }

  /** The search for a label that first occurs in the closing lines passes over
      the heading, the team-name line, the members heading and the table. */
  lemma ToClosing(name: string, rows: seq<Row>, account: string, repo: string, time: string, key: string)
    requires FieldValue(name) && forall r :: r in rows ==> DataRow(r)
    requires SearchKey(key)
    ensures SearchField(Body(name, rows, account, repo, time), key) == SearchField(Closing(account, repo, time), key)
  {
    var table := TableText([HeaderRow, SeparatorRow] + rows);
    TemplateTable(rows);
    TableStarFree([HeaderRow, SeparatorRow] + rows);
    PastTable(name, table, Closing(account, repo, time), key);
  }

  /** The search passes over everything up to the end of a star-free table. */
  lemma PastTable(name: string, table: string, closing: string, key: string)
    requires FieldValue(name) && '*' !in table && SearchKey(key)
    ensures SearchField(Intro + LabelThen(TeamNameLabel, name, MembersThen(table + closing)), key)
         == SearchField(closing, key)
  {
    IntroFree();
    SearchFieldSkip(Intro, LabelThen(TeamNameLabel, name, MembersThen(table + closing)), key);
    KeyFacts(key);
    NameLabelStarFree();
    SkipLine(TeamNameLabel, name, MembersThen(table + closing), key, Probe(key));
    SkipHeading(table + closing, key);
    SearchFieldSkip(table, closing, key);
  }

  lemma TableStarFree(rows: seq<Row>)
    requires forall r :: r in rows ==> '*' !in r.c0 && '*' !in r.c1 && '*' !in r.c2
    ensures '*' !in TableText(rows)
  {
    if rows != [] {
      assert rows[0] in rows;
      assert forall r :: r in rows[1..] ==> r in rows;
      TableStarFree(rows[1..]);
    }
  }

  /** A labelled line is where the search for its own label stops, with the line's value. */
  lemma FindLine(key: string, v: string, s: string)
    requires FieldValue(v)
    ensures SearchField(LabelThen(key, v, s), key) == Some(v)
  {
    FieldLine(key, '：', " ", v, "\n" + s);
  }

  /** A line with another label is passed over by the search: the other label
      differs from the searched one at index `i`. */
  lemma SkipLine(other: string, v: string, s: string, key: string, i: nat)
    requires FieldValue(v) && '*' !in other
    requires SearchKey(key) && i < |other| && i < |key| && other[i] != key[i]
    ensures SearchField(LabelThen(other, v, s), key) == SearchField(s, key)
  {
    KeyFacts(key);
    Differs(other + ['：'], key, i);
    SearchFieldOtherLabel(other, '：', key, " " + (v + ("\n" + s)));
    SearchFieldSkip(" ", v + ("\n" + s), key);
    SearchFieldSkip(v, "\n" + s, key);
    SearchFieldSkip("\n", s, key);
  }

  /** The members heading is passed over by the search. */
  lemma SkipHeading(s: string, key: string)
    requires SearchKey(key)
    ensures SearchField(MembersThen(s), key) == SearchField(s, key)
  {
    KeyFacts(key);
    MembersLabelStarFree();
    Differs(MembersLabel + ['：'], key, Probe(key));
    SearchFieldOtherLabel(MembersLabel, '：', key, "\n" + s);
    SearchFieldSkip("\n", Labelled(MembersLabel, '：', "\n" + s), key);
    SearchFieldSkip("\n", s, key);
  }

  /** The labels searched for after the team name. */
  predicate SearchKey(key: string)
  {
    key == AccountLabel || key == RepoLabel || key == TimeLabel
  }

  /** An index at which a searched label differs from every label before it in the template. */
  function Probe(key: string): nat
  {
    if key == TimeLabel then 0 else 2
  }

  lemma KeyFacts(key: string)
    requires SearchKey(key)
    ensures '*' !in key && |key| > 2 && key[0] != ' ' && key[0] != '\n' && key[0] != '*'
    ensures key[Probe(key)] != TeamNameLabel[Probe(key)] && key[Probe(key)] != MembersLabel[Probe(key)]
    ensures key != AccountLabel ==> key[Probe(key)] != AccountLabel[Probe(key)]
    ensures key == TimeLabel ==> key[0] != RepoLabel[0]
  {
  }

  lemma MembersLabelStarFree()
    ensures '*' !in MembersLabel && |MembersLabel| > 2
  {
  }

  lemma NameLabelStarFree()
    ensures '*' !in TeamNameLabel && |TeamNameLabel| > 2
  {
  }

  lemma Differs(s: string, p: string, i: nat)
    requires i < |s| && i < |p| && s[i] != p[i]
    ensures !StartsWith(s, p)
  {
    if |p| <= |s| {
      assert s[..|p|][i] == s[i];
    }
  }

  /** The table rows scanned from a filled-in template are its header, its
      separator and its data rows, in order. */
  lemma TemplateRows(name: string, rows: seq<Row>, account: string, repo: string, time: string)
    requires FieldValue(name) && FieldValue(account) && FieldValue(repo) && FieldValue(time)
    requires forall r :: r in rows ==> DataRow(r)
    ensures ScanRows(Body(name, rows, account, repo, time)) == [HeaderRow, SeparatorRow] + rows
    ensures MembersOf(ScanRows(Body(name, rows, account, repo, time))) == MembersOf(rows)
  {
    TemplateTable(rows);
    ClosingBarFree(account, repo, time);
    TableRows(name, [HeaderRow, SeparatorRow] + rows, Closing(account, repo, time));
    HeaderRowDropped();
    SeparatorRowDropped();
    DropTwo(HeaderRow, SeparatorRow, rows, RowMember);
  }

  /** Two leading elements without an image leave the filter-map unchanged. */
  lemma DropTwo<A, B>(x: A, y: A, xs: seq<A>, f: A -> Option<B>)
    requires f(x).None? && f(y).None?
    ensures FilterMap([x, y] + xs, f) == FilterMap(xs, f)
  {
    FilterMapDropNone([x, y], xs, f);
  }

  /** The rows scanned from the body are those of its table when nothing after it has a bar. */
  lemma TableRows(name: string, all: seq<Row>, closing: string)
    requires FieldValue(name) && '|' !in closing
    requires forall r :: r in all ==> WellFormedRow(r)
    ensures ScanRows(Intro + LabelThen(TeamNameLabel, name, MembersThen(TableText(all) + closing))) == all
  {
    ToTable(name, TableText(all) + closing);
    ScanRowsTable(all, closing);
    ScanRowsNoBar(closing);
    assert all + [] == all;
  }

  /** No bar occurs before the member table. */
  lemma ToTable(name: string, s: string)
    requires FieldValue(name)
    ensures ScanRows(Intro + LabelThen(TeamNameLabel, name, MembersThen(s))) == ScanRows(s)
  {
    var nameLine := Labelled(TeamNameLabel, '：', " " + (name + "\n"));
    var heading := "\n" + Labelled(MembersLabel, '：', "\n");
    IntroFree();
    LabelThenSplit(TeamNameLabel, name, MembersThen(s));
    NameLineBarFree(name);
    MembersThenSplit(s);
    ScanRowsSkip(Intro, nameLine + MembersThen(s));
    ScanRowsSkip(nameLine, heading + s);
    ScanRowsSkip(heading, s);
  }

  lemma LabelThenSplit(key: string, v: string, s: string)
    ensures LabelThen(key, v, s) == Labelled(key, '：', " " + (v + "\n")) + s
  {
    LabelledThen(key, '：', " " + (v + "\n"), s);
    assert " " + (v + ("\n" + s)) == (" " + (v + "\n")) + s;
  }

  lemma NameLineBarFree(name: string)
    requires FieldValue(name)
    ensures '|' !in Labelled(TeamNameLabel, '：', " " + (name + "\n"))
  {
    LabelsBarFree();
  }

  lemma MembersThenSplit(s: string)
    ensures MembersThen(s) == ("\n" + Labelled(MembersLabel, '：', "\n")) + s
    ensures '|' !in "\n" + Labelled(MembersLabel, '：', "\n")
  {
    LabelledThen(MembersLabel, '：', "\n", s);
    MembersLabelStarFree();
  }

  /** Text after a label's closing stars can be split off the labelled text. */
  lemma LabelledThen(key: string, colon: char, u: string, t: string)
    ensures Labelled(key, colon, u + t) == Labelled(key, colon, u) + t
  {
    assert "**" + (u + t) == ("**" + u) + t;
    assert [colon] + (("**" + u) + t) == ([colon] + ("**" + u)) + t;
    assert key + (([colon] + ("**" + u)) + t) == (key + ([colon] + ("**" + u))) + t;
    assert "**" + ((key + ([colon] + ("**" + u))) + t) == ("**" + (key + ([colon] + ("**" + u)))) + t;
  }

  /** The template's header and separator rows are well formed and star-free. */
  lemma FixedRows()
    ensures WellFormedRow(HeaderRow) && WellFormedRow(SeparatorRow)
    ensures '*' !in HeaderRow.c0 && '*' !in HeaderRow.c1 && '*' !in HeaderRow.c2
    ensures '*' !in SeparatorRow.c0 && '*' !in SeparatorRow.c1 && '*' !in SeparatorRow.c2
  {
    HeaderRowFixed();
    SeparatorRowFixed();
  }

  lemma HeaderRowFixed()
    ensures WellFormedRow(HeaderRow)
    ensures '*' !in HeaderRow.c0 && '*' !in HeaderRow.c1 && '*' !in HeaderRow.c2
  {
    PlainCell(" 成员姓名 ");
    PlainCell(" 个人 GitHub ID ");
    PlainCell(" 个人 GitHub 链接 ");
  }

  /** A cell literal of the template: non-empty, without a bar or a star. */
  lemma PlainCell(c: string)
    requires c == " 成员姓名 " || c == " 个人 GitHub ID " || c == " 个人 GitHub 链接 "
    ensures CellText(c) && '*' !in c
  {
  }

  lemma SeparatorRowFixed()
    ensures WellFormedRow(SeparatorRow)
    ensures '*' !in SeparatorRow.c0 && '*' !in SeparatorRow.c1 && '*' !in SeparatorRow.c2
  {
  }

  lemma TemplateTable(rows: seq<Row>)
    requires forall r :: r in rows ==> DataRow(r)
    ensures forall r :: r in [HeaderRow, SeparatorRow] + rows ==>
      WellFormedRow(r) && '*' !in r.c0 && '*' !in r.c1 && '*' !in r.c2
  {
    FixedRows();
    forall r | r in [HeaderRow, SeparatorRow] + rows
      ensures WellFormedRow(r) && '*' !in r.c0 && '*' !in r.c1 && '*' !in r.c2
    {
      if r !in rows {
        assert r == HeaderRow || r == SeparatorRow;
      }
    }
  }

  /** The template's header row and separator row contribute no member. */
  lemma HeaderRowDropped()
    ensures RowMember(HeaderRow).None?
  {
    var name := "成员姓名";
    assert IsStripped(name);
    StripUnique(" ", name, " ");
    assert " " + name + " " == HeaderRow.c0;
    assert name in HeaderNames;
  }

  lemma SeparatorRowDropped()
    ensures RowMember(SeparatorRow).None?
  {
    SeparatorName();
    assert StartsWith(SeparatorRow.c0, Dashes);
  }

  lemma SeparatorName()
    ensures Strip(SeparatorRow.c0) == SeparatorRow.c0
  {
    var dashes := SeparatorRow.c0;
    assert IsStripped(dashes);
    StripUnique([], dashes, []);
    assert [] + dashes + [] == dashes;
  }

  lemma ClosingBarFree(account: string, repo: string, time: string)
    requires FieldValue(account) && FieldValue(repo) && FieldValue(time)
    ensures '|' !in Closing(account, repo, time)
  {
    LabelsBarFree();
    LineBarFree(TimeLabel, time, "");
    LineBarFree(RepoLabel, repo, "\n" + LabelThen(TimeLabel, time, ""));
    LineBarFree(AccountLabel, account, LabelThen(RepoLabel, repo, "\n" + LabelThen(TimeLabel, time, "")));
  }

  lemma LineBarFree(key: string, v: string, s: string)
    requires '|' !in key && '|' !in v && '|' !in s
    ensures '|' !in LabelThen(key, v, s)
  {
  }

  lemma LabelsBarFree()
    ensures '|' !in AccountLabel && '|' !in RepoLabel && '|' !in TimeLabel && '|' !in TeamNameLabel
  {
  }
}
