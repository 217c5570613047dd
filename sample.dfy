/** The sample submission of the repository's own parser test, read back
    through the template theorem, then validated. */
module Sample {
  import opened Seqs
  import opened Text
  import opened Patterns
  import opened Teams
  import opened Parser
  import opened Template
  import Validator

  const SampleRepo: string := Validator.GithubPrefix + "team-alpha/project"

  /** `n` blanks. */
  function Blanks(n: nat): (s: string)
    ensures |s| == n && AllSpace(s)
  {
    seq(n, _ => ' ')
  }

  /** A table cell as the test types it: one blank, the text, then blanks up
      to the column width. */
  function Padded(m: string, n: nat): string
  {
    " " + m + Blanks(n)
  }

  /** The three data rows of the sample table. */
  const SampleRows: seq<Row> := [
    Row(Padded("张三", 5), Padded("zhangsan", 7), Padded(Validator.GithubPrefix + "zhangsan", 1)),
    Row(Padded("李四", 5), Padded("lisi", 11), Padded(Validator.GithubPrefix + "lisi", 5)),
    Row(Padded("王五", 5), Padded("wangwu", 9), Padded(Validator.GithubPrefix + "wangwu", 3))]

  const SampleMembers: seq<TeamMember> := [
    TeamMember("张三", "zhangsan", Validator.GithubPrefix + "zhangsan"),
    TeamMember("李四", "lisi", Validator.GithubPrefix + "lisi"),
    TeamMember("王五", "wangwu", Validator.GithubPrefix + "wangwu")]

  /** The account value as typed: two blanks trail it. */
  const SampleAccount: string := "team-alpha" + Blanks(2)

  const SampleTeam: TeamInfo :=
    TeamInfo("Team Alpha", SampleMembers, "team-alpha", SampleRepo, "2025-01-15", 123, "test_user")

  /** The comment body of the parser test: Team Alpha with three members, an
      account value followed by two trailing blanks, a repository and a date. */
  function SampleBody(): string
  {
    Body("Team Alpha", SampleRows, SampleAccount, SampleRepo, "2025-01-15")
  }

  /** The sample is read as the test expects: name, three members in table
      order with their cells stripped, the account without its trailing blanks. */
  lemma SampleSubmissionParses()
    ensures TeamInfoOf(SampleBody(), 123, "test_user") == Some(SampleTeam)
  {
    SampleFields();
    SampleRowsKept();
    TemplateParses("Team Alpha", SampleRows, SampleAccount, SampleRepo, "2025-01-15", 123, "test_user");
  }

  /** The parsed sample passes validation with the default bounds: it is
      named, has three members and a repository on the hosting service. */
  lemma SampleValidates()
    ensures var t := TeamInfoOf(SampleBody(), 123, "test_user");
      t.Some? && Validator.Validation([t.value], 1, 5) == Validator.Issues([], [], [], [])
  {
    SampleSubmissionParses();
    assert SampleRepo[..|Validator.GithubPrefix|] == Validator.GithubPrefix;
    Validator.ValidationEmpty([SampleTeam], 1, 5);
  }

  /** The four values typed after the labels may follow a label, and
      stripping removes only the account's trailing blanks. */
  lemma SampleFields()
    ensures FieldValue("Team Alpha") && FieldValue(SampleAccount)
    ensures FieldValue(SampleRepo) && FieldValue("2025-01-15")
    ensures Strip("Team Alpha") == "Team Alpha" && Strip(SampleAccount) == "team-alpha"
    ensures Strip(SampleRepo) == SampleRepo && Strip("2025-01-15") == "2025-01-15"
  {
    SampleValuesOneLine();
    OneLineField("Team Alpha", 0);
    OneLineField("team-alpha", 2);
    OneLineField(SampleRepo, 0);
    OneLineField("2025-01-15", 0);
  }

  lemma SampleValuesOneLine()
    ensures OneLine("Team Alpha") && OneLine("team-alpha") && OneLine(SampleRepo) && OneLine("2025-01-15")
  {
    assert OneLine("Team Alpha") && OneLine("team-alpha") && OneLine("2025-01-15");
    RepoOneLine();
  }

  lemma RepoOneLine()
    ensures OneLine(SampleRepo)
  {
    PrefixPlain();
    assert OneLine("team-alpha/project");
    OneLineAppend(Validator.GithubPrefix, "team-alpha/project");
  }

  /** The URL prefix is a plain cell text. */
  lemma PrefixPlain()
    ensures Plain(Validator.GithubPrefix)
  {
  }

  /** A one-line value, with blanks after it, may follow a label and strips
      back to the value. */
  lemma OneLineField(m: string, n: nat)
    requires OneLine(m)
    ensures FieldValue(m + Blanks(n)) && Strip(m + Blanks(n)) == m
  {
    var b := Blanks(n);
    StripUnique([], m, b);
    assert [] + m + b == m + b;
    OneLineBlanks(m, n);
  }

  lemma OneLineBlanks(m: string, n: nat)
    requires OneLine(m)
    ensures FieldValue(m + Blanks(n))
  {
    var b := Blanks(n);
    var v := m + b;
    forall k | 0 <= k < |v|
      ensures v[k] != '\n' && v[k] != '|' && v[k] != '*'
    {
      if k < |m| {
        assert v[k] == m[k];
      } else {
        assert v[k] == b[k - |m|];
      }
    }
    assert v[0] == m[0];
  }

  /** A value on one line, stripped, without bars or stars. */
  predicate OneLine(m: string)
  {
    m != [] && IsStripped(m) && '\n' !in m && '|' !in m && '*' !in m
  }

  /** A cell text the filter keeps: a one-line value without dashes. */
  predicate Plain(m: string)
  {
    OneLine(m) && '-' !in m
  }

  lemma OneLineAppend(p: string, t: string)
    requires OneLine(p) && OneLine(t)
    ensures OneLine(p + t) && ('-' !in p && '-' !in t ==> '-' !in p + t)
  {
    assert (p + t)[|p + t| - 1] == t[|t| - 1];
  }

  /** A row of padded plain cells, the first two not the header texts, is a
      data row that yields the three texts. */
  lemma PaddedRow(m0: string, n0: nat, m1: string, n1: nat, m2: string, n2: nat)
    requires Plain(m0) && Plain(m1) && Plain(m2)
    requires m0 !in HeaderNames && m1 !in HeaderIds
    ensures var r := Row(Padded(m0, n0), Padded(m1, n1), Padded(m2, n2));
      DataRow(r) && RowMember(r) == Some(TeamMember(m0, m1, m2))
  {
    PaddedStrip(m0, n0);
    PaddedStrip(m1, n1);
    PaddedStrip(m2, n2);
  }

  /** A padded plain cell strips to its text, which holds no dashes. */
  lemma PaddedStrip(m: string, n: nat)
    requires Plain(m)
    ensures Strip(Padded(m, n)) == m && !Contains(m, Dashes)
    ensures CellText(Padded(m, n)) && '*' !in Padded(m, n)
  {
    var b := Blanks(n);
    StripUnique(" ", m, b);
    NotContainsFirst(m, Dashes);
    var c := Padded(m, n);
    forall k | 0 <= k < |c|
      ensures c[k] != '|' && c[k] != '*'
    {
      if k == 0 {
      } else if k <= |m| {
        assert c[k] == m[k - 1];
      } else {
        assert c[k] == b[k - 1 - |m|];
      }
    }
  }

  /** The nine cell texts of the sample are plain, and the first two of each
      row are not header texts. */
  lemma SampleTextsPlain()
    ensures Plain("张三") && Plain("zhangsan") && Plain(Validator.GithubPrefix + "zhangsan")
    ensures Plain("李四") && Plain("lisi") && Plain(Validator.GithubPrefix + "lisi")
    ensures Plain("王五") && Plain("wangwu") && Plain(Validator.GithubPrefix + "wangwu")
    ensures "张三" !in HeaderNames && "李四" !in HeaderNames && "王五" !in HeaderNames
    ensures "zhangsan" !in HeaderIds && "lisi" !in HeaderIds && "wangwu" !in HeaderIds
  {
    PrefixPlain();
    OneLineAppend(Validator.GithubPrefix, "zhangsan");
    OneLineAppend(Validator.GithubPrefix, "lisi");
    OneLineAppend(Validator.GithubPrefix, "wangwu");
  }

  /** Every sample row is a data row, and the rows yield the sample members. */
  lemma SampleRowsKept()
    ensures forall r :: r in SampleRows ==> DataRow(r)
    ensures MembersOf(SampleRows) == SampleMembers
  {
    forall i | 0 <= i < 3
      ensures DataRow(SampleRows[i]) && RowMember(SampleRows[i]) == Some(SampleMembers[i])
    {
      SampleRowKept(i);
    }
    EveryOfThree(SampleRows, DataRow);
    FilterMapImages(SampleRows, SampleMembers, RowMember);
  }

  lemma SampleRowKept(i: nat)
    requires i < 3
    ensures DataRow(SampleRows[i]) && RowMember(SampleRows[i]) == Some(SampleMembers[i])
  {
    SampleTextsPlain();
    var p := Validator.GithubPrefix;
    if i == 0 {
      PaddedRow("张三", 5, "zhangsan", 7, p + "zhangsan", 1);
    } else if i == 1 {
      PaddedRow("李四", 5, "lisi", 11, p + "lisi", 5);
    } else {
      PaddedRow("王五", 5, "wangwu", 9, p + "wangwu", 3);
    }
  }

  lemma EveryOfThree<A>(xs: seq<A>, p: A -> bool)
    requires |xs| == 3 && p(xs[0]) && p(xs[1]) && p(xs[2])
    ensures forall x :: x in xs ==> p(x)
  {
  }
}
