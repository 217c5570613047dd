/** The two export layouts: the delimited table, one fixed-width row per
    submission under a fourteen-column header, and the structured document
    holding the export time, the number of submissions and every submission
    with all its fields. Only the values are modelled; writing them to a file
    (quoting, encoding, indentation) is not. */
module Export {
  import opened Seqs
  import opened Teams

  // ---------------------------------------------------------------------------
  // The delimited table
  // ---------------------------------------------------------------------------

  /** How many members the table has room for. */
  const MemberSlots: nat := 3

  const CsvHeader: seq<string> := [
    "团队名称", "成员1姓名", "成员1GitHub", "成员1链接",
    "成员2姓名", "成员2GitHub", "成员2链接",
    "成员3姓名", "成员3GitHub", "成员3链接",
    "团队GitHub账户", "团队仓库地址", "提交时间", "评论作者"]

  /** The three cells of member slot `i`: the member's fields, or blanks when
      the team has no `i`-th member. */
  function SlotCells(members: seq<TeamMember>, i: nat): seq<string>
  {
    if i < |members| then [members[i].name, members[i].githubId, members[i].githubUrl] else ["", "", ""]
  }

  /** The cells of the first `n` member slots. */
  function SlotsCells(members: seq<TeamMember>, n: nat): seq<string>
  {
    if n == 0 then [] else SlotsCells(members, n - 1) + SlotCells(members, n - 1)
  }

  /** The row of one submission: its name, three member slots, then the
      account, the repository, the submission time and the comment's author. */
  function CsvRowOf(t: TeamInfo): seq<string>
  {
    [t.teamName] + SlotsCells(t.members, MemberSlots)
      + [t.teamGithubAccount, t.teamRepoUrl, t.submissionTime, t.commentAuthor]
  }

  /** The row as the source builds it, slot by slot. */
  method CsvRow(t: TeamInfo) returns (row: seq<string>)
    ensures row == CsvRowOf(t)
  {
    row := [t.teamName];
    for i := 0 to MemberSlots
      invariant row == [t.teamName] + SlotsCells(t.members, i)
    {
      if i < |t.members| {
        var member := t.members[i];
        row := row + [member.name, member.githubId, member.githubUrl];
      } else {
        row := row + ["", "", ""];
      }
    }
    row := row + [t.teamGithubAccount, t.teamRepoUrl, t.submissionTime, t.commentAuthor];
  }

  /** The data rows of a table, one per submission, in input order. */
  function CsvRowsOf(teams: seq<TeamInfo>): seq<seq<string>>
    decreases |teams|
  {
    if teams == [] then [] else CsvRowsOf(teams[..|teams| - 1]) + [CsvRowOf(teams[|teams| - 1])]
  }

  /** The whole table: the header, then the data rows. */
  function CsvTable(teams: seq<TeamInfo>): seq<seq<string>>
  {
    [CsvHeader] + CsvRowsOf(teams)
  }

  /** The export loop: the header row, then one row per submission. */
  method CsvExport(teams: seq<TeamInfo>) returns (table: seq<seq<string>>)
    ensures table == CsvTable(teams)
  {
    table := [CsvHeader];
    for i := 0 to |teams|
      invariant table == [CsvHeader] + CsvRowsOf(teams[..i])
    {
      var row := CsvRow(teams[i]);
      assert teams[..i + 1][..i] == teams[..i];
      table := table + [row];
    }
    assert teams[..|teams|] == teams;
  }

  /** Slot `k` of the first `n` slots sits at cells `3k` to `3k + 2`. */
  lemma {:induction false} SlotsCellsAt(members: seq<TeamMember>, n: nat, k: nat)
    requires k < n
    ensures |SlotsCells(members, n)| == 3 * n
    ensures SlotsCells(members, n)[3 * k..3 * k + 3] == SlotCells(members, k)
  {
    SlotsCellsLength(members, n - 1);
    var s, c := SlotsCells(members, n - 1), SlotCells(members, n - 1);
    assert SlotsCells(members, n) == s + c;
    if k < n - 1 {
      SlotsCellsAt(members, n - 1, k);
      assert (s + c)[3 * k..3 * k + 3] == s[3 * k..3 * k + 3];
    } else {
      assert (s + c)[3 * k..3 * k + 3] == c;
    }
  }

  lemma {:induction false} SlotsCellsLength(members: seq<TeamMember>, n: nat)
    ensures |SlotsCells(members, n)| == 3 * n
  {
    if n > 0 {
      SlotsCellsLength(members, n - 1);
    }
  }

  /** Every row has as many cells as the header: the name, then for each of the
      three slots the slot's member or three blanks, then the four trailing fields. */
  lemma CsvRowLayout(t: TeamInfo)
    ensures var row := CsvRowOf(t);
      && |row| == |CsvHeader| == 14
      && row[0] == t.teamName
      && (forall k :: 0 <= k < MemberSlots ==>
            row[1 + 3 * k..4 + 3 * k] ==
              if k < |t.members| then [t.members[k].name, t.members[k].githubId, t.members[k].githubUrl]
              else ["", "", ""])
      && row[10..] == [t.teamGithubAccount, t.teamRepoUrl, t.submissionTime, t.commentAuthor]
  {
    CsvRowSlots(t);
    var row := CsvRowOf(t);
    forall k | 0 <= k < MemberSlots
      ensures row[1 + 3 * k..4 + 3 * k] ==
              if k < |t.members| then [t.members[k].name, t.members[k].githubId, t.members[k].githubUrl]
              else ["", "", ""]
    {
      assert row[1 + 3 * k..4 + 3 * k] == SlotCells(t.members, k);
    }
  }

  lemma CsvRowSlots(t: TeamInfo)
    ensures var row := CsvRowOf(t);
      && |row| == 14
      && row[0] == t.teamName
      && (forall k :: 0 <= k < MemberSlots ==> row[1 + 3 * k..4 + 3 * k] == SlotCells(t.members, k))
      && row[10..] == [t.teamGithubAccount, t.teamRepoUrl, t.submissionTime, t.commentAuthor]
  {
    var slots := SlotsCells(t.members, MemberSlots);
    SlotsCellsLength(t.members, MemberSlots);
    var row := CsvRowOf(t);
    RowParts(t.teamName, slots, [t.teamGithubAccount, t.teamRepoUrl, t.submissionTime, t.commentAuthor]);
    forall k | 0 <= k < MemberSlots
      ensures row[1 + 3 * k..4 + 3 * k] == SlotCells(t.members, k)
    {
      SlotsCellsAt(t.members, MemberSlots, k);
      assert row[1 + 3 * k..4 + 3 * k] == row[1..10][3 * k..3 * k + 3];
    }
  }

  lemma RowParts(name: string, slots: seq<string>, tail: seq<string>)
    requires |slots| == 9 && |tail| == 4
    ensures var row := [name] + slots + tail;
      |row| == 14 && row[0] == name && row[1..10] == slots && row[10..] == tail
  {
  }

  /** Members past the third leave no trace in the row. */
  lemma CsvRowDropsExtra(t: TeamInfo)
    requires |t.members| > MemberSlots
    ensures CsvRowOf(t) == CsvRowOf(t.(members := t.members[..MemberSlots]))
  {
    SameSlots(t.members, t.members[..MemberSlots], MemberSlots);
  }

  lemma {:induction false} SameSlots(ms: seq<TeamMember>, ns: seq<TeamMember>, n: nat)
    requires n <= |ns| <= |ms| && ms[..|ns|] == ns
    ensures SlotsCells(ms, n) == SlotsCells(ns, n)
  {
    if n > 0 {
      SameSlots(ms, ns, n - 1);
      assert ms[n - 1] == ms[..|ns|][n - 1];
    }
  }

  /** The members a row names: each slot whose name cell is not blank. */
  function RowMembers(row: seq<string>, n: nat): seq<TeamMember>
    requires 1 + 3 * n <= |row|
  {
    if n == 0 then []
    else
      var c := 3 * n - 2;
      RowMembers(row, n - 1) + (if row[c] != "" then [TeamMember(row[c], row[c + 1], row[c + 2])] else [])
  }

  /** The first `n` members of `members`, or all of them when there are fewer. */
  function FirstMembers(members: seq<TeamMember>, n: nat): seq<TeamMember>
  {
    if |members| <= n then members else members[..n]
  }

  /** Reading a row back gives the submission's name, its first three members
      (when every member has a name, as parsed members do), the account, the
      repository, the submission time and the comment's author. */
  lemma CsvRowRoundTrip(t: TeamInfo)
    requires forall m :: m in t.members ==> m.name != ""
    ensures var row := CsvRowOf(t);
      && |row| == 14
      && row[0] == t.teamName
      && RowMembers(row, MemberSlots) == FirstMembers(t.members, MemberSlots)
      && row[10..] == [t.teamGithubAccount, t.teamRepoUrl, t.submissionTime, t.commentAuthor]
  {
    CsvRowSlots(t);
    var row := CsvRowOf(t);
    RowMembersPrefix(t.members, row, MemberSlots);
    if |t.members| <= MemberSlots {
      assert t.members[..|t.members|] == t.members;
    }
  }

  lemma {:induction false} RowMembersPrefix(ms: seq<TeamMember>, row: seq<string>, n: nat)
    requires forall m :: m in ms ==> m.name != ""
    requires n <= MemberSlots && |row| == 14
    requires forall k :: 0 <= k < MemberSlots ==> row[1 + 3 * k..4 + 3 * k] == SlotCells(ms, k)
    ensures RowMembers(row, n) == ms[..if n < |ms| then n else |ms|]
  {
    if n > 0 {
      RowMembersPrefix(ms, row, n - 1);
      var k := n - 1;
      var cells := row[1 + 3 * k..4 + 3 * k];
      assert cells == SlotCells(ms, k);
      assert cells[0] == row[3 * n - 2] && cells[1] == row[3 * n - 1] && cells[2] == row[3 * n];
      if k < |ms| {
        assert ms[k] in ms;
        assert ms[..n] == ms[..k] + [ms[k]];
      }
    }
  }

  /** The table is the header followed by one row per submission, in input order. */
  lemma {:induction false} CsvTableLayout(teams: seq<TeamInfo>)
    ensures var table := CsvTable(teams);
      && |table| == |teams| + 1
      && table[0] == CsvHeader
      && forall k :: 0 <= k < |teams| ==> table[k + 1] == CsvRowOf(teams[k])
    decreases |teams|
  {
    if teams != [] {
      var init := teams[..|teams| - 1];
      CsvTableLayout(init);
      assert forall k :: 0 <= k < |init| ==> init[k] == teams[k];
    }
  }

  // ---------------------------------------------------------------------------
  // The structured document
  // ---------------------------------------------------------------------------

  /** A JSON value; an object keeps its keys in insertion order. */
  datatype Json = JString(str: string) | JInt(num: int) | JArray(items: seq<Json>) | JObject(fields: seq<(string, Json)>)

  /** A member as a dataclass-to-dictionary conversion lays it out. */
  function MemberJson(m: TeamMember): Json
  {
    JObject([("name", JString(m.name)), ("github_id", JString(m.githubId)), ("github_url", JString(m.githubUrl))])
  }

  /** A list whose items are encoded one by one, in order. */
  function EncodeList<T>(xs: seq<T>, enc: T -> Json): seq<Json>
  {
    seq(|xs|, k requires 0 <= k < |xs| => enc(xs[k]))
  }

  /** A submission with all seven fields, in declaration order. */
  function TeamJson(t: TeamInfo): Json
  {
    JObject([("team_name", JString(t.teamName)), ("members", JArray(EncodeList(t.members, MemberJson))),
             ("team_github_account", JString(t.teamGithubAccount)), ("team_repo_url", JString(t.teamRepoUrl)),
             ("submission_time", JString(t.submissionTime)), ("comment_id", JInt(t.commentId)),
             ("comment_author", JString(t.commentAuthor))])
  }

  /** The exported document; the export time is the caller's clock reading. */
  function ExportData(teams: seq<TeamInfo>, exportTime: string): Json
  {
    JObject([("export_time", JString(exportTime)), ("total_teams", JInt(|teams|)), ("teams", JArray(EncodeList(teams, TeamJson)))])
  }

  /** The value under `key`: the first field with that key. */
  function Lookup(fields: seq<(string, Json)>, key: string): Option<Json>
  {
    if fields == [] then None
    else if fields[0].0 == key then Some(fields[0].1)
    else Lookup(fields[1..], key)
  }

  function StringAt(fields: seq<(string, Json)>, key: string): Option<string>
  {
    match Lookup(fields, key)
    case Some(JString(s)) => Some(s)
    case _ => None
  }

  function DecodeMember(j: Json): Option<TeamMember>
  {
    if !j.JObject? then None
    else
      match (StringAt(j.fields, "name"), StringAt(j.fields, "github_id"), StringAt(j.fields, "github_url"))
      case (Some(name), Some(githubId), Some(githubUrl)) => Some(TeamMember(name, githubId, githubUrl))
      case _ => None
  }

  /** The items of a list decoded one by one; nothing if any item fails. */
  function DecodeList<T>(items: seq<Json>, dec: Json -> Option<T>): Option<seq<T>>
  {
    if items == [] then Some([])
    else
      match (dec(items[0]), DecodeList(items[1..], dec))
      case (Some(x), Some(xs)) => Some([x] + xs)
      case _ => None
  }

  function DecodeTeam(j: Json): Option<TeamInfo>
  {
    if !j.JObject? then None
    else
      var fs := j.fields;
      match (StringAt(fs, "team_name"), Lookup(fs, "members"), StringAt(fs, "team_github_account"),
             StringAt(fs, "team_repo_url"), StringAt(fs, "submission_time"), Lookup(fs, "comment_id"),
             StringAt(fs, "comment_author"))
      case (Some(name), Some(JArray(items)), Some(account), Some(repo), Some(time), Some(JInt(id)), Some(author)) =>
        (match DecodeList(items, DecodeMember)
         case Some(members) => Some(TeamInfo(name, members, account, repo, time, id, author))
         case None => None)
      case _ => None
  }

  /** The export time, the team count and the submissions a document holds. */
  function DecodeExport(j: Json): Option<(string, int, seq<TeamInfo>)>
  {
    if !j.JObject? then None
    else
      match (StringAt(j.fields, "export_time"), Lookup(j.fields, "total_teams"), Lookup(j.fields, "teams"))
      case (Some(time), Some(JInt(total)), Some(JArray(items))) =>
        (match DecodeList(items, DecodeTeam)
         case Some(teams) => Some((time, total, teams))
         case None => None)
      case _ => None
  }

  /** The lookup finds the first field under the key. */
  lemma {:induction false} LookupAt(fields: seq<(string, Json)>, i: nat, key: string)
    requires i < |fields| && fields[i].0 == key
    requires forall j :: 0 <= j < i ==> fields[j].0 != key
    ensures Lookup(fields, key) == Some(fields[i].1)
  {
    if i > 0 {
      LookupAt(fields[1..], i - 1, key);
    }
  }

  lemma MemberRoundTrip(m: TeamMember)
    ensures DecodeMember(MemberJson(m)) == Some(m)
  {
    var fs := MemberJson(m).fields;
    LookupAt(fs, 0, "name");
    LookupAt(fs, 1, "github_id");
    LookupAt(fs, 2, "github_url");
  }

  /** Decoding a list of encoded items gives the items back when decoding
      inverts encoding on each of them. */
  lemma {:induction false} ListRoundTrip<T>(xs: seq<T>, enc: T -> Json, dec: Json -> Option<T>)
    requires forall x :: x in xs ==> dec(enc(x)) == Some(x)
    ensures DecodeList(EncodeList(xs, enc), dec) == Some(xs)
    decreases |xs|
  {
    if xs != [] {
      var items := EncodeList(xs, enc);
      assert items[0] == enc(xs[0]);
      assert items[1..] == EncodeList(xs[1..], enc);
      assert xs[0] in xs;
      ListRoundTrip(xs[1..], enc, dec);
      assert [xs[0]] + xs[1..] == xs;
    }
  }

  lemma MembersRoundTrip(ms: seq<TeamMember>)
    ensures DecodeList(EncodeList(ms, MemberJson), DecodeMember) == Some(ms)
  {
    forall m | m in ms
      ensures DecodeMember(MemberJson(m)) == Some(m)
    {
      MemberRoundTrip(m);
    }
    ListRoundTrip(ms, MemberJson, DecodeMember);
  }

  lemma TeamRoundTrip(t: TeamInfo)
    ensures DecodeTeam(TeamJson(t)) == Some(t)
  {
    MembersRoundTrip(t.members);
    TeamFields(t);
    DecodeTeamFrom(TeamJson(t).fields, t);
  }

  /** Each of the seven keys of a submission's object finds its field. */
  lemma TeamFields(t: TeamInfo)
    ensures var fs := TeamJson(t).fields;
      && StringAt(fs, "team_name") == Some(t.teamName)
      && Lookup(fs, "members") == Some(JArray(EncodeList(t.members, MemberJson)))
      && StringAt(fs, "team_github_account") == Some(t.teamGithubAccount)
      && StringAt(fs, "team_repo_url") == Some(t.teamRepoUrl)
      && StringAt(fs, "submission_time") == Some(t.submissionTime)
      && Lookup(fs, "comment_id") == Some(JInt(t.commentId))
      && StringAt(fs, "comment_author") == Some(t.commentAuthor)
  {
    SevenKeys(JString(t.teamName), JArray(EncodeList(t.members, MemberJson)), JString(t.teamGithubAccount),
              JString(t.teamRepoUrl), JString(t.submissionTime), JInt(t.commentId), JString(t.commentAuthor));
  }

  lemma SevenKeys(a: Json, b: Json, c: Json, d: Json, e: Json, f: Json, g: Json)
    ensures var fs := [("team_name", a), ("members", b), ("team_github_account", c), ("team_repo_url", d),
                       ("submission_time", e), ("comment_id", f), ("comment_author", g)];
      && Lookup(fs, "team_name") == Some(a) && Lookup(fs, "members") == Some(b)
      && Lookup(fs, "team_github_account") == Some(c) && Lookup(fs, "team_repo_url") == Some(d)
      && Lookup(fs, "submission_time") == Some(e) && Lookup(fs, "comment_id") == Some(f)
      && Lookup(fs, "comment_author") == Some(g)
  {
    var fs := [("team_name", a), ("members", b), ("team_github_account", c), ("team_repo_url", d),
               ("submission_time", e), ("comment_id", f), ("comment_author", g)];
    LookupAt(fs, 0, "team_name");
    LookupAt(fs, 1, "members");
    LookupAt(fs, 2, "team_github_account");
    LookupAt(fs, 3, "team_repo_url");
    LookupAt(fs, 4, "submission_time");
    LookupAt(fs, 5, "comment_id");
    LookupAt(fs, 6, "comment_author");
  }

  lemma DecodeTeamFrom(fs: seq<(string, Json)>, t: TeamInfo)
    requires StringAt(fs, "team_name") == Some(t.teamName)
    requires Lookup(fs, "members") == Some(JArray(EncodeList(t.members, MemberJson)))
    requires DecodeList(EncodeList(t.members, MemberJson), DecodeMember) == Some(t.members)
    requires StringAt(fs, "team_github_account") == Some(t.teamGithubAccount)
    requires StringAt(fs, "team_repo_url") == Some(t.teamRepoUrl)
    requires StringAt(fs, "submission_time") == Some(t.submissionTime)
    requires Lookup(fs, "comment_id") == Some(JInt(t.commentId))
    requires StringAt(fs, "comment_author") == Some(t.commentAuthor)
    ensures DecodeTeam(JObject(fs)) == Some(t)
  {
  }

  lemma TeamsRoundTrip(teams: seq<TeamInfo>)
    ensures DecodeList(EncodeList(teams, TeamJson), DecodeTeam) == Some(teams)
  {
    forall t | t in teams
      ensures DecodeTeam(TeamJson(t)) == Some(t)
    {
      TeamRoundTrip(t);
    }
    ListRoundTrip(teams, TeamJson, DecodeTeam);
  }

  /** The document gives back the export time, a team count equal to the
      number of submissions, and every submission with all its fields, in
      input order. */
  lemma ExportRoundTrip(teams: seq<TeamInfo>, exportTime: string)
    ensures DecodeExport(ExportData(teams, exportTime)) == Some((exportTime, |teams|, teams))
  {
    TeamsRoundTrip(teams);
    ThreeKeys(JString(exportTime), JInt(|teams|), JArray(EncodeList(teams, TeamJson)));
  }

  lemma ThreeKeys(a: Json, b: Json, c: Json)
    ensures var fs := [("export_time", a), ("total_teams", b), ("teams", c)];
      Lookup(fs, "export_time") == Some(a) && Lookup(fs, "total_teams") == Some(b) && Lookup(fs, "teams") == Some(c)
  {
    var fs := [("export_time", a), ("total_teams", b), ("teams", c)];
    LookupAt(fs, 0, "export_time");
    LookupAt(fs, 1, "total_teams");
    LookupAt(fs, 2, "teams");
  }
}
