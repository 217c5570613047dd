/** The comment parser: one free-text comment body becomes at most one team
    submission. A body is considered only when it mentions one of two marker
    phrases; the team name and three optional fields come from labelled lines
    `**<label>：** value`, and the members from the three-cell table rows that
    survive a header/separator filter. A submission is returned only when it
    has a non-empty name and at least one member. */
module Parser {
  import opened Seqs
  import opened Text
  import opened Patterns
  import opened Teams

  const SubmissionMarker: string := "团队信息提交"
  const TeamNameMarker: string := "团队名称"

  const TeamNameLabel: string := "团队名称"
  const AccountLabel: string := "团队 GitHub 账户"
  const RepoLabel: string := "团队项目仓库"
  const TimeLabel: string := "提交时间"

  /** Cell values that mark a header or separator row. */
  const HeaderNames: seq<string> := ["成员姓名", "-------", "姓名"]
  const HeaderIds: seq<string> := ["个人 GitHub ID", "-------", "GitHub ID"]
  const Dashes: string := "---"

  /** The filter's test for a header or separator row, on the stripped cells. */
  predicate IsHeaderOrSeparator(name: string, githubId: string, githubUrl: string)
  {
    || name in HeaderNames
    || githubId in HeaderIds
    || Contains(name, Dashes) || Contains(githubId, Dashes) || Contains(githubUrl, Dashes)
  }

  /** What every member of a parsed submission satisfies. */
  predicate ValidMember(m: TeamMember)
  {
    && m.name != "" && m.githubId != "" && m.githubUrl != ""
    && IsStripped(m.name) && IsStripped(m.githubId) && IsStripped(m.githubUrl)
    && !IsHeaderOrSeparator(m.name, m.githubId, m.githubUrl)
  }

  /** The member one scanned row contributes: its three stripped cells, unless
      the row is a header or separator row or one of its cells strips to nothing. */
  function RowMember(r: Row): (m: Option<TeamMember>)
    ensures m.Some? ==> ValidMember(m.value)
  {
    var name, githubId, githubUrl := Strip(r.c0), Strip(r.c1), Strip(r.c2);
    if IsHeaderOrSeparator(name, githubId, githubUrl) then None
    else if name != "" && githubId != "" && githubUrl != "" then Some(TeamMember(name, githubId, githubUrl))
    else None
  }

  /** The members a sequence of scanned rows yields, in row order. */
  function MembersOf(rows: seq<Row>): seq<TeamMember>
  {
    FilterMap(rows, RowMember)
  }

  /** An optional labelled field: its stripped value, or "" when the label is absent. */
  function FieldOrEmpty(body: string, key: string): (v: string)
    ensures IsStripped(v)
  {
    match SearchField(body, key)
    case Some(raw) => Strip(raw)
    case None => ""
  }

  /** The cheap gate: the body mentions one of the two marker phrases. */
  predicate HasMarker(body: string)
  {
    Contains(body, SubmissionMarker) || Contains(body, TeamNameMarker)
  }

  /** The parser as a function of the body and the comment's id and author. */
  function TeamInfoOf(body: string, commentId: int, author: string): (r: Option<TeamInfo>)
    ensures !HasMarker(body) ==> r.None?
    ensures r.Some? ==> r.value.commentId == commentId && r.value.commentAuthor == author
  {
    if !HasMarker(body) then None
    else match SearchField(body, TeamNameLabel)
      case None => None
      case Some(raw) =>
        var teamName := Strip(raw);
        var members := MembersOf(ScanRows(body));
        if teamName != "" && members != [] then
          Some(TeamInfo(teamName, members, FieldOrEmpty(body, AccountLabel), FieldOrEmpty(body, RepoLabel),
                        FieldOrEmpty(body, TimeLabel), commentId, author))
        else None
  }

  /** The parser, with the member loop written as the source writes it. */
  method ParseTeamInfo(body: string, commentId: int, author: string) returns (r: Option<TeamInfo>)
    ensures r == TeamInfoOf(body, commentId, author)
  {
    if !Contains(body, SubmissionMarker) && !Contains(body, TeamNameMarker) {
      return None;
    }
    var nameMatch := SearchField(body, TeamNameLabel);
    if nameMatch.None? {
      return None;
    }
    var teamName := Strip(nameMatch.value);
    var members := KeptMembers(ScanRows(body));
    var account := FieldOrEmpty(body, AccountLabel);
    var repoUrl := FieldOrEmpty(body, RepoLabel);
    var submissionTime := FieldOrEmpty(body, TimeLabel);
    if teamName != "" && members != [] {
      return Some(TeamInfo(teamName, members, account, repoUrl, submissionTime, commentId, author));
    }
    return None;
  }

  /** The member loop: each scanned row's cells stripped, the row kept unless
      it is a header or separator row or one of its cells is empty. */
  method KeptMembers(rows: seq<Row>) returns (members: seq<TeamMember>)
    ensures members == MembersOf(rows)
  {
    members := [];
    for i := 0 to |rows|
      invariant members == MembersOf(rows[..i])
    {
      var name, githubId, githubUrl := Strip(rows[i].c0), Strip(rows[i].c1), Strip(rows[i].c2);
      var kept := !IsHeaderOrSeparator(name, githubId, githubUrl) && name != "" && githubId != "" && githubUrl != "";
      MembersStep(rows, i);
      if kept {
        members := members + [TeamMember(name, githubId, githubUrl)];
      }
    }
    assert rows[..|rows|] == rows;
  }

  /** One step of the member loop. */
  lemma MembersStep(rows: seq<Row>, i: nat)
    requires i < |rows|
    ensures var name, githubId, githubUrl := Strip(rows[i].c0), Strip(rows[i].c1), Strip(rows[i].c2);
      MembersOf(rows[..i + 1]) ==
        if !IsHeaderOrSeparator(name, githubId, githubUrl) && name != "" && githubId != "" && githubUrl != ""
        then MembersOf(rows[..i]) + [TeamMember(name, githubId, githubUrl)]
        else MembersOf(rows[..i])
  {
    FilterMapPrefix(rows, i, RowMember);
    if RowMember(rows[i]).None? {
      assert MembersOf(rows[..i]) + [] == MembersOf(rows[..i]);
    }
  }

  // ---------------------------------------------------------------------------
  // What a parsed submission satisfies
  // ---------------------------------------------------------------------------

  /** A submission is returned exactly when the team-name label is found with a
      value that does not strip to nothing and at least one table row survives
      the filter. The marker gate never decides the outcome: a body in which the
      team-name label is found always mentions the team-name marker. */
  lemma ParseAccepts(body: string, commentId: int, author: string)
    ensures TeamInfoOf(body, commentId, author).Some? <==>
      && SearchField(body, TeamNameLabel).Some?
      && Strip(SearchField(body, TeamNameLabel).value) != ""
      && MembersOf(ScanRows(body)) != []
  {
    if SearchField(body, TeamNameLabel).Some? {
      SearchFieldLabelled(body, TeamNameLabel);
    }
  }

  /** Everything a returned submission holds: a stripped non-empty name, at
      least one member, each member valid, the optional fields stripped and
      empty when their label is absent, and the comment's id and author. */
  lemma ParseResult(body: string, commentId: int, author: string)
    requires TeamInfoOf(body, commentId, author).Some?
    ensures var t := TeamInfoOf(body, commentId, author).value;
      && t.teamName != "" && IsStripped(t.teamName)
      && t.members != []
      && (forall m :: m in t.members ==> ValidMember(m))
      && IsStripped(t.teamGithubAccount) && IsStripped(t.teamRepoUrl) && IsStripped(t.submissionTime)
      && (SearchField(body, AccountLabel).None? ==> t.teamGithubAccount == "")
      && (SearchField(body, RepoLabel).None? ==> t.teamRepoUrl == "")
      && (SearchField(body, TimeLabel).None? ==> t.submissionTime == "")
      && t.commentId == commentId && t.commentAuthor == author
  {
    var t := TeamInfoOf(body, commentId, author).value;
    forall m | m in t.members ensures ValidMember(m) {
      FilterMapFrom(ScanRows(body), RowMember, m);
    }
  }

  /** The members are exactly the table rows that survive the filter, each
      once, in the order the rows occur in the body. */
  lemma MembersInRowOrder(body: string)
    ensures var rows, ms, ks := ScanRows(body), MembersOf(ScanRows(body)), KeptIndices(ScanRows(body), RowMember);
      && |ks| == |ms|
      && (forall k :: 0 <= k < |ks| ==> ks[k] < |rows| && RowMember(rows[ks[k]]) == Some(ms[k]))
      && (forall k, l :: 0 <= k < l < |ks| ==> ks[k] < ks[l])
      && (forall j :: 0 <= j < |rows| ==> (RowMember(rows[j]).Some? <==> j in ks))
  {
    FilterMapIndices(ScanRows(body), RowMember);
  }

  /** A body without a bar has no table rows, so it never yields a submission. */
  lemma NoTableNoTeam(body: string, commentId: int, author: string)
    requires '|' !in body
    ensures TeamInfoOf(body, commentId, author).None?
  {
    ScanRowsNoBar(body);
  }
}
