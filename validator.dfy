/** Validation: one pass over the collected submissions that reports, in four
    lists, the submissions with missing information, the repeated team names,
    the repository URLs outside the hosting service, and the member counts
    outside the allowed range. The submissions themselves are only read. */
module Validator {
  import opened Seqs
  import opened Text
  import opened Teams

  const GithubPrefix: string := "https://github.com/"
  const DefaultMinMembers: int := 1
  const DefaultMaxMembers: int := 5

  /** The result of a validation: the four issue lists, under the keys
      `missing_info`, `duplicate_teams`, `invalid_urls` and `member_count_issues`. */
  datatype Issues = Issues(
    missingInfo: seq<string>,
    duplicateTeams: seq<string>,
    invalidUrls: seq<string>,
    memberCountIssues: seq<string>)

  function MissingInfoMessage(name: string): string
  {
    "团队 " + name + " 信息不完整"
  }

  function TooFewMessage(name: string, count: nat, minMembers: int): string
  {
    "团队 " + name + " 成员数量过少 (" + NatToDecimal(count) + " < " + IntToDecimal(minMembers) + ")"
  }

  function TooManyMessage(name: string, count: nat, maxMembers: int): string
  {
    "团队 " + name + " 成员数量过多 (" + NatToDecimal(count) + " > " + IntToDecimal(maxMembers) + ")"
  }

  function InvalidUrlMessage(name: string): string
  {
    "团队 " + name + " 的仓库地址格式不正确"
  }

  /** A submission lacks a name or members. */
  predicate Incomplete(t: TeamInfo)
  {
    t.teamName == "" || t.members == []
  }

  /** A repository URL is given and does not lie on the hosting service. */
  predicate BadUrl(t: TeamInfo)
  {
    t.teamRepoUrl != "" && !StartsWith(t.teamRepoUrl, GithubPrefix)
  }

  /** The missing-information entry one submission contributes. */
  function MissingInfo(t: TeamInfo): Option<string>
  {
    if Incomplete(t) then Some(MissingInfoMessage(t.teamName)) else None
  }

  /** The member-count entry one submission contributes: too few is checked
      first, too many only otherwise. */
  function MemberCountIssue(t: TeamInfo, minMembers: int, maxMembers: int): Option<string>
  {
    if |t.members| < minMembers then Some(TooFewMessage(t.teamName, |t.members|, minMembers))
    else if |t.members| > maxMembers then Some(TooManyMessage(t.teamName, |t.members|, maxMembers))
    else None
  }

  function CountCheck(minMembers: int, maxMembers: int): TeamInfo -> Option<string>
  {
    t => MemberCountIssue(t, minMembers, maxMembers)
  }

  /** The URL entry one submission contributes. */
  function InvalidUrl(t: TeamInfo): Option<string>
  {
    if BadUrl(t) then Some(InvalidUrlMessage(t.teamName)) else None
  }

  /** Some submission of `teams` has the team name `name`. */
  predicate NameBefore(teams: seq<TeamInfo>, name: string)
  {
    exists j :: 0 <= j < |teams| && teams[j].teamName == name
  }

  /** The names of the submissions that repeat an earlier submission's name,
      one entry per repeat, in input order. */
  function Repeats(teams: seq<TeamInfo>): seq<string>
    decreases |teams|
  {
    if teams == [] then []
    else
      var init, t := teams[..|teams| - 1], teams[|teams| - 1];
      Repeats(init) + (if NameBefore(init, t.teamName) then [t.teamName] else [])
  }

  /** The set of team names of `teams`. */
  function Names(teams: seq<TeamInfo>): set<string>
  {
    set j | 0 <= j < |teams| :: teams[j].teamName
  }

  /** What the validation of `teams` reports. */
  function Validation(teams: seq<TeamInfo>, minMembers: int, maxMembers: int): Issues
  {
    Issues(FilterMap(teams, MissingInfo), Repeats(teams), FilterMap(teams, InvalidUrl),
           FilterMap(teams, CountCheck(minMembers, maxMembers)))
  }

  /** The validation pass, with the seen-name set the source keeps. */
  method ValidateTeams(teams: seq<TeamInfo>, minMembers: int := DefaultMinMembers,
                       maxMembers: int := DefaultMaxMembers) returns (issues: Issues)
    ensures issues == Validation(teams, minMembers, maxMembers)
  {
    var missingInfo, duplicateTeams, invalidUrls, memberCountIssues := [], [], [], [];
    var teamNames: set<string> := {};
    for i := 0 to |teams|
      invariant teamNames == Names(teams[..i])
      invariant duplicateTeams == Repeats(teams[..i])
      invariant missingInfo == FilterMap(teams[..i], MissingInfo)
      invariant invalidUrls == FilterMap(teams[..i], InvalidUrl)
      invariant memberCountIssues == FilterMap(teams[..i], CountCheck(minMembers, maxMembers))
    {
      var team := teams[i];
      SeenStep(teams, i);
      MissingStep(teams, i);
      CountStep(teams, i, minMembers, maxMembers);
      UrlStep(teams, i);
      if team.teamName in teamNames {
        duplicateTeams := duplicateTeams + [team.teamName];
      }
      teamNames := teamNames + {team.teamName};
      if team.teamName == "" || team.members == [] {
        missingInfo := missingInfo + [MissingInfoMessage(team.teamName)];
      }
      if |team.members| < minMembers {
        memberCountIssues := memberCountIssues + [TooFewMessage(team.teamName, |team.members|, minMembers)];
      } else if |team.members| > maxMembers {
        memberCountIssues := memberCountIssues + [TooManyMessage(team.teamName, |team.members|, maxMembers)];
      }
      if team.teamRepoUrl != "" && !StartsWith(team.teamRepoUrl, GithubPrefix) {
        invalidUrls := invalidUrls + [InvalidUrlMessage(team.teamName)];
      }
    }
    assert teams[..|teams|] == teams;
    issues := Issues(missingInfo, duplicateTeams, invalidUrls, memberCountIssues);
  }

  /** One step of the seen-name bookkeeping: the set gains the name, and the
      name is a repeat exactly when the set already holds it. */
  lemma SeenStep(teams: seq<TeamInfo>, i: nat)
    requires i < |teams|
    ensures Names(teams[..i + 1]) == Names(teams[..i]) + {teams[i].teamName}
    ensures Repeats(teams[..i + 1]) ==
      Repeats(teams[..i]) + (if teams[i].teamName in Names(teams[..i]) then [teams[i].teamName] else [])
  {
    var pre, next := teams[..i], teams[..i + 1];
    assert next[..|next| - 1] == pre;
    NamesIff(pre, teams[i].teamName);
    assert forall j :: 0 <= j < i ==> next[j] == pre[j];
    assert next[i] == teams[i];
  }

  lemma MissingStep(teams: seq<TeamInfo>, i: nat)
    requires i < |teams|
    ensures var t, before := teams[i], FilterMap(teams[..i], MissingInfo);
      FilterMap(teams[..i + 1], MissingInfo) ==
        if t.teamName == "" || t.members == [] then before + [MissingInfoMessage(t.teamName)] else before
  {
    FilterMapPrefix(teams, i, MissingInfo);
    assert FilterMap(teams[..i], MissingInfo) + [] == FilterMap(teams[..i], MissingInfo);
  }

  lemma CountStep(teams: seq<TeamInfo>, i: nat, minMembers: int, maxMembers: int)
    requires i < |teams|
    ensures var t, before := teams[i], FilterMap(teams[..i], CountCheck(minMembers, maxMembers));
      FilterMap(teams[..i + 1], CountCheck(minMembers, maxMembers)) ==
        if |t.members| < minMembers then before + [TooFewMessage(t.teamName, |t.members|, minMembers)]
        else if |t.members| > maxMembers then before + [TooManyMessage(t.teamName, |t.members|, maxMembers)]
        else before
  {
    FilterMapPrefix(teams, i, CountCheck(minMembers, maxMembers));
    assert FilterMap(teams[..i], CountCheck(minMembers, maxMembers)) + []
        == FilterMap(teams[..i], CountCheck(minMembers, maxMembers));
  }

  lemma UrlStep(teams: seq<TeamInfo>, i: nat)
    requires i < |teams|
    ensures var t, before := teams[i], FilterMap(teams[..i], InvalidUrl);
      FilterMap(teams[..i + 1], InvalidUrl) ==
        if t.teamRepoUrl != "" && !StartsWith(t.teamRepoUrl, GithubPrefix) then before + [InvalidUrlMessage(t.teamName)]
        else before
  {
    FilterMapPrefix(teams, i, InvalidUrl);
    assert FilterMap(teams[..i], InvalidUrl) + [] == FilterMap(teams[..i], InvalidUrl);
  }

  /** The name set holds exactly the names of the submissions. */
  lemma NamesIff(teams: seq<TeamInfo>, name: string)
    ensures name in Names(teams) <==> NameBefore(teams, name)
  {
    if NameBefore(teams, name) {
      var j :| 0 <= j < |teams| && teams[j].teamName == name;
      assert teams[j].teamName in Names(teams);
    }
  }

  // ---------------------------------------------------------------------------
  // What the four lists hold
  // ---------------------------------------------------------------------------

  /** How many submissions of `teams` have the team name `name`. */
  function Occurrences(teams: seq<TeamInfo>, name: string): nat
    decreases |teams|
  {
    if teams == [] then 0
    else Occurrences(teams[..|teams| - 1], name) + (if teams[|teams| - 1].teamName == name then 1 else 0)
  }

  lemma {:induction false} OccurrencesPositive(teams: seq<TeamInfo>, name: string)
    ensures Occurrences(teams, name) > 0 <==> NameBefore(teams, name)
    decreases |teams|
  {
    if teams != [] {
      var init := teams[..|teams| - 1];
      OccurrencesPositive(init, name);
      if NameBefore(init, name) {
        var j :| 0 <= j < |init| && init[j].teamName == name;
        assert teams[j] == init[j];
      }
      if NameBefore(teams, name) && teams[|teams| - 1].teamName != name {
        var j :| 0 <= j < |teams| && teams[j].teamName == name;
        assert init[j] == teams[j];
      }
    }
  }

  /** Every repeat is listed and the first occurrence never is: a name occurs
      in the duplicate list one time fewer than among the submissions. */
  lemma {:induction false} RepeatsMultiplicity(teams: seq<TeamInfo>, name: string)
    ensures multiset(Repeats(teams))[name] == if Occurrences(teams, name) == 0 then 0 else Occurrences(teams, name) - 1
    decreases |teams|
  {
    if teams != [] {
      var init, t := teams[..|teams| - 1], teams[|teams| - 1];
      RepeatsMultiplicity(init, name);
      OccurrencesPositive(init, name);
      assert multiset(Repeats(teams)) == multiset(Repeats(init)) + multiset(if NameBefore(init, t.teamName) then [t.teamName] else []);
    }
  }

  /** No name is reported as a duplicate exactly when all team names differ. */
  lemma {:induction false} NoRepeatsIffDistinct(teams: seq<TeamInfo>)
    ensures Repeats(teams) == [] <==> forall i, j :: 0 <= i < j < |teams| ==> teams[i].teamName != teams[j].teamName
    decreases |teams|
  {
    if teams != [] {
      var init, t := teams[..|teams| - 1], teams[|teams| - 1];
      NoRepeatsIffDistinct(init);
      assert forall i :: 0 <= i < |init| ==> init[i] == teams[i];
      if NameBefore(init, t.teamName) {
        var i :| 0 <= i < |init| && init[i].teamName == t.teamName;
        assert teams[i].teamName == teams[|teams| - 1].teamName;
      }
    }
  }

  /** The missing-information list holds one entry per incomplete submission,
      in input order, naming it. */
  lemma MissingInfoExactly(teams: seq<TeamInfo>, minMembers: int, maxMembers: int)
    ensures var issues, ks := Validation(teams, minMembers, maxMembers), KeptIndices(teams, MissingInfo);
      && |issues.missingInfo| == |ks|
      && (forall k :: 0 <= k < |ks| ==>
            ks[k] < |teams| && issues.missingInfo[k] == MissingInfoMessage(teams[ks[k]].teamName))
      && (forall k, l :: 0 <= k < l < |ks| ==> ks[k] < ks[l])
      && (forall j :: 0 <= j < |teams| ==> (Incomplete(teams[j]) <==> j in ks))
  {
    FilterMapIndices(teams, MissingInfo);
  }

  /** The URL list holds one entry per submission whose non-empty repository
      URL does not start with the hosting service's prefix, in input order. */
  lemma InvalidUrlsExactly(teams: seq<TeamInfo>, minMembers: int, maxMembers: int)
    ensures var issues, ks := Validation(teams, minMembers, maxMembers), KeptIndices(teams, InvalidUrl);
      && |issues.invalidUrls| == |ks|
      && (forall k :: 0 <= k < |ks| ==>
            ks[k] < |teams| && issues.invalidUrls[k] == InvalidUrlMessage(teams[ks[k]].teamName))
      && (forall k, l :: 0 <= k < l < |ks| ==> ks[k] < ks[l])
      && (forall j :: 0 <= j < |teams| ==> (BadUrl(teams[j]) <==> j in ks))
  {
    FilterMapIndices(teams, InvalidUrl);
  }

  /** The member-count list holds one entry per submission with fewer than
      `minMembers` or more than `maxMembers` members (both bounds allowed),
      in input order; a submission below the minimum is reported as too small
      even when it is also above the maximum. */
  lemma MemberCountExactly(teams: seq<TeamInfo>, minMembers: int, maxMembers: int)
    ensures var issues, ks := Validation(teams, minMembers, maxMembers), KeptIndices(teams, CountCheck(minMembers, maxMembers));
      && |issues.memberCountIssues| == |ks|
      && (forall k :: 0 <= k < |ks| ==>
            && ks[k] < |teams|
            && issues.memberCountIssues[k] ==
                 if |teams[ks[k]].members| < minMembers
                 then TooFewMessage(teams[ks[k]].teamName, |teams[ks[k]].members|, minMembers)
                 else TooManyMessage(teams[ks[k]].teamName, |teams[ks[k]].members|, maxMembers))
      && (forall k, l :: 0 <= k < l < |ks| ==> ks[k] < ks[l])
      && (forall j :: 0 <= j < |teams| ==>
            (|teams[j].members| < minMembers || |teams[j].members| > maxMembers <==> j in ks))
  {
    FilterMapIndices(teams, CountCheck(minMembers, maxMembers));
  }

  /** A submission that passes every check: named, with members, with a member
      count inside the bounds, and with no repository URL outside the service. */
  predicate Clean(t: TeamInfo, minMembers: int, maxMembers: int)
  {
    !Incomplete(t) && minMembers <= |t.members| <= maxMembers && !BadUrl(t)
  }

  /** Validation reports nothing exactly when every submission is clean and
      no two submissions share a team name. */
  lemma ValidationEmpty(teams: seq<TeamInfo>, minMembers: int, maxMembers: int)
    ensures Validation(teams, minMembers, maxMembers) == Issues([], [], [], []) <==>
      && (forall j :: 0 <= j < |teams| ==> Clean(teams[j], minMembers, maxMembers))
      && (forall i, j :: 0 <= i < j < |teams| ==> teams[i].teamName != teams[j].teamName)
  {
    FilterMapEmpty(teams, MissingInfo);
    FilterMapEmpty(teams, InvalidUrl);
    FilterMapEmpty(teams, CountCheck(minMembers, maxMembers));
    NoRepeatsIffDistinct(teams);
  }
}
