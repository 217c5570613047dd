/** The three submissions of the repository's own validation test, checked
    with at least one and at most three members: one incomplete submission,
    one repeated name and one foreign repository URL. */
module ValidationSample {
  import opened Seqs
  import opened Text
  import opened Teams
  import opened Validator

  const AlphaRepo: string := GithubPrefix + "team-alpha/project"

  const TestTeams: seq<TeamInfo> := [
    TeamInfo("Team Alpha", [TeamMember("张三", "zhangsan", GithubPrefix + "zhangsan")],
             "team-alpha", AlphaRepo, "2025-01-15", 123, "user1"),
    TeamInfo("Team Alpha", [TeamMember("李四", "lisi", GithubPrefix + "lisi")],
             "team-alpha-2", "invalid_url", "2025-01-15", 124, "user2"),
    TeamInfo("", [], "", "", "", 125, "user3")]

  /** The test's validation reports exactly: the unnamed submission as
      incomplete, the second "Team Alpha" as a repeat, its URL as invalid,
      and the unnamed submission as having too few members. */
  lemma TestValidation()
    ensures Validation(TestTeams, 1, 3)
         == Issues([MissingInfoMessage("")], ["Team Alpha"], [InvalidUrlMessage("Team Alpha")],
                   [TooFewMessage("", 0, 1)])
  {
    var t0, t1, t2 := TestTeams[0], TestTeams[1], TestTeams[2];
    assert TestTeams == [t0, t1, t2];
    FirstTeam();
    SecondTeam();
    ThirdTeam();
    FilterMapThree(t0, t1, t2, MissingInfo);
    FilterMapThree(t0, t1, t2, InvalidUrl);
    FilterMapThree(t0, t1, t2, CountCheck(1, 3));
    RepeatsThree(t0, t1, t2);
  }

  lemma FirstTeam()
    ensures var t := TestTeams[0];
      MissingInfo(t) == None && InvalidUrl(t) == None && MemberCountIssue(t, 1, 3) == None
  {
    PrefixStarts(GithubPrefix, "team-alpha/project");
  }

  lemma SecondTeam()
    ensures var t := TestTeams[1];
      && MissingInfo(t) == None && InvalidUrl(t) == Some(InvalidUrlMessage("Team Alpha"))
      && MemberCountIssue(t, 1, 3) == None
  {
  }

  lemma ThirdTeam()
    ensures var t := TestTeams[2];
      && MissingInfo(t) == Some(MissingInfoMessage("")) && InvalidUrl(t) == None
      && MemberCountIssue(t, 1, 3) == Some(TooFewMessage("", 0, 1))
  {
  }

  lemma PrefixStarts(p: string, t: string)
    ensures StartsWith(p + t, p)
  {
    assert (p + t)[..|p|] == p;
  }

  /** The repeats among three submissions: the second when it repeats the
      first, the third when it repeats either. */
  lemma RepeatsThree(a: TeamInfo, b: TeamInfo, c: TeamInfo)
    ensures Repeats([a, b, c])
         == (if b.teamName == a.teamName then [b.teamName] else [])
          + (if c.teamName == a.teamName || c.teamName == b.teamName then [c.teamName] else [])
  {
    assert [a][..0] == [];
    assert Repeats([a]) == [];
    assert [a, b][..1] == [a];
    NameBeforeOne(a, b.teamName);
    assert Repeats([a, b]) == if b.teamName == a.teamName then [b.teamName] else [];
    assert [a, b, c][..2] == [a, b];
    NameBeforeTwo(a, b, c.teamName);
  }

  lemma NameBeforeOne(a: TeamInfo, name: string)
    ensures NameBefore([a], name) <==> name == a.teamName
  {
    if name == a.teamName {
      assert [a][0].teamName == name;
    }
  }

  lemma NameBeforeTwo(a: TeamInfo, b: TeamInfo, name: string)
    ensures NameBefore([a, b], name) <==> name == a.teamName || name == b.teamName
  {
    if name == a.teamName {
      assert [a, b][0].teamName == name;
    } else if name == b.teamName {
      assert [a, b][1].teamName == name;
    }
  }
}
