/** Collection: every fetched comment of an issue is run through the parser,
    and the submissions it yields are kept in comment order. Fetching the
    comments is network I/O; here they are given as a sequence. */
module Collector {
  import opened Seqs
  import opened Teams
  import opened Parser

  /** The submission one comment yields, if any. */
  function Parsed(c: Comment): Option<TeamInfo>
  {
    TeamInfoOf(c.body, c.id, c.author)
  }

  /** The submissions of a sequence of comments, in comment order. */
  function Collected(comments: seq<Comment>): seq<TeamInfo>
  {
    FilterMap(comments, Parsed)
  }

  /** The collection loop: parse each comment, keep what the parser returns. */
  method CollectTeamInfo(comments: seq<Comment>) returns (teams: seq<TeamInfo>)
    ensures teams == Collected(comments)
  {
    teams := [];
    for i := 0 to |comments|
      invariant teams == Collected(comments[..i])
    {
      var teamInfo := ParseTeamInfo(comments[i].body, comments[i].id, comments[i].author);
      FilterMapPrefix(comments, i, Parsed);
      if teamInfo.Some? {
        teams := teams + [teamInfo.value];
      }
    }
    assert comments[..|comments|] == comments;
  }

  /** The collected submissions are exactly the parser's non-empty results,
      each once and in comment order, so there are never more of them than
      comments. */
  lemma CollectedExactly(comments: seq<Comment>)
    ensures var teams, ks := Collected(comments), KeptIndices(comments, Parsed);
      && |teams| == |ks| <= |comments|
      && (forall k :: 0 <= k < |ks| ==> ks[k] < |comments| && Parsed(comments[ks[k]]) == Some(teams[k]))
      && (forall k, l :: 0 <= k < l < |ks| ==> ks[k] < ks[l])
      && (forall j :: 0 <= j < |comments| ==> (Parsed(comments[j]).Some? <==> j in ks))
  {
    FilterMapIndices(comments, Parsed);
  }

  /** Every collected submission carries the id and the author of a comment
      whose body the parser accepts. */
  lemma CollectedProvenance(comments: seq<Comment>, t: TeamInfo)
    requires t in Collected(comments)
    ensures exists j :: (0 <= j < |comments| && comments[j].id == t.commentId && comments[j].author == t.commentAuthor
                         && TeamInfoOf(comments[j].body, comments[j].id, comments[j].author) == Some(t))
  {
    FilterMapFrom(comments, Parsed, t);
  }

  /** Nothing is collected exactly when no comment is accepted by the parser. */
  lemma NothingCollected(comments: seq<Comment>)
    ensures Collected(comments) == [] <==> forall j :: 0 <= j < |comments| ==> Parsed(comments[j]).None?
  {
    FilterMapEmpty(comments, Parsed);
  }

  /** A comment that mentions neither marker phrase adds nothing. */
  lemma UnmarkedCommentSkipped(comments: seq<Comment>, c: Comment)
    requires !HasMarker(c.body)
    ensures Collected(comments + [c]) == Collected(comments)
  {
    FilterMapSnoc(comments, c, Parsed);
  }
}
