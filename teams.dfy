/** The records the collector produces: one member of a team, one team's
    submission, and a raw issue comment as the hosting service returns it. */
module Teams {

  /** One row of a submission's member table. */
  datatype TeamMember = TeamMember(name: string, githubId: string, githubUrl: string)

  /** One team's submission, taken from a single comment. */
  datatype TeamInfo = TeamInfo(
    teamName: string,
    members: seq<TeamMember>,
    teamGithubAccount: string,
    teamRepoUrl: string,
    submissionTime: string,
    commentId: int,
    commentAuthor: string)

  /** The parts of a fetched comment the collector reads: its id, its body
      and its author's login. */
  datatype Comment = Comment(id: int, body: string, author: string)
}
