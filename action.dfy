/**
 * The command's action (main.go, commands): refuse an empty `user` before
 * any history work, then gather the history. Creating and writing
 * standup.json is not part of this model; a successful run yields the
 * commits that would be written.
 */
module Action {
  import opened Wrappers
  import opened History

  /**
   * Runs the action for the `user`, `dir` and `after` flag values. The ghost
   * `visited` counts the walk entries the history callback saw.
   */
  method Run(user: string, dir: string, after: string, walk: string -> seq<Entry>, gitLog: GitLog)
    returns (r: Result<seq<Commit>, Error>, ghost visited: nat)
    ensures r == Failure(MissingUser) <==> user == ""
    ensures user == "" ==> visited == 0
    ensures user != "" ==>
      var h := GitHistory(walk(dir), user, after, gitLog);
      && visited == h.visited
      && r == if h.err.Some? then Failure(h.err.value) else Success(h.commits)
  {
    if |user| == 0 {
      return Failure(MissingUser), 0;
    }
    var commits, err;
    commits, err, visited := GetGitHistory(dir, user, after, walk, gitLog);
    if err.Some? {
      return Failure(err.value), visited;
    }
    r := Success(commits);
  }
}
