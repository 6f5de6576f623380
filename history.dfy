/**
 * Commit accumulation (main.go, getGitHistory). The directory walk, the
 * `git log` subprocess and the XML decoder are inputs: the walk is the
 * sequence of entries it visits, and running `git log` in a repository and
 * decoding its output is one abstract function of (path, user, after).
 */
module History {
  import opened Wrappers
  import Paths

  /** The name of the marker directory that makes its parent a repository. */
  const GitDir: string := ".git"

  /** The record the tool reports: author, project, date and message. */
  datatype Commit = Commit(author: string, project: string, date: string, message: string)

  /** A commit with every field empty, as a freshly declared record is. */
  const ZeroCommit := Commit("", "", "", "")

  /** One visit of the walk: the entry's path, its base name, and the error the walk reported for it. */
  datatype Entry = Entry(path: string, name: string, walkError: Option<string>)

  /** How a decode stream ends: cleanly at end of input, or at a malformed record. */
  datatype StreamEnd = Eof | Malformed(msg: string)

  /**
   * What `git log` in one repository yields: the command failed; it
   * printed nothing; or it printed output whose decode gives these records
   * in order and then ends as `end` says.
   */
  datatype Extraction = GitFailed(msg: string) | NoOutput | Stream(records: seq<Commit>, end: StreamEnd)

  /** The failures of a run, by origin. */
  datatype Error = MissingUser | WalkError(msg: string) | GitError(msg: string) | DecodeError(msg: string)

  /** The environment's `git log` plus decode, as a function of (path, user, after). */
  type GitLog = (string, string, string) -> Extraction

  /** The effect of the walk callback on one entry: records to append, and the error it returns. */
  datatype Step = Step(records: seq<Commit>, err: Option<Error>)

  /** The result of the walk: the accumulated commits, the error, and how many entries the callback saw. */
  datatype Fold = Fold(commits: seq<Commit>, err: Option<Error>, visited: nat)

  /** Every record given the same project name, everything else kept. */
  function Stamp(records: seq<Commit>, project: string): seq<Commit>
  {
    seq(|records|, j requires 0 <= j < |records| => records[j].(project := project))
  }

  /** What the walk callback does with one entry. */
  function Visit(e: Entry, user: string, after: string, gitLog: GitLog): (s: Step)
    ensures e.walkError.None? && e.name != GitDir ==> s == Step([], None)
    ensures s.records != [] ==> e.walkError.None? && e.name == GitDir
    ensures s.err.Some? ==> !s.err.value.MissingUser?
  {
    if e.walkError.Some? then Step([], Some(WalkError(e.walkError.value)))
    else if e.name != GitDir then Step([], None)
    else
      match gitLog(e.path, user, after)
      case GitFailed(m) => Step([], Some(GitError(m)))
      case NoOutput => Step([], None)
      case Stream(recs, end) =>
        Step(Stamp(recs, Paths.ParentDir(e.path)), if end.Eof? then None else Some(DecodeError(end.msg)))
  }

  /** The walk as a fold over its entries that stops at the first error the callback returns. */
  function GitHistory(es: seq<Entry>, user: string, after: string, gitLog: GitLog): (r: Fold)
    ensures r.visited <= |es|
    ensures r.err.None? ==> r.visited == |es|
    ensures r.err.Some? ==> 0 < r.visited && !r.err.value.MissingUser?
  {
    if es == [] then Fold([], None, 0)
    else
      var s := Visit(es[0], user, after, gitLog);
      if s.err.Some? then Fold(s.records, s.err, 1)
      else
        var rest := GitHistory(es[1..], user, after, gitLog);
        Fold(s.records + rest.commits, rest.err, 1 + rest.visited)
  }

  /** Walking `a` then `b` is walking `a`, and then `b` only if `a` ended without an error. */
  lemma {:induction false} HistoryAppend(a: seq<Entry>, b: seq<Entry>, user: string, after: string, gitLog: GitLog)
    ensures GitHistory(a + b, user, after, gitLog) ==
      var ra := GitHistory(a, user, after, gitLog);
      var rb := GitHistory(b, user, after, gitLog);
      if ra.err.Some? then ra else Fold(ra.commits + rb.commits, rb.err, |a| + rb.visited)
  {
    if a == [] {
      assert a + b == b;
    } else {
      var s := Visit(a[0], user, after, gitLog);
      assert (a + b)[0] == a[0];
      assert (a + b)[1..] == a[1..] + b;
      if s.err.None? {
        HistoryAppend(a[1..], b, user, after, gitLog);
        var ra' := GitHistory(a[1..], user, after, gitLog);
        var rb := GitHistory(b, user, after, gitLog);
        if ra'.err.None? {
          assert s.records + (ra'.commits + rb.commits) == (s.records + ra'.commits) + rb.commits;
        }
      }
    }
  }

  /** One more entry of the walk, after a prefix that ended without an error. */
  lemma HistoryExtend(es: seq<Entry>, i: nat, user: string, after: string, gitLog: GitLog)
    requires i < |es| && GitHistory(es[..i], user, after, gitLog).err.None?
    ensures
      var s := Visit(es[i], user, after, gitLog);
      var r := GitHistory(es[..i], user, after, gitLog);
      && GitHistory(es[..i + 1], user, after, gitLog) == Fold(r.commits + s.records, s.err, i + 1)
      && (s.err.Some? ==> GitHistory(es, user, after, gitLog) == GitHistory(es[..i + 1], user, after, gitLog))
  {
    assert es[..i + 1] == es[..i] + [es[i]];
    HistoryAppend(es[..i], [es[i]], user, after, gitLog);
    assert es == es[..i + 1] + es[i + 1..];
    HistoryAppend(es[..i + 1], es[i + 1..], user, after, gitLog);
  }

  /**
   * The XML decoder over one repository's output, seen as the records it
   * will decode and how the stream ends; `pos` is how many records it has
   * handed out.
   */
  class Decoder {
    const records: seq<Commit>
    const end: StreamEnd
    var pos: nat

    ghost predicate Valid()
      reads this
    {
      pos <= |records|
    }

    constructor (records: seq<Commit>, end: StreamEnd)
      ensures Valid() && this.records == records && this.end == end && pos == 0
    {
      this.records := records;
      this.end := end;
      pos := 0;
    }

    /** Decodes the next record, or reports how the stream ended once every record is out. */
    method Decode() returns (c: Commit, err: Option<StreamEnd>)
      requires Valid()
      modifies this
      ensures Valid()
      ensures old(pos) < |records| ==> c == records[old(pos)] && err.None? && pos == old(pos) + 1
      ensures old(pos) == |records| ==> err == Some(end) && pos == old(pos)
    {
      if pos < |records| {
        c, err := records[pos], None;
        pos := pos + 1;
      } else {
        c, err := ZeroCommit, Some(end);
      }
    }
  }

  /** The walk callback: appends one entry's stamped records to `commits` and returns its error. */
  method VisitEntry(e: Entry, user: string, after: string, gitLog: GitLog, commits: seq<Commit>)
    returns (acc: seq<Commit>, err: Option<Error>)
    ensures acc == commits + Visit(e, user, after, gitLog).records
    ensures err == Visit(e, user, after, gitLog).err
  {
    acc, err := commits, None;
    if e.walkError.Some? {
      err := Some(WalkError(e.walkError.value));
      return;
    }
    if e.name == GitDir {
      var out := gitLog(e.path, user, after);
      if out.GitFailed? {
        err := Some(GitError(out.msg));
        return;
      }
      if out.NoOutput? {
        return;
      }
      var project := Paths.ParentDir(e.path);
      var d := new Decoder(out.records, out.end);
      while true
        invariant d.Valid() && d.records == out.records && d.end == out.end
        invariant acc == commits + Stamp(out.records[..d.pos], project)
        decreases |out.records| - d.pos
      {
        var c, derr := d.Decode();
        if derr.Some? {
          assert out.records[..d.pos] == out.records;
          if derr.value == Eof {
            break;
          }
          err := Some(DecodeError(derr.value.msg));
          return;
        }
        assert Stamp(out.records[..d.pos], project) == Stamp(out.records[..d.pos - 1], project) + [c.(project := project)];
        c := c.(project := project);
        acc := acc + [c];
      }
    }
  }

  /** getGitHistory: walks `dir`, running the callback on each entry until one returns an error. */
  method GetGitHistory(dir: string, user: string, after: string, walk: string -> seq<Entry>, gitLog: GitLog)
    returns (commits: seq<Commit>, err: Option<Error>, ghost visited: nat)
    ensures commits == GitHistory(walk(dir), user, after, gitLog).commits
    ensures err == GitHistory(walk(dir), user, after, gitLog).err
    ensures visited == GitHistory(walk(dir), user, after, gitLog).visited
  {
    var entries := walk(dir);
    commits, err, visited := [], None, 0;
    var i := 0;
    while i < |entries|
      invariant i <= |entries|
      invariant err.None?
      invariant GitHistory(entries[..i], user, after, gitLog) == Fold(commits, err, i)
    {
      HistoryExtend(entries, i, user, after, gitLog);
      commits, err := VisitEntry(entries[i], user, after, gitLog, commits);
      if err.Some? {
        visited := i + 1;
        return;
      }
      i := i + 1;
    }
    visited := i;
    assert entries[..i] == entries;
  }
}
