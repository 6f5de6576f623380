/**
 * What the accumulation promises, stated against GitHistory: which entries
 * contribute, the project stamp, the order of the output, and where it stops.
 */
module HistoryProperties {
  import opened Wrappers
  import opened History
  import Paths

  /**
   * The reference definition: every entry's records, in walk order, with
   * no stopping at errors.
   */
  function Gathered(es: seq<Entry>, user: string, after: string, gitLog: GitLog): seq<Commit>
  {
    if es == [] then [] else Visit(es[0], user, after, gitLog).records + Gathered(es[1..], user, after, gitLog)
  }

  /** No entry before position `i` makes the callback return an error. */
  ghost predicate NoFailureBefore(es: seq<Entry>, i: int, user: string, after: string, gitLog: GitLog)
    requires i <= |es|
  {
    forall k :: 0 <= k < i ==> Visit(es[k], user, after, gitLog).err.None?
  }

  /** `c` is one of the records `git log` yields for the repository entry `e`, stamped with its project. */
  ghost predicate FromRepository(c: Commit, e: Entry, user: string, after: string, gitLog: GitLog)
  {
    && e.walkError.None?
    && e.name == GitDir
    && gitLog(e.path, user, after).Stream?
    && var recs := gitLog(e.path, user, after).records;
       exists j :: 0 <= j < |recs| && c == recs[j].(project := Paths.ParentDir(e.path))
  }

  lemma {:induction false} GatheredAppend(a: seq<Entry>, b: seq<Entry>, user: string, after: string, gitLog: GitLog)
    ensures Gathered(a + b, user, after, gitLog) == Gathered(a, user, after, gitLog) + Gathered(b, user, after, gitLog)
  {
    if a == [] {
      assert a + b == b;
    } else {
      assert (a + b)[0] == a[0];
      assert (a + b)[1..] == a[1..] + b;
      GatheredAppend(a[1..], b, user, after, gitLog);
    }
  }

  /**
   * The fold is the reference cut at the first failing entry: the output
   * is every record of the entries it visited, in walk order, including
   * those of the entry that failed; it stops at the first entry whose
   * callback returns an error and returns that error; and it ends without
   * an error exactly when no entry fails.
   */
  lemma {:induction false} HistoryIsGatheredPrefix(es: seq<Entry>, user: string, after: string, gitLog: GitLog)
    ensures
      var r := GitHistory(es, user, after, gitLog);
      && r.commits == Gathered(es[..r.visited], user, after, gitLog)
      && NoFailureBefore(es, r.visited - 1, user, after, gitLog)
      && (r.err.Some? ==> Visit(es[r.visited - 1], user, after, gitLog).err == r.err)
      && (r.err.None? <==> NoFailureBefore(es, |es|, user, after, gitLog))
  {
    if es != [] {
      var s := Visit(es[0], user, after, gitLog);
      var r := GitHistory(es, user, after, gitLog);
      if s.err.Some? {
        assert es[..1] == [es[0]];
        assert Gathered(es[..1], user, after, gitLog) == s.records + Gathered([], user, after, gitLog);
      } else {
        var tail := es[1..];
        HistoryIsGatheredPrefix(tail, user, after, gitLog);
        var rt := GitHistory(tail, user, after, gitLog);
        assert es[..r.visited] == [es[0]] + tail[..rt.visited];
        assert es[..r.visited][1..] == tail[..rt.visited];
        forall k | 0 <= k < |es| && (k == 0 || k - 1 < rt.visited - 1 || (rt.err.None? && k - 1 < |tail|))
          ensures Visit(es[k], user, after, gitLog).err.None?
        {
          if k > 0 {
            assert es[k] == tail[k - 1];
          }
        }
        if rt.err.Some? {
          assert es[r.visited - 1] == tail[rt.visited - 1];
        }
        if NoFailureBefore(es, |es|, user, after, gitLog) {
          forall k | 0 <= k < |tail| ensures Visit(tail[k], user, after, gitLog).err.None? {
            assert tail[k] == es[k + 1];
          }
        }
      }
    }
  }

  /** Only repository entries contribute: a walk with no `.git` entry yields no commits, and can only fail in the walk itself. */
  lemma {:induction false} NoRepositoryNoCommits(es: seq<Entry>, user: string, after: string, gitLog: GitLog)
    requires forall k :: 0 <= k < |es| ==> es[k].name != GitDir
    ensures GitHistory(es, user, after, gitLog).commits == []
    ensures GitHistory(es, user, after, gitLog).err.Some? ==> GitHistory(es, user, after, gitLog).err.value.WalkError?
  {
    if es != [] {
      NoRepositoryNoCommits(es[1..], user, after, gitLog);
    }
  }

  /**
   * Every output commit is one of the records `git log` yields for a
   * repository entry the walk visited, with its project replaced by that
   * entry's parent directory name and every other field as decoded.
   */
  lemma {:induction false} CommitsComeFromRepositories(es: seq<Entry>, user: string, after: string, gitLog: GitLog)
    ensures
      var r := GitHistory(es, user, after, gitLog);
      forall c :: c in r.commits ==>
        exists k :: 0 <= k < r.visited && FromRepository(c, es[k], user, after, gitLog) &&
          c.project == Paths.ParentDir(es[k].path)
  {
    var r := GitHistory(es, user, after, gitLog);
    if es != [] {
      var s := Visit(es[0], user, after, gitLog);
      CommitsComeFromRepositories(es[1..], user, after, gitLog);
      forall c | c in r.commits
        ensures (exists k :: 0 <= k < r.visited && FromRepository(c, es[k], user, after, gitLog) &&
                   c.project == Paths.ParentDir(es[k].path))
      {
        if c in s.records {
          var j :| 0 <= j < |s.records| && s.records[j] == c;
          assert FromRepository(c, es[0], user, after, gitLog);
        } else {
          var rt := GitHistory(es[1..], user, after, gitLog);
          assert c in rt.commits;
          var k :| 0 <= k < rt.visited && FromRepository(c, es[1..][k], user, after, gitLog) &&
            c.project == Paths.ParentDir(es[1..][k].path);
          assert es[1..][k] == es[k + 1];
        }
      }
    }
  }

  /**
   * The first failing entry ends the walk: the result is the records of
   * every earlier entry and of the failing one, and its error; no later
   * entry is looked at.
   */
  lemma FirstFailureStops(es: seq<Entry>, i: nat, user: string, after: string, gitLog: GitLog)
    requires i < |es|
    requires NoFailureBefore(es, i, user, after, gitLog)
    requires Visit(es[i], user, after, gitLog).err.Some?
    ensures
      var s := Visit(es[i], user, after, gitLog);
      GitHistory(es, user, after, gitLog) == Fold(Gathered(es[..i], user, after, gitLog) + s.records, s.err, i + 1)
  {
    var pre := es[..i];
    HistoryIsGatheredPrefix(pre, user, after, gitLog);
    assert NoFailureBefore(pre, |pre|, user, after, gitLog) by {
      forall k | 0 <= k < |pre| ensures Visit(pre[k], user, after, gitLog).err.None? {
        assert pre[k] == es[k];
      }
    }
    assert pre[..|pre|] == pre;
    HistoryExtend(es, i, user, after, gitLog);
  }

  /** A walk error for an entry aborts the fold with that error, after the records gathered before it. */
  lemma WalkErrorStops(es: seq<Entry>, i: nat, msg: string, user: string, after: string, gitLog: GitLog)
    requires i < |es| && es[i].walkError == Some(msg)
    requires NoFailureBefore(es, i, user, after, gitLog)
    ensures GitHistory(es, user, after, gitLog) == Fold(Gathered(es[..i], user, after, gitLog), Some(WalkError(msg)), i + 1)
  {
    FirstFailureStops(es, i, user, after, gitLog);
  }

  /** A failing `git log` in a repository aborts the fold with that error, after the records gathered before it. */
  lemma GitErrorStops(es: seq<Entry>, i: nat, msg: string, user: string, after: string, gitLog: GitLog)
    requires i < |es| && es[i].walkError.None? && es[i].name == GitDir
    requires gitLog(es[i].path, user, after) == GitFailed(msg)
    requires NoFailureBefore(es, i, user, after, gitLog)
    ensures GitHistory(es, user, after, gitLog) == Fold(Gathered(es[..i], user, after, gitLog), Some(GitError(msg)), i + 1)
  {
    FirstFailureStops(es, i, user, after, gitLog);
  }

  /**
   * A malformed record aborts the fold with the decode error; the output
   * keeps the records decoded before it, from the failing repository too.
   */
  lemma DecodeErrorKeepsDecoded(es: seq<Entry>, i: nat, recs: seq<Commit>, msg: string, user: string, after: string, gitLog: GitLog)
    requires i < |es| && es[i].walkError.None? && es[i].name == GitDir
    requires gitLog(es[i].path, user, after) == Stream(recs, Malformed(msg))
    requires NoFailureBefore(es, i, user, after, gitLog)
    ensures GitHistory(es, user, after, gitLog) ==
      Fold(Gathered(es[..i], user, after, gitLog) + Stamp(recs, Paths.ParentDir(es[i].path)), Some(DecodeError(msg)), i + 1)
  {
    FirstFailureStops(es, i, user, after, gitLog);
  }

  /** The walk of a non-empty sequence, one entry and then the rest. */
  lemma HistoryCons(e: Entry, rest: seq<Entry>, user: string, after: string, gitLog: GitLog)
    ensures GitHistory([e] + rest, user, after, gitLog) ==
      var s := Visit(e, user, after, gitLog);
      if s.err.Some? then Fold(s.records, s.err, 1)
      else
        var rt := GitHistory(rest, user, after, gitLog);
        Fold(s.records + rt.commits, rt.err, 1 + rt.visited)
  {
    assert ([e] + rest)[0] == e;
    assert ([e] + rest)[1..] == rest;
  }

  /**
   * A repository whose decode stream ends cleanly at end of input appends
   * all its records, in decode order and stamped with its project name,
   * and the walk goes on with the next entry.
   */
  lemma RepositoryAppends(es: seq<Entry>, i: nat, recs: seq<Commit>, user: string, after: string, gitLog: GitLog)
    requires i < |es| && es[i].walkError.None? && es[i].name == GitDir
    requires gitLog(es[i].path, user, after) == Stream(recs, Eof)
    requires NoFailureBefore(es, i, user, after, gitLog)
    ensures Gathered(es[..i + 1], user, after, gitLog) ==
      Gathered(es[..i], user, after, gitLog) + Stamp(recs, Paths.ParentDir(es[i].path))
    ensures
      var rest := GitHistory(es[i + 1..], user, after, gitLog);
      GitHistory(es, user, after, gitLog) ==
        Fold(Gathered(es[..i], user, after, gitLog) + Stamp(recs, Paths.ParentDir(es[i].path)) + rest.commits,
             rest.err, i + 1 + rest.visited)
  {
    var pre := es[..i];
    var s := Visit(es[i], user, after, gitLog);
    assert s == Step(Stamp(recs, Paths.ParentDir(es[i].path)), None);
    HistoryIsGatheredPrefix(pre, user, after, gitLog);
    assert NoFailureBefore(pre, |pre|, user, after, gitLog) by {
      forall k | 0 <= k < |pre| ensures Visit(pre[k], user, after, gitLog).err.None? {
        assert pre[k] == es[k];
      }
    }
    assert pre[..|pre|] == pre;
    HistoryExtend(es, i, user, after, gitLog);
    assert es == es[..i + 1] + es[i + 1..];
    HistoryAppend(es[..i + 1], es[i + 1..], user, after, gitLog);
    assert es[..i + 1] == pre + [es[i]];
    GatheredAppend(pre, [es[i]], user, after, gitLog);
    assert Gathered([es[i]], user, after, gitLog) == s.records + Gathered([], user, after, gitLog);
  }

  /** An entry whose callback adds nothing and returns no error can be dropped from the walk without changing the result. */
  lemma SilentEntrySkipped(es: seq<Entry>, i: nat, user: string, after: string, gitLog: GitLog)
    requires i < |es| && Visit(es[i], user, after, gitLog) == Step([], None)
    ensures
      var r := GitHistory(es, user, after, gitLog);
      var r' := GitHistory(es[..i] + es[i + 1..], user, after, gitLog);
      r.commits == r'.commits && r.err == r'.err
  {
    var pre, post := es[..i], es[i + 1..];
    var tail := [es[i]] + post;
    assert es == pre + tail;
    HistoryCons(es[i], post, user, after, gitLog);
    var rt := GitHistory(tail, user, after, gitLog);
    var rp := GitHistory(post, user, after, gitLog);
    assert rt.commits == rp.commits && rt.err == rp.err;
    HistoryAppend(pre, tail, user, after, gitLog);
    HistoryAppend(pre, post, user, after, gitLog);
  }

  /** An entry that is not named `.git` is passed over and the walk goes on. */
  lemma NonRepositorySkipped(es: seq<Entry>, i: nat, user: string, after: string, gitLog: GitLog)
    requires i < |es| && es[i].walkError.None? && es[i].name != GitDir
    ensures
      var r := GitHistory(es, user, after, gitLog);
      var r' := GitHistory(es[..i] + es[i + 1..], user, after, gitLog);
      r.commits == r'.commits && r.err == r'.err
  {
    SilentEntrySkipped(es, i, user, after, gitLog);
  }

  /** A repository whose `git log` prints nothing adds no commits and does not stop the walk. */
  lemma EmptyOutputSkipped(es: seq<Entry>, i: nat, user: string, after: string, gitLog: GitLog)
    requires i < |es| && es[i].walkError.None? && es[i].name == GitDir
    requires gitLog(es[i].path, user, after) == NoOutput
    ensures
      var r := GitHistory(es, user, after, gitLog);
      var r' := GitHistory(es[..i] + es[i + 1..], user, after, gitLog);
      r.commits == r'.commits && r.err == r'.err
  {
    SilentEntrySkipped(es, i, user, after, gitLog);
  }

  /** A walk over entries that are all passed over yields nothing and no error. */
  lemma {:induction false} SilentWalk(es: seq<Entry>, user: string, after: string, gitLog: GitLog)
    requires forall k :: 0 <= k < |es| ==> Visit(es[k], user, after, gitLog) == Step([], None)
    ensures GitHistory(es, user, after, gitLog) == Fold([], None, |es|)
  {
    if es != [] {
      assert Visit(es[0], user, after, gitLog) == Step([], None);
      SilentWalk(es[1..], user, after, gitLog);
    }
  }

  /**
   * A tree under `root` holding `A/.git` with two matching commits,
   * `B/.git` with none, and `C/nogit`. The walk also goes into each `.git`
   * directory, whose contents (`insideA`, `insideB`) are plain entries.
   * The output is A's two commits, in `git log`'s order, both stamped "A",
   * and no error.
   */
  lemma ThreeDirectoryScenario(root: string, rootName: string, insideA: seq<Entry>, insideB: seq<Entry>,
                               c1: Commit, c2: Commit, user: string, after: string, gitLog: GitLog)
    requires rootName != GitDir
    requires forall e :: e in insideA ==> e.walkError.None? && e.name != GitDir
    requires forall e :: e in insideB ==> e.walkError.None? && e.name != GitDir
    requires gitLog(root + "/A/.git", user, after) == Stream([c1, c2], Eof)
    requires gitLog(root + "/B/.git", user, after) == NoOutput
    ensures
      var es := [Entry(root, rootName, None), Entry(root + "/A", "A", None), Entry(root + "/A/.git", ".git", None)]
                + insideA
                + [Entry(root + "/B", "B", None), Entry(root + "/B/.git", ".git", None)]
                + insideB
                + [Entry(root + "/C", "C", None), Entry(root + "/C/nogit", "nogit", None)];
      GitHistory(es, user, after, gitLog) == Fold([c1.(project := "A"), c2.(project := "A")], None, |es|)
  {
    var e0, e1 := Entry(root, rootName, None), Entry(root + "/A", "A", None);
    var repo := Entry(root + "/A/.git", ".git", None);
    var e3, e4 := Entry(root + "/B", "B", None), Entry(root + "/B/.git", ".git", None);
    var e5, e6 := Entry(root + "/C", "C", None), Entry(root + "/C/nogit", "nogit", None);
    var before := [e0, e1];
    var rest := insideA + [e3, e4] + insideB + [e5, e6];
    var stamped := [c1.(project := "A"), c2.(project := "A")];
    ScenarioRepository(root, c1, c2, user, after, gitLog);
    SilentWalk(before, user, after, gitLog);
    ScenarioRestIsSilent(root, insideA, insideB, user, after, gitLog);
    var tail := [repo] + rest;
    HistoryCons(repo, rest, user, after, gitLog);
    assert GitHistory(tail, user, after, gitLog) == Fold(stamped, None, 1 + |rest|);
    HistoryAppend(before, tail, user, after, gitLog);
    assert GitHistory(before + tail, user, after, gitLog) == Fold(stamped, None, |before + tail|);
    assert before + tail == [e0, e1, repo] + insideA + [e3, e4] + insideB + [e5, e6];
  }

  /** Everything the scenario walks after `A/.git` is passed over: B's empty repository included. */
  lemma ScenarioRestIsSilent(root: string, insideA: seq<Entry>, insideB: seq<Entry>, user: string, after: string, gitLog: GitLog)
    requires forall e :: e in insideA ==> e.walkError.None? && e.name != GitDir
    requires forall e :: e in insideB ==> e.walkError.None? && e.name != GitDir
    requires gitLog(root + "/B/.git", user, after) == NoOutput
    ensures
      var rest := insideA + [Entry(root + "/B", "B", None), Entry(root + "/B/.git", ".git", None)]
                  + insideB + [Entry(root + "/C", "C", None), Entry(root + "/C/nogit", "nogit", None)];
      GitHistory(rest, user, after, gitLog) == Fold([], None, |rest|)
  {
    var e3, e4 := Entry(root + "/B", "B", None), Entry(root + "/B/.git", ".git", None);
    var e5, e6 := Entry(root + "/C", "C", None), Entry(root + "/C/nogit", "nogit", None);
    var rest := insideA + [e3, e4] + insideB + [e5, e6];
    assert Visit(e4, user, after, gitLog) == Step([], None);
    forall k | 0 <= k < |rest| ensures Visit(rest[k], user, after, gitLog) == Step([], None) {
      var e := rest[k];
      assert e in rest;
      assert e in insideA || e == e3 || e == e4 || e in insideB || e == e5 || e == e6;
    }
    SilentWalk(rest, user, after, gitLog);
  }

  /** The scenario's repository `A/.git`: its two commits, stamped "A". */
  lemma ScenarioRepository(root: string, c1: Commit, c2: Commit, user: string, after: string, gitLog: GitLog)
    requires gitLog(root + "/A/.git", user, after) == Stream([c1, c2], Eof)
    ensures Visit(Entry(root + "/A/.git", ".git", None), user, after, gitLog) ==
      Step([c1.(project := "A"), c2.(project := "A")], None)
  {
    assert root + "/A/.git" == root + [Paths.Sep] + "A" + [Paths.Sep] + ".git";
    Paths.ParentDirOfNested(root, "A", ".git");
  }
}
