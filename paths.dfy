/**
 * Project naming: the tool names a repository after the directory that
 * holds its `.git` directory, by splitting the path on '/' and taking the
 * second-to-last segment (main.go, getParentDir).
 */
module Paths {

  /** The separator getParentDir splits on. */
  const Sep: char := '/'

  /**
   * The segments of `s` around every '/', as Go's strings.Split(s, "/")
   * returns them: there is always at least one segment, the empty string
   * gives [""], and no segment contains a separator.
   */
  function Split(s: string): (r: seq<string>)
    ensures |r| >= 1
    ensures forall k :: 0 <= k < |r| ==> Sep !in r[k]
  {
    if s == [] then [""]
    else
      var rest := Split(s[1..]);
      if s[0] == Sep then [""] + rest
      else [[s[0]] + rest[0]] + rest[1..]
  }

  /** The inverse of Split: the segments glued back together with '/'. */
  function Join(ss: seq<string>): string
    requires |ss| >= 1
  {
    if |ss| == 1 then ss[0] else ss[0] + [Sep] + Join(ss[1..])
  }

  /** getParentDir: the second-to-last segment, or "" when there is only one. */
  function ParentDir(path: string): (r: string)
    ensures Sep !in r
    ensures Sep !in path ==> r == ""
  {
    var ss := Split(path);
    SplitWithoutSep(path);
    if |ss| < 2 then "" else ss[|ss| - 2]
  }

  /** A string with no separator is one segment: itself. */
  lemma {:induction false} SplitWithoutSep(s: string)
    ensures Sep !in s ==> Split(s) == [s]
  {
    if s != [] && Sep !in s {
      assert Sep !in s[1..];
      SplitWithoutSep(s[1..]);
      assert [s[0]] + s[1..] == s;
    }
  }

  /** Splitting at a separator splits the two halves independently. */
  lemma {:induction false} SplitAround(a: string, b: string)
    ensures Split(a + [Sep] + b) == Split(a) + Split(b)
  {
    if a == [] {
      assert a + [Sep] + b == [Sep] + b;
      assert ([Sep] + b)[1..] == b;
    } else {
      var s := a + [Sep] + b;
      assert s[0] == a[0];
      assert s[1..] == a[1..] + [Sep] + b;
      SplitAround(a[1..], b);
    }
  }

  /** The number of segments is at least two exactly when the path holds a separator. */
  lemma SegmentCount(s: string)
    ensures |Split(s)| < 2 <==> Sep !in s
  {
    SplitWithoutSep(s);
    if Sep in s {
      var i :| 0 <= i < |s| && s[i] == Sep;
      assert s == s[..i] + [Sep] + s[i + 1..];
      SplitAround(s[..i], s[i + 1..]);
    }
  }

  /** Gluing the segments of a string back together gives the string. */
  lemma {:induction false} JoinSplit(s: string)
    ensures Join(Split(s)) == s
  {
    if s != [] {
      var rest := Split(s[1..]);
      JoinSplit(s[1..]);
      if s[0] == Sep {
        assert Join(Split(s)) == [] + [Sep] + Join(rest);
      } else if |rest| == 1 {
        assert Join(Split(s)) == [s[0]] + rest[0];
      } else {
        assert Join(rest) == rest[0] + [Sep] + Join(rest[1..]);
        assert Join(Split(s)) == ([s[0]] + rest[0]) + [Sep] + Join(rest[1..]);
      }
    }
  }

  /** Splitting joined separator-free segments gives the segments back. */
  lemma {:induction false} SplitJoin(ss: seq<string>)
    requires |ss| >= 1
    requires forall k :: 0 <= k < |ss| ==> Sep !in ss[k]
    ensures Split(Join(ss)) == ss
  {
    SplitWithoutSep(ss[0]);
    if |ss| > 1 {
      SplitJoin(ss[1..]);
      SplitAround(ss[0], Join(ss[1..]));
      assert [ss[0]] + ss[1..] == ss;
    }
  }

  /** A repository `p/n` one level down is named after `p`. */
  lemma ParentDirOfTopLevel(p: string, n: string)
    requires Sep !in p && Sep !in n
    ensures ParentDir(p + [Sep] + n) == p
  {
    SplitAround(p, n);
    SplitWithoutSep(p);
    SplitWithoutSep(n);
  }

  /** A repository `d/p/n` is named after `p`, whatever the directories above it. */
  lemma ParentDirOfNested(d: string, p: string, n: string)
    requires Sep !in p && Sep !in n
    ensures ParentDir(d + [Sep] + p + [Sep] + n) == p
  {
    assert d + [Sep] + p + [Sep] + n == d + [Sep] + (p + [Sep] + n);
    SplitAround(d, p + [Sep] + n);
    SplitAround(p, n);
    SplitWithoutSep(p);
    SplitWithoutSep(n);
  }

  /** The example the tool is built around: "a/myproj/.git" names the project "myproj". */
  lemma ParentDirExample()
    ensures ParentDir("a/myproj/.git") == "myproj"
  {
    assert "a/myproj/.git" == "a" + [Sep] + "myproj" + [Sep] + ".git";
    ParentDirOfNested("a", "myproj", ".git");
  }
}
