/** `os.path.split` and `os.path.join` with POSIX semantics (`posixpath`). */
module PosixPath {
  import opened PyStrings

  /** `p.rfind('/')`: the index of the last slash, or -1. */
  function LastSlash(p: string): (i: int)
    ensures -1 <= i < |p|
    ensures i >= 0 ==> p[i] == '/'
    ensures forall j :: i < j < |p| ==> p[j] != '/'
  {
    if p == [] then -1
    else if p[|p| - 1] == '/' then |p| - 1
    else LastSlash(p[..|p| - 1])
  }

  /** `s.rstrip('/')`. */
  function RStripSlashes(s: string): (r: string)
    ensures |r| <= |s| && r == s[..|r|]
    ensures r == [] || r[|r| - 1] != '/'
    ensures forall j :: |r| <= j < |s| ==> s[j] == '/'
  {
    if s != [] && s[|s| - 1] == '/' then RStripSlashes(s[..|s| - 1]) else s
  }

  /** Every character of `s` is a slash. */
  predicate AllSlashes(s: string)
  {
    forall j :: 0 <= j < |s| ==> s[j] == '/'
  }

  /**
   * `os.path.split(p)`: the tail is everything after the last slash (so holds no
   * slash) and the head everything before it, with trailing slashes removed unless
   * the head consists of slashes only. Without a slash the head is empty.
   * `SplitPathDetermined` shows that these clauses admit no other result.
   */
  function SplitPath(p: string): (r: (string, string))
    ensures |r.0| + |r.1| <= |p| && r.0 == p[..|r.0|]
    ensures '/' !in r.1 && r.1 == p[|p| - |r.1|..]
    ensures '/' !in p ==> r == ("", p)
    ensures '/' in p ==> |r.1| < |p| && p[|p| - |r.1| - 1] == '/'
    ensures AllSlashes(p[|r.0|..|p| - |r.1|])
    ensures r.0 == [] || r.0[|r.0| - 1] != '/' || AllSlashes(r.0)
    ensures AllSlashes(r.0) ==> |r.0| + |r.1| == |p|
  {
    var i := LastSlash(p) + 1;
    var head, tail := p[..i], p[i..];
    assert '/' !in tail by {
      forall j | 0 <= j < |tail| ensures tail[j] != '/' {
        assert tail[j] == p[i + j];
      }
    }
    if head != [] && !AllSlashes(head) then
      var stripped := RStripSlashes(head);
      assert stripped == [] ==> AllSlashes(head);
      assert p[|stripped|..i] == head[|stripped|..];
      (stripped, tail)
    else
      (head, tail)
  }

  /**
   * A head no longer than `m` whose gap up to `m` is all slashes, and which ends in
   * a non-slash unless it is all slashes and reaches `m`, is at least as long as any
   * other such head.
   */
  lemma HeadNotShorter(p: string, m: nat, h: string, g: string)
    requires m <= |p| && |h| <= m && |g| <= m && h == p[..|h|] && g == p[..|g|]
    requires AllSlashes(p[|h|..m]) && AllSlashes(p[|g|..m])
    requires h == [] || h[|h| - 1] != '/' || AllSlashes(h)
    requires g == [] || g[|g| - 1] != '/' || AllSlashes(g)
    requires AllSlashes(h) ==> |h| == m
    requires AllSlashes(g) ==> |g| == m
    ensures |g| <= |h|
  {
    if |h| < |g| {
      assert g[|g| - 1] == p[|h|..m][|g| - 1 - |h|];
      assert AllSlashes(g);
      forall k | 0 <= k < |h| ensures h[k] == '/' {
        assert h[k] == g[k];
      }
    }
  }

  /** The clauses of `SplitPath` determine its result: any pair meeting them is that result. */
  lemma SplitPathDetermined(p: string, head: string, tail: string)
    requires |head| + |tail| <= |p| && head == p[..|head|]
    requires '/' !in tail && tail == p[|p| - |tail|..]
    requires '/' !in p ==> (head, tail) == ("", p)
    requires '/' in p ==> |tail| < |p| && p[|p| - |tail| - 1] == '/'
    requires AllSlashes(p[|head|..|p| - |tail|])
    requires head == [] || head[|head| - 1] != '/' || AllSlashes(head)
    requires AllSlashes(head) ==> |head| + |tail| == |p|
    ensures SplitPath(p) == (head, tail)
  {
    var r := SplitPath(p);
    if '/' in p {
      var m := |p| - |tail|;
      HeadNotShorter(p, m, head, r.0);
      HeadNotShorter(p, m, r.0, head);
    }
  }

  /**
   * `os.path.join(a, b)`: an absolute `b` replaces `a`; otherwise `b` is appended
   * to `a`, with a slash in between unless `a` is empty or already ends in one.
   */
  function JoinPath(a: string, b: string): (r: string)
    ensures StartsWith(b, "/") ==> r == b
    ensures !StartsWith(b, "/") ==> StartsWith(r, a) && |b| <= |r| && r[|r| - |b|..] == b
    ensures !StartsWith(b, "/") && (a == [] || a[|a| - 1] == '/') ==> r == a + b
    ensures !StartsWith(b, "/") && a != [] && a[|a| - 1] != '/' ==> r == a + "/" + b
  {
    if StartsWith(b, "/") then b
    else if a == [] || a[|a| - 1] == '/' then a + b
    else a + "/" + b
  }

  /** A file name placed in a directory splits back into that directory and that name. */
  lemma SplitPathInDirectory(dir: string, name: string)
    requires dir != [] && dir[|dir| - 1] != '/' && '/' !in name
    ensures SplitPath(dir + "/" + name) == (dir, name)
  {
    var p := dir + "/" + name;
    var i := LastSlash(p);
    assert p[|dir|] == '/';
    assert p[..i + 1] == dir + "/" && p[i + 1..] == name;
    assert !AllSlashes(dir + "/") by {
      assert (dir + "/")[|dir| - 1] != '/';
    }
    assert (dir + "/")[..|dir|] == dir;
  }

  /** Without adjacent slashes, a non-empty prefix made only of slashes is a single slash. */
  lemma OneLeadingSlash(p: string, i: nat)
    requires forall j :: 0 <= j < |p| - 1 ==> !(p[j] == '/' && p[j + 1] == '/')
    requires 1 <= i <= |p| && AllSlashes(p[..i])
    ensures p[..i] == "/"
  {
    SlashAt(p[..i], 0);
    if i >= 2 {
      SlashAt(p[..i], 1);
      assert false;
    }
  }

  lemma SlashAt(s: string, k: nat)
    requires AllSlashes(s) && k < |s|
    ensures s[k] == '/'
  {
  }

  /**
   * Joining the two parts of a split gives the path back, for any path in which no
   * two slashes are adjacent.
   */
  lemma JoinSplit(p: string)
    requires forall j :: 0 <= j < |p| - 1 ==> !(p[j] == '/' && p[j + 1] == '/')
    ensures JoinPath(SplitPath(p).0, SplitPath(p).1) == p
  {
    var i := LastSlash(p) + 1;
    var (head, tail) := SplitPath(p);
    assert tail == p[i..];
    assert !StartsWith(tail, "/") by {
      if |tail| >= 1 { assert tail[0] != '/'; }
    }
    if i == 0 {
      assert head == [];
    } else if AllSlashes(p[..i]) {
      OneLeadingSlash(p, i);
      assert head == "/";
      assert p == head + tail;
    } else {
      var stripped := RStripSlashes(p[..i]);
      assert p[i - 2] != '/';
      assert stripped == p[..i - 1];
      assert p == stripped + "/" + tail;
    }
  }
}
