/**
  Path strings as the scanner builds them: a directory path, '/', and an entry
  name that holds no '/'. The facts proved here are what the rename order relies
  on: a path inside one sibling never reaches into another sibling.
*/
module Paths {

  /** Python's `s.rfind(c)`: the index of the last `c` in `s`, or -1 when there is none. */
  function RFind(s: string, c: char): (r: int)
    ensures -1 <= r < |s|
    ensures r == -1 <==> c !in s
    ensures r >= 0 ==> s[r] == c && forall j :: r < j < |s| ==> s[j] != c
  {
    if s == [] then -1
    else if s[|s| - 1] == c then |s| - 1
    else RFind(s[..|s| - 1], c)
  }

  /** A directory entry name: not empty, and no '/' in it. */
  predicate Segment(name: string)
  {
    |name| > 0 && '/' !in name
  }

  /** `os.path.join(dir, name)` for a directory path without a trailing '/'. */
  function Join(dir: string, name: string): string
  {
    dir + "/" + name
  }

  /** `q` is the path `p` itself or a path inside directory `p`. */
  predicate Under(p: string, q: string)
  {
    q == p || (|p| < |q| && q[..|p|] == p && q[|p|] == '/')
  }

  /**
    `PurePath.with_name(name)` on a path that has a directory part: everything up to
    and including the last '/', then the new name.
  */
  function WithName(p: string, name: string): string
  {
    var i := RFind(p, '/');
    if i < 0 then name else p[..i + 1] + name
  }

  /** The directory part of a path: everything before the last '/', or "" when there is none. */
  function DirOf(p: string): string
  {
    var i := RFind(p, '/');
    if i < 0 then "" else p[..i]
  }

  lemma DirOfJoin(dir: string, n: string)
    requires '/' !in n
    ensures DirOf(Join(dir, n)) == dir
  {
    var p := Join(dir, n);
    assert p[|dir|] == '/';
    assert forall j :: |dir| < j < |p| ==> p[j] == n[j - |dir| - 1];
    assert RFind(p, '/') == |dir|;
  }

  /** Renaming `dir/n` to `m` gives `dir/m`: the entry stays in its directory. */
  lemma WithNameJoin(dir: string, n: string, m: string)
    requires '/' !in n
    ensures WithName(Join(dir, n), m) == Join(dir, m)
  {
    var p := Join(dir, n);
    var i := RFind(p, '/');
    assert p[|dir|] == '/';
    assert forall j :: |dir| < j < |p| ==> p[j] == n[j - |dir| - 1];
    assert i == |dir|;
    assert p[..i + 1] == dir + "/";
  }

  /** A joined path determines its directory and its name. */
  lemma JoinInjective(a: string, n: string, b: string, m: string)
    requires '/' !in n && '/' !in m
    requires Join(a, n) == Join(b, m)
    ensures a == b && n == m
  {
    var p := Join(a, n);
    var i := RFind(p, '/');
    assert p[|a|] == '/' && forall j :: |a| < j < |p| ==> p[j] == n[j - |a| - 1];
    assert p[|b|] == '/' && forall j :: |b| < j < |p| ==> p[j] == m[j - |b| - 1];
    assert i == |a| && i == |b|;
    assert a == p[..|a|] && b == p[..|b|];
    assert n == p[|a| + 1..] && m == p[|b| + 1..];
  }

  /** An entry lies strictly inside its directory. */
  lemma UnderJoin(dir: string, n: string)
    ensures Under(dir, Join(dir, n)) && Join(dir, n) != dir
  {
    assert Join(dir, n)[..|dir|] == dir;
  }

  lemma UnderTransitive(p: string, q: string, r: string)
    requires Under(p, q) && Under(q, r)
    ensures Under(p, r)
  {
    if q != p && r != q {
      assert r[..|q|][..|p|] == r[..|p|];
    }
  }

  /**
    Two names followed by either nothing or a '/'-led rest: if the results agree,
    the names agree, because each name ends where the first '/' is.
  */
  lemma FirstSegment(n: string, s: string, m: string, t: string)
    requires '/' !in n && '/' !in m
    requires s == [] || s[0] == '/'
    requires t == [] || t[0] == '/'
    requires n + s == m + t
    ensures n == m
  {
    var u := n + s;
    assert forall j :: 0 <= j < |n| ==> u[j] == n[j] && u[j] != '/';
    assert forall j :: 0 <= j < |m| ==> u[j] == m[j] && u[j] != '/';
    assert |n| < |u| ==> u[|n|] == '/';
    assert |m| < |u| ==> u[|m|] == '/';
    assert |n| == |m|;
    assert n == u[..|n|] == m;
  }

  /** A path `q` at or inside `p` is `p` followed by nothing or by a '/'-led rest. */
  lemma UnderSplit(p: string, q: string)
    requires Under(p, q)
    ensures q == p + q[|p|..] && (q[|p|..] == [] || q[|p|..][0] == '/')
  {
  }

  /** Dropping the directory and the '/' from a joined path leaves the name and whatever follows it. */
  lemma DropDir(dir: string, n: string, rest: string)
    ensures (Join(dir, n) + rest)[|dir| + 1..] == n + rest
  {
  }

  /**
    Paths inside two entries of one directory are related (one is, or lies inside, the
    other) only when the two entries are the same.
  */
  lemma SiblingsApart(dir: string, n: string, m: string, x: string, y: string)
    requires Segment(n) && Segment(m)
    requires Under(Join(dir, n), x) && Under(Join(dir, m), y)
    ensures Under(x, y) ==> n == m
  {
    if Under(x, y) {
      var pn, pm := Join(dir, n), Join(dir, m);
      UnderSplit(pn, x);
      UnderSplit(pm, y);
      UnderSplit(x, y);
      var sigma, tau, rho := x[|pn|..], y[|pm|..], y[|x|..];
      assert sigma + rho == [] || (sigma + rho)[0] == '/' by {
        if sigma != [] {
          assert (sigma + rho)[0] == sigma[0];
        }
      }
      assert y == pn + (sigma + rho) by {
        assert y == (pn + sigma) + rho;
      }
      DropDir(dir, m, tau);
      DropDir(dir, n, sigma + rho);
      FirstSegment(n, sigma + rho, m, tau);
    }
  }

  /** `q` is a path strictly inside directory `p`. */
  predicate Inside(p: string, q: string)
  {
    |p| < |q| && q[..|p|] == p && q[|p|] == '/'
  }

  lemma InsideJoin(dir: string, n: string)
    ensures Inside(dir, Join(dir, n))
  {
    assert Join(dir, n)[..|dir|] == dir;
  }

  /** Whatever is at or inside a path strictly inside `p` is strictly inside `p`. */
  lemma InsideAfter(p: string, q: string, r: string)
    requires Inside(p, q) && Under(q, r)
    ensures Inside(p, r)
  {
    if r != q {
      assert r[..|q|][..|p|] == r[..|p|];
      assert r[|p|] == r[..|q|][|p|];
    }
  }

  /** An entry of `dir` whose name holds no '/' never lies inside another entry of `dir`. */
  lemma NotInsideSibling(dir: string, n: string, m: string)
    requires '/' !in m
    ensures !Inside(Join(dir, n), Join(dir, m))
  {
    var p, q := Join(dir, n), Join(dir, m);
    if |p| < |q| {
      assert q[|p|] == m[|n|];
    }
  }

  /** Entries of one directory with different names have different paths. */
  lemma JoinNames(dir: string, n: string, m: string)
    ensures Join(dir, n) == Join(dir, m) ==> n == m
  {
    assert Join(dir, n)[|dir| + 1..] == n;
    assert Join(dir, m)[|dir| + 1..] == m;
  }
}

