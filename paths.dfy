/** The two `os.path` operations the core uses on output paths, as
    `posixpath` defines them. */
module Paths {

  /** `os.path.join(a, b)` for two components: an absolute `b` replaces `a`;
      otherwise one `/` is inserted unless `a` is empty or already ends in
      one. */
  function PathJoin(a: string, b: string): (r: string)
    ensures b != [] && b[0] == '/' ==> r == b
    ensures (b == [] || b[0] != '/') ==> |a| + |b| <= |r| && r[..|a|] == a && r[|r| - |b|..] == b
  {
    if b != [] && b[0] == '/' then b
    else if a == [] || a[|a| - 1] == '/' then a + b
    else a + "/" + b
  }

  /** `os.path.basename(p)`: the text after the last `/`. */
  function BaseName(p: string): (r: string)
    ensures |r| <= |p| && r == p[|p| - |r|..]
    ensures '/' !in r
    ensures |r| < |p| ==> p[|p| - |r| - 1] == '/'
  {
    if p == [] || p[|p| - 1] == '/' then []
    else BaseName(p[..|p| - 1]) + [p[|p| - 1]]
  }

  /** The base name of a path that ends in `/` followed by a name without
      `/` is that name. */
  lemma {:induction false} BaseNameAfterSlash(dir: string, b: string)
    requires dir == [] || dir[|dir| - 1] == '/'
    requires '/' !in b
    ensures BaseName(dir + b) == b
  {
    if b == [] {
      assert dir + b == dir;
    } else {
      var init := b[..|b| - 1];
      assert (dir + b)[..|dir + b| - 1] == dir + init;
      assert b[|b| - 1] in b;
      assert BaseName(dir + b) == BaseName(dir + init) + [b[|b| - 1]];
      BaseNameAfterSlash(dir, init);
      assert init + [b[|b| - 1]] == b;
    }
  }

  /** Joining a directory with a file name that holds no `/` and taking the
      base name gives the file name back. */
  lemma BaseNameOfJoin(a: string, b: string)
    requires b != [] && '/' !in b
    ensures BaseName(PathJoin(a, b)) == b
  {
    if a == [] || a[|a| - 1] == '/' {
      BaseNameAfterSlash(a, b);
    } else {
      BaseNameAfterSlash(a + "/", b);
      assert a + "/" + b == (a + "/") + b;
    }
  }
}
