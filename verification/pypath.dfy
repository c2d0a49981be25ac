/** POSIX path handling: `os.path.join` and `os.path.dirname`, which dockpatrol
    applies to manifest paths, and `os.path.basename`, which it never calls
    but which the other modules use to state what a path names. */
module PyPath {

  predicate HasNoSlash(s: string) {
    forall k :: 0 <= k < |s| ==> s[k] != '/'
  }

  predicate AllSlashes(s: string) {
    forall k :: 0 <= k < |s| ==> s[k] == '/'
  }

  /** `os.path.join(a, b)`: an absolute `b` replaces `a`; otherwise the result
      is `a` followed by `b`, with one `/` between them exactly when `a` is
      non-empty and does not already end with one. */
  function Join(a: string, b: string): string
  {
    if |b| > 0 && b[0] == '/' then b
    else if a == [] || a[|a| - 1] == '/' then a + b
    else a + "/" + b
  }

  lemma JoinPutsOneSeparator(a: string, b: string)
    ensures var r := Join(a, b);
      && (b != [] && b[0] == '/' ==> r == b)
      && (b == [] || b[0] != '/' ==>
          && |a| + |b| <= |r| <= |a| + |b| + 1
          && r[..|a|] == a && r[|r| - |b|..] == b
          && (|r| == |a| + |b| + 1 <==> a != [] && a[|a| - 1] != '/')
          && (|r| == |a| + |b| + 1 ==> r[|a|] == '/'))
  {
  }

  /** `p.rfind('/') + 1`: the length of the directory part of `p`. */
  function HeadLength(p: string): (n: nat)
    ensures n <= |p|
    ensures n > 0 ==> p[n - 1] == '/'
    ensures forall k :: n <= k < |p| ==> p[k] != '/'
  {
    if p == [] then 0
    else if p[|p| - 1] == '/' then |p|
    else HeadLength(p[..|p| - 1])
  }

  /** `s.rstrip('/')`. */
  function RStripSlashes(s: string): (r: string)
    ensures |r| <= |s| && r == s[..|r|]
    ensures forall k :: |r| <= k < |s| ==> s[k] == '/'
    ensures r != [] ==> r[|r| - 1] != '/'
  {
    if s != [] && s[|s| - 1] == '/' then RStripSlashes(s[..|s| - 1]) else s
  }

  /** `os.path.dirname(p)`: the part of `p` before its base name, with its
      trailing slashes removed unless it consists of slashes only. The result
      is a prefix of `p` followed in `p` only by slashes up to the base name;
      it is empty exactly when `p` has no slash, and it ends with a slash
      only when it is all slashes. */
  function Dirname(p: string): string
  {
    var head := p[..HeadLength(p)];
    if head != [] && !AllSlashes(head) then RStripSlashes(head) else head
  }

  lemma DirnameIsDirectoryPart(p: string)
    ensures var r, h := Dirname(p), |p| - |Basename(p)|;
      && |r| <= h && r == p[..|r|]
      && (forall k :: |r| <= k < h ==> p[k] == '/')
      && (r == [] <==> h == 0)
      && (AllSlashes(r) ==> |r| == h)
      && (r != [] && !AllSlashes(r) ==> r[|r| - 1] != '/')
  {
  }

  /** `os.path.basename(p)`: everything after the last slash, that is, the
      longest suffix of `p` without a slash. Only statements about the model
      use it: it reads back the file name a join appended. */
  function Basename(p: string): string
  {
    p[HeadLength(p)..]
  }

  lemma BasenameIsLastComponent(p: string)
    ensures var r := Basename(p);
      && HasNoSlash(r)
      && |r| <= |p| && r == p[|p| - |r|..]
      && (|r| < |p| ==> p[|p| - |r| - 1] == '/')
  {
  }

  lemma HeadLengthAfterSlash(s: string, t: string)
    requires s != [] && s[|s| - 1] == '/' && HasNoSlash(t)
    ensures HeadLength(s + t) == |s|
  {
    var p := s + t;
    var n := HeadLength(p);
    assert p[|s| - 1] == '/';
  }

  /** Joining a directory with a plain file name and taking the base name
      gives the file name back. */
  lemma BasenameOfJoin(root: string, name: string)
    requires name != [] && HasNoSlash(name)
    ensures Basename(Join(root, name)) == name
  {
    if root == [] {
    } else if root[|root| - 1] == '/' {
      HeadLengthAfterSlash(root, name);
    } else {
      HeadLengthAfterSlash(root + "/", name);
      assert root + "/" + name == (root + "/") + name;
    }
  }

  /** The directory of a file joined onto `root` is `root` itself, with any
      trailing slashes dropped unless `root` is nothing but slashes. */
  lemma DirnameOfJoin(root: string, name: string)
    requires name != [] && HasNoSlash(name)
    ensures Dirname(Join(root, name)) == if AllSlashes(root) then root else RStripSlashes(root)
  {
    if root == [] {
    } else if root[|root| - 1] == '/' {
      HeadLengthAfterSlash(root, name);
      assert (root + name)[..|root|] == root;
    } else {
      var dir := root + "/";
      HeadLengthAfterSlash(dir, name);
      assert root + "/" + name == dir + name;
      assert (dir + name)[..|dir|] == dir;
      assert !AllSlashes(dir) by {
        assert dir[|root| - 1] != '/';
      }
      assert dir[..|dir| - 1] == root;
      assert RStripSlashes(dir) == RStripSlashes(root);
      assert !AllSlashes(root) by {
        assert root[|root| - 1] != '/';
      }
    }
  }
}
