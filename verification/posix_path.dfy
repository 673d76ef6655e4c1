/** `os.path.basename` and `os.path.dirname` as CPython's `posixpath`
    defines them: both split the path after its last `/`. */
module PosixPath {

  /** `p.rfind('/') + 1`: where the last path component starts. */
  function ComponentStart(p: string): (i: nat)
    ensures i <= |p|
    ensures i > 0 ==> p[i - 1] == '/'
    ensures '/' !in p[i..]
  {
    if p == [] then 0
    else if p[|p| - 1] == '/' then |p|
    else
      var i := ComponentStart(p[..|p| - 1]);
      assert p[i..] == p[..|p| - 1][i..] + [p[|p| - 1]];
      i
  }

  /** `s.rstrip('/')`. */
  function RStripSlashes(s: string): (r: string)
    decreases |s|
  {
    if s != [] && s[|s| - 1] == '/' then RStripSlashes(s[..|s| - 1]) else s
  }

  predicate AllSlashes(s: string)
  {
    forall k :: 0 <= k < |s| ==> s[k] == '/'
  }

  /** `os.path.basename(p)`. */
  function Basename(p: string): string
  {
    p[ComponentStart(p)..]
  }

  /** `os.path.dirname(p)`: the text before the last component, with
      trailing slashes removed unless it consists of slashes only. */
  function Dirname(p: string): string
  {
    var head := p[..ComponentStart(p)];
    if head != [] && !AllSlashes(head) then RStripSlashes(head) else head
  }

  /** The base name holds no `/` and is what the path ends with; the part
      before it is empty or ends with `/`. */
  lemma BasenameIsLastComponent(p: string)
    ensures '/' !in Basename(p)
    ensures p == p[..|p| - |Basename(p)|] + Basename(p)
    ensures |Basename(p)| < |p| ==> p[|p| - |Basename(p)| - 1] == '/'
  {
  }

  /** After a `/`, a name without `/` is the path's last component. */
  lemma BasenameOfJoin(dir: string, name: string)
    requires '/' !in name
    ensures ComponentStart(dir + "/" + name) == |dir| + 1
    ensures Basename(dir + "/" + name) == name
  {
    var p := dir + "/" + name;
    assert p[|dir|] == '/';
    assert ComponentStart(p) == |dir| + 1;
  }

  /** A path built from a directory that does not end in `/`, a `/`, and a
      file name without `/` has that directory as its dirname. */
  lemma DirnameOfJoin(dir: string, name: string)
    requires dir != [] && dir[|dir| - 1] != '/'
    requires '/' !in name
    ensures Dirname(dir + "/" + name) == dir
  {
    var p := dir + "/" + name;
    BasenameOfJoin(dir, name);
    var head := p[..|dir| + 1];
    assert head == dir + "/";
    assert !AllSlashes(head) by { assert head[|dir| - 1] != '/'; }
    assert head[..|head| - 1] == dir;
    assert RStripSlashes(dir) == dir;
    assert RStripSlashes(head) == dir;
  }
}
