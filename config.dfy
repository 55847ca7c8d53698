/** The install root taken from the command line and the two paths derived from it (index.js:22-24). */
module Config {
  import opened Common

  /** A path as its list of components: the root, then one name per directory level. */
  datatype Path = Path(segments: seq<string>)

  /** path.join(dir, name) for a plain name: one level below dir, ending in name. */
  function Child(dir: Path, name: string): (p: Path)
    ensures |p.segments| == |dir.segments| + 1 && p.segments[..|dir.segments|] == dir.segments
    ensures p.segments[|dir.segments|] == name
  {
    Path(dir.segments + [name])
  }

  /** p lies strictly below dir. */
  predicate Under(p: Path, dir: Path) {
    |dir.segments| < |p.segments| && p.segments[..|dir.segments|] == dir.segments
  }

  const RootFlag := "--root"
  const DefaultRoot := "/wisnuc"
  const TargetName := "wisnuc-bootstrap"
  const StagingName := "wisnuc-bootstrap-update-tmp"

  /** "argv[i - 1] is --root": the find callback, for which argv[-1] is undefined. */
  predicate FollowsFlag(argv: seq<string>, i: nat)
    requires i < |argv|
  {
    i > 0 && argv[i - 1] == RootFlag
  }

  /** Array.prototype.find from index i on: the first index whose predecessor is --root. */
  function FindRootValue(argv: seq<string>, i: nat): (r: Option<nat>)
    decreases |argv| - i
    ensures r.Some? ==> i <= r.value < |argv| && FollowsFlag(argv, r.value)
    ensures r.Some? ==> forall j | i <= j < r.value :: !FollowsFlag(argv, j)
    ensures r.None? ==> forall j | i <= j < |argv| :: !FollowsFlag(argv, j)
  {
    if i >= |argv| then None
    else if FollowsFlag(argv, i) then Some(i)
    else FindRootValue(argv, i + 1)
  }

  /** argv.find(...) || '/wisnuc': a missing or empty value falls back to the default. */
  function RootOf(argv: seq<string>): (root: string)
    ensures root != ""
  {
    match FindRootValue(argv, 0)
    case Some(i) => if argv[i] != "" then argv[i] else DefaultRoot
    case None => DefaultRoot
  }

  /** The first value after --root, when it is not empty, is the root. */
  lemma RootFromFlag(argv: seq<string>, i: nat)
    requires i < |argv| && FollowsFlag(argv, i) && argv[i] != ""
    requires forall j | 0 <= j < i :: !FollowsFlag(argv, j)
    ensures RootOf(argv) == argv[i]
  {
    var found := FindRootValue(argv, 0);
    assert found.Some? ==> !(found.value > i);
  }

  /** An empty first value after --root falls back to the default, later values notwithstanding. */
  lemma EmptyRootValueIgnored(argv: seq<string>, i: nat)
    requires i < |argv| && FollowsFlag(argv, i) && argv[i] == ""
    requires forall j | 0 <= j < i :: !FollowsFlag(argv, j)
    ensures RootOf(argv) == DefaultRoot
  {
    var found := FindRootValue(argv, 0);
    assert found.Some? ==> !(found.value > i);
  }

  /** Without --root followed by a value the root is /wisnuc. */
  lemma RootDefault(argv: seq<string>)
    requires forall j | 0 <= j < |argv| :: !FollowsFlag(argv, j)
    ensures RootOf(argv) == DefaultRoot
  {
  }

  function RootDir(root: string): Path {
    Path([root])
  }

  /** <root>/wisnuc-bootstrap, the live binary. */
  function TargetPath(root: string): (p: Path)
    ensures p.segments == [root, TargetName]
  {
    Child(RootDir(root), TargetName)
  }

  /** <root>/wisnuc-bootstrap-update-tmp, the staging directory. */
  function TmpDir(root: string): (p: Path)
    ensures p.segments == [root, StagingName]
  {
    Child(RootDir(root), StagingName)
  }

  /** path.join(tmpDir, name) for a temporary file: distinct names give distinct files. */
  function StagingFile(root: string, name: string): (p: Path)
    ensures p.segments == [root, StagingName, name]
  {
    Child(TmpDir(root), name)
  }

  /** Target and staging directory are distinct direct children of the root; staging files sit under the staging directory and are never the target. */
  lemma Layout(root: string, name: string)
    ensures Under(TargetPath(root), RootDir(root)) && |TargetPath(root).segments| == 2
    ensures Under(TmpDir(root), RootDir(root)) && |TmpDir(root).segments| == 2
    ensures TargetPath(root) != TmpDir(root)
    ensures !Under(TargetPath(root), TmpDir(root))
    ensures Under(StagingFile(root, name), TmpDir(root))
    ensures StagingFile(root, name) != TargetPath(root) && StagingFile(root, name) != TmpDir(root)
  {
    assert TargetPath(root).segments[1] != TmpDir(root).segments[1];
  }
}
