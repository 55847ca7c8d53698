/**
 * The update protocol of index.js as one function of the filesystem a run
 * starts from and of every answer the outside world gives during the run,
 * together with the properties every run has.
 */
module Protocol {
  import opened Common
  import opened Fingerprint
  import opened JsString
  import opened Checksum
  import opened Config
  import opened Sources
  import opened Policy

  /** A filesystem entry: its bytes, whether stat calls it a regular file, and whether it is executable. */
  datatype File = File(contents: Bytes, regular: bool, executable: bool)

  type FileSystem = map<Path, File>

  /**
   * What is fixed when the process starts: the root taken from argv,
   * process.arch, and the two library functions the model leaves closed,
   * SHA-256 as hex and Buffer's UTF-8 toString.
   */
  datatype Setup = Setup(root: string, arch: string, sha256: Bytes -> Digest, decode: Bytes -> string)

  /** What fs.stat and the read stream report while a file is hashed. */
  datatype HashEnv = HashEnv(statFails: bool, readFails: bool)

  /** hashFile's callback: (null, null), (null, digest) or (err). */
  datatype HashResult = Absent | Hashed(hex: string) | HashFailed(error: Error)

  /** How downloadFile ends: the whole body written, or an error, possibly after a partial write. */
  datatype Fetch = Fetched(body: Bytes) | FetchFailed(partial: Option<Bytes>)

  /** The world's answers to one retrieveHash call: the name UUID.v4() gave, the download, and whether fs.readFile fails. */
  datatype ChecksumEnv = ChecksumEnv(name: string, fetch: Fetch, readFails: bool)

  /** The world's answers to one update call. */
  datatype InstallEnv = InstallEnv(name: string, fetch: Fetch, rehash: HashEnv, chmodFails: bool, renameFails: bool)

  /** The world's answers to a whole run. */
  datatype Env = Env(local: HashEnv, mirror: ChecksumEnv, github: ChecksumEnv, install: InstallEnv)

  /** UUID.v4() gives each temporary file of a run its own name. */
  predicate FreshNames(env: Env) {
    && env.mirror.name != env.github.name
    && env.install.name != env.mirror.name
    && env.install.name != env.github.name
  }

  /** How a run ends; every one of them is a process exit. */
  datatype Outcome =
    | UpToDate          // 'remote hash and local hash matches'
    | Updated           // 'update succeeds'
    | LocalHashFailed   // 'failed to hash local file', the only exit with code 1
    | RemoteHashFailed  // 'failed to retrieve remote hash from github'
    | DownloadFailed    // 'failed to download remote file'
    | RehashFailed      // 'failed to hash downloaded file'
    | HashMismatch      // 'downloaded file hash mismatches'
    | ChmodFailed       // 'failed to set executable permission on downloaded file'
    | RenameFailed      // 'failed to overwrite target file'

  /** process.exit(1) after a local hash error, a bare process.exit() everywhere else. */
  function ExitCode(o: Outcome): (code: nat)
    ensures code == 1 <==> o == LocalHashFailed
    ensures code == 0 <==> o != LocalHashFailed
  {
    if o == LocalHashFailed then 1 else 0
  }

  /** What a download request fetches. */
  datatype Resource = ChecksumFile | BinaryFile

  /** The steps of a run that reach outside: a download request from one source, and a rename. */
  datatype Event =
    | Requested(resource: Resource, mirror: bool, url: string)
    | Renamed(src: Path, dst: Path)

  function ChecksumRequest(s: Setup, mirror: bool): Event {
    Requested(ChecksumFile, mirror, ChecksumUrl(mirror, s.arch))
  }

  function BinaryRequest(s: Setup, mirror: bool): Event {
    Requested(BinaryFile, mirror, BinaryUrl(mirror, s.arch))
  }

  datatype RunRecord = RunRecord(outcome: Outcome, fs: FileSystem, trace: seq<Event>)

  predicate StagingEmpty(fs: FileSystem, root: string) {
    forall p | p in fs :: !Under(p, TmpDir(root))
  }

  /** No staging file exists while staging is empty. */
  lemma StagingFileAbsent(fs: FileSystem, root: string, name: string)
    requires StagingEmpty(fs, root)
    ensures StagingFile(root, name) !in fs
    ensures StagingFile(root, name) != TargetPath(root)
  {
    Layout(root, name);
  }

  /** Proof helper: removing nothing leaves the filesystem as it is. */
  lemma RemoveNothing(fs: FileSystem)
    ensures fs - {} == fs
  {
  }

  /** Proof helper: writing a file that did not exist and removing it again restores the filesystem. */
  lemma WriteThenRemove(fs: FileSystem, p: Path, f: File)
    requires p !in fs
    ensures fs[p := f] - {p} == fs
  {
  }

  /** Proof helper: writing a file, changing it, and removing it again restores the filesystem. */
  lemma RewriteThenRemove(fs: FileSystem, p: Path, f: File, g: File)
    requires p !in fs
    ensures fs[p := f][p := g] - {p} == fs
  {
  }

  /** Proof helper: writing a file at p, changing it, and renaming it to q is the same as writing the changed file at q. */
  lemma RewriteThenRename(fs: FileSystem, p: Path, q: Path, f: File, g: File)
    requires p !in fs && p != q
    ensures (fs[p := f][p := g] - {p})[q := g] == fs[q := g]
  {
  }

  /** rimraf.sync(tmpDir) followed by mkdirp.sync(tmpDir) (index.js:148-149). */
  function ResetStaging(fs: FileSystem, root: string): (r: FileSystem)
    ensures StagingEmpty(r, root)
    ensures TmpDir(root) in r && !r[TmpDir(root)].regular
    ensures forall p | p in fs && p != TmpDir(root) && !Under(p, TmpDir(root)) :: p in r && r[p] == fs[p]
    ensures forall p | p in r :: p == TmpDir(root) || p in fs
  {
    var kept := map p | p in fs && p != TmpDir(root) && !Under(p, TmpDir(root)) :: fs[p];
    kept[TmpDir(root) := File([], false, false)]
  }

  /** The reset leaves every path outside staging as it was. */
  lemma ResetKeeps(fs: FileSystem, root: string, p: Path)
    requires p != TmpDir(root) && !Under(p, TmpDir(root))
    ensures (p in ResetStaging(fs, root)) == (p in fs)
    ensures p in fs ==> ResetStaging(fs, root)[p] == fs[p]
  {
  }

  /** What hashFile (index.js:29-51) reports for path p. */
  function HashOf(fs: FileSystem, p: Path, h: HashEnv, sha256: Bytes -> Digest): (r: HashResult)
    ensures r == Absent <==> !h.statFails && p !in fs
    ensures r == HashFailed(NotAFile) <==> !h.statFails && p in fs && !fs[p].regular
    ensures r.Hashed? <==> !h.statFails && p in fs && fs[p].regular && !h.readFails
    ensures r.Hashed? ==> r.hex == sha256(fs[p].contents) && IsDigest(r.hex)
  {
    if h.statFails then HashFailed(StatFailed)
    else if p !in fs then Absent
    else if !fs[p].regular then HashFailed(NotAFile)
    else if h.readFails then HashFailed(ReadFailed)
    else Hashed(sha256(fs[p].contents))
  }

  /** What retrieveHash (index.js:74-98) calls back with. */
  function ChecksumOutcome(s: Setup, c: ChecksumEnv): (r: Result<string>)
    ensures c.fetch.FetchFailed? ==> r == Err(DownloadError)
    ensures c.fetch.Fetched? && c.readFails ==> r == Err(ReadFailed)
    ensures r.Ok? ==> c.fetch.Fetched? && !c.readFails
  {
    match c.fetch
    case FetchFailed(_) => Err(DownloadError)
    case Fetched(body) => if c.readFails then Err(ReadFailed) else ParseChecksum(s.decode(body))
  }

  /** retrieveHash accepts a checksum exactly when the file downloaded, read back, and its trimmed text passes isSHA256; it then hands on that trimmed text. */
  lemma ChecksumAccepted(s: Setup, c: ChecksumEnv)
    ensures var r := ChecksumOutcome(s, c);
      && (r.Ok? <==> c.fetch.Fetched? && !c.readFails && IsSHA256(Trim(s.decode(c.fetch.body))))
      && (r.Ok? ==> r.value == Trim(s.decode(c.fetch.body)) && IsSHA256(r.value))
      && (c.fetch.Fetched? && !c.readFails && r.Err? ==> r.error == InvalidSha256)
  {
  }

  /**
   * The filesystem when retrieveHash calls back. A failed download has been
   * removed (index.js:85 waits for rimraf); on the read path the checksum
   * file is still there, because index.js:87 starts its removal without
   * waiting for it.
   */
  function AfterRetrieve(s: Setup, fs: FileSystem, c: ChecksumEnv): (r: FileSystem)
    ensures forall p | p != StagingFile(s.root, c.name) :: (p in r <==> p in fs) && (p in fs ==> r[p] == fs[p])
    ensures c.fetch.Fetched? ==> StagingFile(s.root, c.name) in r && r[StagingFile(s.root, c.name)].contents == c.fetch.body
    ensures c.fetch.FetchFailed? ==> r == fs
  {
    if c.fetch.Fetched? then fs[StagingFile(s.root, c.name) := File(c.fetch.body, true, false)] else fs
  }

  /** The removal retrieveHash leaves pending when it calls back. */
  function Leftover(s: Setup, c: ChecksumEnv): set<Path> {
    if c.fetch.Fetched? then {StagingFile(s.root, c.name)} else {}
  }

  /** Finishing the pending removal undoes what retrieveHash left behind. */
  lemma SettleRetrieve(s: Setup, fs: FileSystem, c: ChecksumEnv)
    requires StagingFile(s.root, c.name) !in fs
    ensures AfterRetrieve(s, fs, c) - Leftover(s, c) == fs
  {
  }

  /** retrieveHash writes nothing but its own staging file, which is never the target. */
  lemma RetrieveKeepsTarget(s: Setup, fs: FileSystem, c: ChecksumEnv)
    ensures var t := TargetPath(s.root);
      (t in AfterRetrieve(s, fs, c)) == (t in fs) && (t in fs ==> AfterRetrieve(s, fs, c)[t] == fs[t])
  {
    Layout(s.root, c.name);
  }

  /** How update (index.js:103-135) ends. */
  function InstallOutcome(s: Setup, expected: string, i: InstallEnv): (o: Outcome)
    ensures o != UpToDate && o != RemoteHashFailed && o != LocalHashFailed
    ensures o == DownloadFailed <==> i.fetch.FetchFailed?
    ensures o == HashMismatch <==>
      i.fetch.Fetched? && !i.rehash.statFails && !i.rehash.readFails && s.sha256(i.fetch.body) != expected
    ensures o == Updated <==>
      && i.fetch.Fetched? && !i.rehash.statFails && !i.rehash.readFails && s.sha256(i.fetch.body) == expected
      && !i.chmodFails && !i.renameFails
  {
    match i.fetch
    case FetchFailed(_) => DownloadFailed
    case Fetched(body) =>
      if i.rehash.statFails || i.rehash.readFails then RehashFailed
      else if s.sha256(body) != expected then HashMismatch
      else if i.chmodFails then ChmodFailed
      else if i.renameFails then RenameFailed
      else Updated
  }

  /** The filesystem after update: the executable download in place of the target, or as it was. */
  function InstalledFs(s: Setup, fs: FileSystem, o: Outcome, i: InstallEnv): (r: FileSystem)
    ensures forall p | p != TargetPath(s.root) :: (p in r <==> p in fs) && (p in fs ==> r[p] == fs[p])
    ensures o == Updated && i.fetch.Fetched? ==> TargetPath(s.root) in r && r[TargetPath(s.root)] == File(i.fetch.body, true, true)
    ensures o != Updated ==> r == fs
  {
    if o == Updated && i.fetch.Fetched? then fs[TargetPath(s.root) := File(i.fetch.body, true, true)]
    else fs
  }

  /** The steps update takes: one download request, and the rename when it gets that far. */
  function InstallTrace(s: Setup, mirror: bool, o: Outcome, i: InstallEnv): (t: seq<Event>)
    ensures 1 <= |t| <= 2 && t[0] == BinaryRequest(s, mirror)
    ensures |t| == 2 <==> o == Updated
    ensures o == Updated ==> t[1] == Renamed(StagingFile(s.root, i.name), TargetPath(s.root))
  {
    if o == Updated then [BinaryRequest(s, mirror), Renamed(StagingFile(s.root, i.name), TargetPath(s.root))]
    else [BinaryRequest(s, mirror)]
  }

  /** The checksum downloads of main: the mirror's, then GitHub's only when the mirror failed. */
  function ChecksumRequests(s: Setup, fromMirror: Result<string>): (r: seq<Event>)
    ensures 1 <= |r| <= 2 && r[0] == ChecksumRequest(s, true)
    ensures |r| == 2 <==> fromMirror.Err?
    ensures fromMirror.Err? ==> r[1] == ChecksumRequest(s, false)
  {
    if fromMirror.Err? then [ChecksumRequest(s, true), ChecksumRequest(s, false)] else [ChecksumRequest(s, true)]
  }

  /** The fingerprint a run goes on with, if any. */
  function Resolution(s: Setup, env: Env): Resolution {
    Resolve(ChecksumOutcome(s, env.mirror), ChecksumOutcome(s, env.github))
  }

  /** The local hash as tryUpdate compares it: null, or the digest. */
  function LocalValue(local: HashResult): Option<string> {
    if local.Hashed? then Some(local.hex) else None
  }

  /** What hashFile(targetPath) reports once staging has been reset. */
  function LocalHash(s: Setup, fs0: FileSystem, env: Env): HashResult {
    HashOf(ResetStaging(fs0, s.root), TargetPath(s.root), env.local, s.sha256)
  }

  /** A whole run of main (index.js:148-172). */
  function Execution(s: Setup, fs0: FileSystem, env: Env): (r: RunRecord)
    ensures r.outcome == LocalHashFailed <==> r.trace == []
    ensures r.trace != [] ==> r.trace[0] == ChecksumRequest(s, true)
  {
    var fs1 := ResetStaging(fs0, s.root);
    var local := HashOf(fs1, TargetPath(s.root), env.local, s.sha256);
    if local.HashFailed? then RunRecord(LocalHashFailed, fs1, [])
    else AfterLocalHash(s, fs1, LocalValue(local), env)
  }

  /** main once the local hash is known: resolve the fingerprint, then tryUpdate. */
  function AfterLocalHash(s: Setup, fs1: FileSystem, local: Option<string>, env: Env): (r: RunRecord)
    ensures r.outcome != LocalHashFailed
    ensures |r.trace| >= 1 && r.trace[0] == ChecksumRequest(s, true)
  {
    AfterChecksums(s, fs1, local, ChecksumOutcome(s, env.mirror), ChecksumOutcome(s, env.github),
                   AfterRetrieve(s, fs1, env.mirror), AfterRetrieve(s, fs1, env.github), env.install)
  }

  /**
   * The same, given what the mirror and GitHub checksum requests came to and
   * the filesystem each of them leaves when it calls back; a run that exits
   * right there keeps that filesystem.
   */
  function AfterChecksums(s: Setup, fs1: FileSystem, local: Option<string>,
                          fromMirror: Result<string>, fromGithub: Result<string>,
                          fsMirror: FileSystem, fsGithub: FileSystem, i: InstallEnv): (r: RunRecord)
    ensures r.outcome != LocalHashFailed
    ensures r.outcome == RemoteHashFailed <==> fromMirror.Err? && fromGithub.Err?
    ensures |r.trace| >= 1 && r.trace[0] == ChecksumRequest(s, true)
  {
    var checks := ChecksumRequests(s, fromMirror);
    match Resolve(fromMirror, fromGithub)
    case Unresolved => RunRecord(RemoteHashFailed, fsGithub, checks)
    case Resolved(fp, mirror) => TryUpdateRun(s, fs1, if mirror then fsMirror else fsGithub, checks, Decide(fp, local, mirror), i)
  }

  /**
   * tryUpdate (index.js:139-142) carried out: exit with the filesystem as it
   * stands, or update(mirror, remote), which starts from fs1 once the pending
   * removal has finished.
   */
  function TryUpdateRun(s: Setup, fs1: FileSystem, fsExit: FileSystem, checks: seq<Event>, d: Decision, i: InstallEnv): (r: RunRecord)
    ensures r.outcome == UpToDate <==> d.Noop?
    ensures d.Noop? ==> r.fs == fsExit && r.trace == checks
    ensures r.outcome != RemoteHashFailed && r.outcome != LocalHashFailed
    ensures r.outcome == Updated ==> d.Install? && i.fetch.Fetched? && s.sha256(i.fetch.body) == d.expected
  {
    match d
    case Noop => RunRecord(UpToDate, fsExit, checks)
    case Install(m, expected) =>
      var o := InstallOutcome(s, expected, i);
      RunRecord(o, InstalledFs(s, fs1, o, i), checks + InstallTrace(s, m, o, i))
  }

  /** The checksum source a run went on with, or asked last: the mirror when it answered, GitHub otherwise. */
  function LastAsked(s: Setup, env: Env): ChecksumEnv {
    if ChecksumOutcome(s, env.mirror).Ok? then env.mirror else env.github
  }

  /** The removals still pending when a run exits: the last checksum file, unless update ran after it. */
  function PendingAtExit(s: Setup, env: Env, o: Outcome): set<Path> {
    if o == UpToDate || o == RemoteHashFailed then Leftover(s, LastAsked(s, env)) else {}
  }

  /** Proof helper: regrouping a trace built in three parts. */
  lemma AppendAssoc(a: seq<Event>, b: seq<Event>, c: seq<Event>)
    ensures (a + b) + c == a + (b + c)
  {
  }

  /** The number of renames onto target in a trace. */
  function Replacements(trace: seq<Event>, target: Path): nat {
    if trace == [] then 0
    else (if trace[0].Renamed? && trace[0].dst == target then 1 else 0) + Replacements(trace[1..], target)
  }

  lemma {:induction false} ReplacementsAppend(a: seq<Event>, b: seq<Event>, target: Path)
    ensures Replacements(a + b, target) == Replacements(a, target) + Replacements(b, target)
  {
    if a != [] {
      assert (a + b)[1..] == a[1..] + b;
      ReplacementsAppend(a[1..], b, target);
    } else {
      assert a + b == b;
    }
  }

  /** A run whose local hash fails stops right after the reset. */
  lemma RunStopsLocally(s: Setup, fs0: FileSystem, env: Env)
    requires LocalHash(s, fs0, env).HashFailed?
    ensures Execution(s, fs0, env) == RunRecord(LocalHashFailed, ResetStaging(fs0, s.root), [])
  {
  }

  /** After a good local hash the run is decided by what the two checksum requests come to. */
  lemma ExecutionStages(s: Setup, fs0: FileSystem, env: Env)
    requires !LocalHash(s, fs0, env).HashFailed?
    ensures var fs1 := ResetStaging(fs0, s.root);
      Execution(s, fs0, env)
      == AfterChecksums(s, fs1, LocalValue(LocalHash(s, fs0, env)),
                        ChecksumOutcome(s, env.mirror), ChecksumOutcome(s, env.github),
                        AfterRetrieve(s, fs1, env.mirror), AfterRetrieve(s, fs1, env.github), env.install)
  {
  }

  /** A run that resolves no fingerprint stops after the checksum requests, with GitHub's checksum file left behind. */
  lemma RunUnresolved(s: Setup, fs0: FileSystem, env: Env)
    requires !LocalHash(s, fs0, env).HashFailed? && Resolution(s, env).Unresolved?
    ensures LastAsked(s, env) == env.github
    ensures Execution(s, fs0, env)
      == RunRecord(RemoteHashFailed, AfterRetrieve(s, ResetStaging(fs0, s.root), env.github),
                   ChecksumRequests(s, ChecksumOutcome(s, env.mirror)))
  {
  }

  /** A run that resolves a fingerprint goes on to tryUpdate after the checksum requests. */
  lemma RunResolved(s: Setup, fs0: FileSystem, env: Env)
    requires !LocalHash(s, fs0, env).HashFailed? && Resolution(s, env).Resolved?
    ensures LastAsked(s, env) == if Resolution(s, env).mirror then env.mirror else env.github
    ensures var res := Resolution(s, env);
      var fs1 := ResetStaging(fs0, s.root);
      Execution(s, fs0, env)
      == TryUpdateRun(s, fs1, AfterRetrieve(s, fs1, LastAsked(s, env)), ChecksumRequests(s, ChecksumOutcome(s, env.mirror)),
                      Decide(res.fingerprint, LocalValue(LocalHash(s, fs0, env)), res.mirror), env.install)
  {
  }

  /** tryUpdate ends Updated only by installing the download whose hash is the expected fingerprint. */
  lemma InstallGate(s: Setup, fs1: FileSystem, fsExit: FileSystem, checks: seq<Event>, d: Decision, i: InstallEnv)
    ensures var r := TryUpdateRun(s, fs1, fsExit, checks, d, i);
      r.outcome == Updated ==>
        && d.Install? && i.fetch.Fetched? && s.sha256(i.fetch.body) == d.expected
        && r.fs == fs1[TargetPath(s.root) := File(i.fetch.body, true, true)]
  {
  }

  /** The checksum requests download checksum files only. */
  lemma ChecksumRequestsOnly(s: Setup, fromMirror: Result<string>)
    ensures forall k | 0 <= k < |ChecksumRequests(s, fromMirror)| ::
      ChecksumRequests(s, fromMirror)[k].Requested? && ChecksumRequests(s, fromMirror)[k].resource == ChecksumFile
  {
  }

  lemma ChecksumRequestsRenameNothing(s: Setup, fromMirror: Result<string>, target: Path)
    ensures Replacements(ChecksumRequests(s, fromMirror), target) == 0
  {
    var checks := ChecksumRequests(s, fromMirror);
    assert Replacements(checks, target) == Replacements(checks[1..], target);
    if fromMirror.Err? {
      assert checks[1..][1..] == [];
    } else {
      assert checks[1..] == [];
    }
  }

  /** tryUpdate only appends to the checksum requests: a binary request, then at most a rename. */
  lemma TryUpdateTrace(s: Setup, fs1: FileSystem, fsExit: FileSystem, checks: seq<Event>, d: Decision, i: InstallEnv)
    ensures var r := TryUpdateRun(s, fs1, fsExit, checks, d, i);
      && |checks| <= |r.trace| && r.trace[..|checks|] == checks
      && (forall e | e in r.trace[|checks|..] :: e.Renamed? || e.resource == BinaryFile)
      && Replacements(r.trace, TargetPath(s.root)) == Replacements(checks, TargetPath(s.root)) + (if r.outcome == Updated then 1 else 0)
  {
    var t := TargetPath(s.root);
    var r := TryUpdateRun(s, fs1, fsExit, checks, d, i);
    if d.Install? {
      var tail := InstallTrace(s, d.mirror, r.outcome, i);
      assert r.trace == checks + tail;
      assert r.trace[|checks|..] == tail;
      ReplacementsAppend(checks, tail, t);
      InstallTraceShape(s, d.mirror, r.outcome, i);
    } else {
      assert r.trace[|checks|..] == [];
    }
  }

  /** update's own steps: the binary request, then the rename onto the target exactly when it ends Updated. */
  lemma InstallTraceShape(s: Setup, mirror: bool, o: Outcome, i: InstallEnv)
    ensures var tail := InstallTrace(s, mirror, o, i);
      && (forall e | e in tail :: e.Renamed? || e.resource == BinaryFile)
      && Replacements(tail, TargetPath(s.root)) == if o == Updated then 1 else 0
  {
    var t := TargetPath(s.root);
    var tail := InstallTrace(s, mirror, o, i);
    assert Replacements(tail, t) == Replacements(tail[1..], t);
    if o == Updated {
      assert tail[1..] == [Renamed(StagingFile(s.root, i.name), t)];
      assert tail[1..][1..] == [];
    } else {
      assert tail[1..] == [];
    }
  }

  /** The checksum requests only prefix the trace of tryUpdate. */
  lemma TryUpdateRunPrefix(s: Setup, fs1: FileSystem, fsExit: FileSystem, checks: seq<Event>, d: Decision, i: InstallEnv)
    ensures var r := TryUpdateRun(s, fs1, fsExit, [], d, i);
      TryUpdateRun(s, fs1, fsExit, checks, d, i) == RunRecord(r.outcome, r.fs, checks + r.trace)
  {
    if d.Install? {
      var o := InstallOutcome(s, d.expected, i);
      assert [] + InstallTrace(s, d.mirror, o, i) == InstallTrace(s, d.mirror, o, i);
    } else {
      assert checks + [] == checks;
    }
  }
  /** The trace of a run that resolved a fingerprint: the checksum requests, then only the binary request and at most one rename. */
  lemma ResolvedTrace(s: Setup, fs0: FileSystem, env: Env)
    requires !LocalHash(s, fs0, env).HashFailed? && Resolution(s, env).Resolved?
    ensures var r := Execution(s, fs0, env);
      var checks := ChecksumRequests(s, ChecksumOutcome(s, env.mirror));
      && |checks| <= |r.trace| && r.trace[..|checks|] == checks
      && (forall e | e in r.trace[|checks|..] :: e.Renamed? || e.resource == BinaryFile)
      && Replacements(r.trace, TargetPath(s.root)) == Replacements(checks, TargetPath(s.root)) + (if r.outcome == Updated then 1 else 0)
  {
    var res := Resolution(s, env);
    var fs1 := ResetStaging(fs0, s.root);
    var checks := ChecksumRequests(s, ChecksumOutcome(s, env.mirror));
    var d := Decide(res.fingerprint, LocalValue(LocalHash(s, fs0, env)), res.mirror);
    RunResolved(s, fs0, env);
    TryUpdateTrace(s, fs1, AfterRetrieve(s, fs1, LastAsked(s, env)), checks, d, env.install);
  }


  /** With the mirror's checksum in hand, the run is tryUpdate after one request. */
  lemma MirrorAnswered(s: Setup, fs1: FileSystem, local: Option<string>, fromMirror: Result<string>, fromGithub: Result<string>,
                       fsMirror: FileSystem, fsGithub: FileSystem, i: InstallEnv)
    requires fromMirror.Ok?
    ensures var r := TryUpdateRun(s, fs1, fsMirror, [], Decide(fromMirror.value, local, true), i);
      AfterChecksums(s, fs1, local, fromMirror, fromGithub, fsMirror, fsGithub, i)
      == RunRecord(r.outcome, r.fs, [ChecksumRequest(s, true)] + r.trace)
  {
    TryUpdateRunPrefix(s, fs1, fsMirror, [ChecksumRequest(s, true)], Decide(fromMirror.value, local, true), i);
  }

  /** The GitHub half of main's fallback (index.js:159-167): ask GitHub, then stop or tryUpdate. */
  function GithubRun(s: Setup, fs1: FileSystem, local: Option<string>, fromGithub: Result<string>,
                     fsGithub: FileSystem, i: InstallEnv): (r: RunRecord)
    ensures |r.trace| >= 1 && r.trace[0] == ChecksumRequest(s, false)
    ensures r.outcome == RemoteHashFailed <==> fromGithub.Err?
    ensures fromGithub.Err? ==> r.fs == fsGithub && r.trace == [ChecksumRequest(s, false)]
  {
    if fromGithub.Err? then RunRecord(RemoteHashFailed, fsGithub, [ChecksumRequest(s, false)])
    else
      var r := TryUpdateRun(s, fs1, fsGithub, [], Decide(fromGithub.value, local, false), i);
      RunRecord(r.outcome, r.fs, [ChecksumRequest(s, false)] + r.trace)
  }

  /** When the mirror's checksum fails, the run is the GitHub half after one request. */
  lemma MirrorUnanswered(s: Setup, fs1: FileSystem, local: Option<string>, fromMirror: Result<string>, fromGithub: Result<string>,
                         fsMirror: FileSystem, fsGithub: FileSystem, i: InstallEnv)
    requires fromMirror.Err?
    ensures var g := GithubRun(s, fs1, local, fromGithub, fsGithub, i);
      AfterChecksums(s, fs1, local, fromMirror, fromGithub, fsMirror, fsGithub, i)
      == RunRecord(g.outcome, g.fs, [ChecksumRequest(s, true)] + g.trace)
  {
    var checks := [ChecksumRequest(s, true), ChecksumRequest(s, false)];
    if fromGithub.Ok? {
      var d := Decide(fromGithub.value, local, false);
      TryUpdateRunPrefix(s, fs1, fsGithub, checks, d, i);
      var r := TryUpdateRun(s, fs1, fsGithub, [], d, i);
      assert checks + r.trace == [ChecksumRequest(s, true)] + ([ChecksumRequest(s, false)] + r.trace);
    }
  }

  /** A fingerprint main goes on with passed isSHA256 at the source it came from. */
  lemma ResolvedIsChecked(s: Setup, env: Env)
    ensures Resolution(s, env).Resolved? ==> IsSHA256(Resolution(s, env).fingerprint)
  {
  }

  /** The integrity gate: a text that is no well-formed digest never leads to a rename. */
  lemma MalformedNeverInstalls(s: Setup, expected: string, i: InstallEnv)
    requires !IsDigest(expected)
    ensures InstallOutcome(s, expected, i) != Updated
  {
  }

  /**
   * What a run leaves on disk: a run that exits without downloading the
   * binary keeps the last checksum file it fetched (its removal is only
   * pending); a failed update leaves the filesystem as the reset left it;
   * a successful one changes only the target, to the executable download.
   */
  lemma RunFilesystem(s: Setup, fs0: FileSystem, env: Env)
    ensures var r := Execution(s, fs0, env);
      var t := TargetPath(s.root);
      var fs1 := ResetStaging(fs0, s.root);
      && (r.outcome == UpToDate || r.outcome == RemoteHashFailed ==> r.fs == AfterRetrieve(s, fs1, LastAsked(s, env)))
      && (r.outcome != UpToDate && r.outcome != RemoteHashFailed && r.outcome != Updated ==> r.fs == fs1)
      && (r.outcome == Updated ==> env.install.fetch.Fetched? && r.fs == fs1[t := File(env.install.fetch.body, true, true)])
  {
    var local := LocalHash(s, fs0, env);
    var res := Resolution(s, env);
    if local.HashFailed? {
      RunStopsLocally(s, fs0, env);
    } else if res.Unresolved? {
      RunUnresolved(s, fs0, env);
    } else {
      RunResolved(s, fs0, env);
    }
  }

  /** At exit staging holds exactly the checksum files whose removal is still pending, and it is empty exactly when none is. */
  lemma StagingAtExit(s: Setup, fs0: FileSystem, env: Env)
    ensures var r := Execution(s, fs0, env);
      var pending := PendingAtExit(s, env, r.outcome);
      && StagingEmpty(r.fs - pending, s.root)
      && (forall p | p in pending :: p in r.fs && Under(p, TmpDir(s.root)))
      && (StagingEmpty(r.fs, s.root) <==> pending == {})
  {
    var r := Execution(s, fs0, env);
    var fs1 := ResetStaging(fs0, s.root);
    var pending := PendingAtExit(s, env, r.outcome);
    var c := LastAsked(s, env);
    RunFilesystem(s, fs0, env);
    if pending == {} {
      RemoveNothing(r.fs);
      if r.outcome == Updated {
        Layout(s.root, "");
      }
    } else {
      var p := StagingFile(s.root, c.name);
      StagingFileAbsent(fs1, s.root, c.name);
      Layout(s.root, c.name);
      assert pending == Leftover(s, c) == {p};
      assert r.fs == fs1[p := File(c.fetch.body, true, false)];
      SettleRetrieve(s, fs1, c);
    }
  }

  /** The target is replaced only by an executable file whose hash is the fingerprint the run resolved, and which passed isSHA256. */
  lemma IntegrityGate(s: Setup, fs0: FileSystem, env: Env)
    ensures var r := Execution(s, fs0, env);
      var t := TargetPath(s.root);
      var res := Resolution(s, env);
      r.outcome == Updated ==>
        && res.Resolved? && IsSHA256(res.fingerprint) && IsDigest(res.fingerprint)
        && t in r.fs && r.fs[t].regular && r.fs[t].executable
        && s.sha256(r.fs[t].contents) == res.fingerprint
  {
    var local := LocalHash(s, fs0, env);
    var res := Resolution(s, env);
    if local.HashFailed? {
      RunStopsLocally(s, fs0, env);
    } else if res.Unresolved? {
      RunUnresolved(s, fs0, env);
    } else {
      RunResolved(s, fs0, env);
      ResolvedIsChecked(s, env);
      var fs1 := ResetStaging(fs0, s.root);
      InstallGate(s, fs1, AfterRetrieve(s, fs1, LastAsked(s, env)), ChecksumRequests(s, ChecksumOutcome(s, env.mirror)),
                  Decide(res.fingerprint, LocalValue(local), res.mirror), env.install);
    }
  }

  /** The target changes exactly when the run ends Updated; an update never rewrites identical contents. */
  lemma TargetChangesOnlyOnUpdate(s: Setup, fs0: FileSystem, env: Env)
    ensures var r := Execution(s, fs0, env);
      var t := TargetPath(s.root);
      r.outcome == Updated <==> ((t in fs0) != (t in r.fs) || (t in fs0 && r.fs[t] != fs0[t]))
  {
    var r := Execution(s, fs0, env);
    var t := TargetPath(s.root);
    var fs1 := ResetStaging(fs0, s.root);
    ResetKeepsTarget(fs0, s.root);
    RunFilesystem(s, fs0, env);
    if r.outcome == Updated {
      if t in fs0 {
        UpdateChangesTarget(s, fs0, env);
      }
    } else if r.outcome == UpToDate || r.outcome == RemoteHashFailed {
      RetrieveKeepsTarget(s, fs1, LastAsked(s, env));
    }
  }

  /** An update never puts back the contents the target already had. */
  lemma UpdateChangesTarget(s: Setup, fs0: FileSystem, env: Env)
    requires Execution(s, fs0, env).outcome == Updated
    requires TargetPath(s.root) in fs0
    ensures TargetPath(s.root) in Execution(s, fs0, env).fs
    ensures Execution(s, fs0, env).fs[TargetPath(s.root)].contents != fs0[TargetPath(s.root)].contents
  {
    var t := TargetPath(s.root);
    ResetKeepsTarget(fs0, s.root);
    IntegrityGate(s, fs0, env);
    var local := LocalHash(s, fs0, env);
    var res := Resolution(s, env);
    if local.HashFailed? {
      RunStopsLocally(s, fs0, env);
    } else if res.Unresolved? {
      RunUnresolved(s, fs0, env);
    } else {
      RunResolved(s, fs0, env);
      assert Decide(res.fingerprint, LocalValue(local), res.mirror).Install?;
      assert local == Hashed(s.sha256(fs0[t].contents));
    }
  }

  /** The target is replaced at most once per run, and once exactly when the run ends Updated. */
  lemma ReplacedAtMostOnce(s: Setup, fs0: FileSystem, env: Env)
    ensures var r := Execution(s, fs0, env);
      var t := TargetPath(s.root);
      Replacements(r.trace, t) <= 1 && (Replacements(r.trace, t) == 1 <==> r.outcome == Updated)
  {
    var t := TargetPath(s.root);
    var checks := ChecksumRequests(s, ChecksumOutcome(s, env.mirror));
    ChecksumRequestsRenameNothing(s, ChecksumOutcome(s, env.mirror), t);
    var local := LocalHash(s, fs0, env);
    var res := Resolution(s, env);
    if local.HashFailed? {
      RunStopsLocally(s, fs0, env);
    } else if res.Unresolved? {
      RunUnresolved(s, fs0, env);
    } else {
      ResolvedTrace(s, fs0, env);
    }
  }

  /** A local hash error ends the run with exit code 1 before any download, and only a local hash error does. */
  lemma LocalFailureStopsRun(s: Setup, fs0: FileSystem, env: Env)
    ensures var r := Execution(s, fs0, env);
      && (r.outcome == LocalHashFailed <==> LocalHash(s, fs0, env).HashFailed?)
      && (r.outcome == LocalHashFailed ==> r.trace == [] && ExitCode(r.outcome) == 1)
  {
    var local := LocalHash(s, fs0, env);
    var res := Resolution(s, env);
    if local.HashFailed? {
      RunStopsLocally(s, fs0, env);
    } else if res.Unresolved? {
      RunUnresolved(s, fs0, env);
    } else {
      RunResolved(s, fs0, env);
    }
  }

  /** After a good local hash the mirror's checksum is the first download. */
  lemma MirrorFirst(s: Setup, fs0: FileSystem, env: Env)
    requires !LocalHash(s, fs0, env).HashFailed?
    ensures var r := Execution(s, fs0, env);
      |r.trace| >= 1 && r.trace[0] == ChecksumRequest(s, true)
  {
    var res := Resolution(s, env);
    if res.Unresolved? {
      RunUnresolved(s, fs0, env);
    } else {
      ResolvedTrace(s, fs0, env);
      var checks := ChecksumRequests(s, ChecksumOutcome(s, env.mirror));
      assert Execution(s, fs0, env).trace[..|checks|] == checks;
    }
  }

  /** In the checksum phase GitHub's checksum is requested second when the mirror failed, and never when the mirror answered. */
  lemma ChecksumPhaseOrder(s: Setup, fs1: FileSystem, local: Option<string>, fromMirror: Result<string>, fromGithub: Result<string>,
                           fsMirror: FileSystem, fsGithub: FileSystem, i: InstallEnv)
    ensures var r := AfterChecksums(s, fs1, local, fromMirror, fromGithub, fsMirror, fsGithub, i);
      && (fromMirror.Err? ==> |r.trace| >= 2 && r.trace[1] == ChecksumRequest(s, false))
      && (fromMirror.Ok? ==> ChecksumRequest(s, false) !in r.trace)
  {
    if fromMirror.Ok? {
      var d := Decide(fromMirror.value, local, true);
      var tu := TryUpdateRun(s, fs1, fsMirror, [], d, i);
      MirrorAnswered(s, fs1, local, fromMirror, fromGithub, fsMirror, fsGithub, i);
      TryUpdateTrace(s, fs1, fsMirror, [], d, i);
      assert tu.trace[0..] == tu.trace;
      assert ChecksumRequest(s, false) !in tu.trace;
    } else {
      MirrorUnanswered(s, fs1, local, fromMirror, fromGithub, fsMirror, fsGithub, i);
    }
  }

  /** GitHub's checksum is downloaded second, exactly when the mirror failed. */
  lemma GithubOnlyAfterMirrorFailure(s: Setup, fs0: FileSystem, env: Env)
    requires !LocalHash(s, fs0, env).HashFailed?
    ensures var r := Execution(s, fs0, env);
      && (ChecksumOutcome(s, env.mirror).Err? ==> |r.trace| >= 2 && r.trace[1] == ChecksumRequest(s, false))
      && (ChecksumOutcome(s, env.mirror).Ok? ==> ChecksumRequest(s, false) !in r.trace)
  {
    var fs1 := ResetStaging(fs0, s.root);
    ExecutionStages(s, fs0, env);
    ChecksumPhaseOrder(s, fs1, LocalValue(LocalHash(s, fs0, env)), ChecksumOutcome(s, env.mirror), ChecksumOutcome(s, env.github),
                       AfterRetrieve(s, fs1, env.mirror), AfterRetrieve(s, fs1, env.github), env.install);
  }


  /** When neither source gives a valid checksum the run ends there: update is never reached, and GitHub's checksum file, if it was fetched, is left in staging. */
  lemma BothSourcesFailed(s: Setup, fs0: FileSystem, env: Env)
    requires !LocalHash(s, fs0, env).HashFailed?
    requires ChecksumOutcome(s, env.mirror).Err? && ChecksumOutcome(s, env.github).Err?
    ensures var r := Execution(s, fs0, env);
      && r.outcome == RemoteHashFailed
      && r.trace == [ChecksumRequest(s, true), ChecksumRequest(s, false)]
      && r.fs == AfterRetrieve(s, ResetStaging(fs0, s.root), env.github)
  {
    RunUnresolved(s, fs0, env);
  }

  /** In the trace of a run that reaches update, the binary request comes right after the checksum request of the same source. */
  lemma BinaryFollowsItsChecksum(s: Setup, fromMirror: Result<string>, o: Outcome, inst: InstallEnv, i: nat)
    requires var t := ChecksumRequests(s, fromMirror) + InstallTrace(s, fromMirror.Ok?, o, inst);
      i < |t| && t[i].Requested? && t[i].resource == BinaryFile
    ensures var t := ChecksumRequests(s, fromMirror) + InstallTrace(s, fromMirror.Ok?, o, inst);
      var mirror := fromMirror.Ok?;
      0 < i && t[i - 1] == ChecksumRequest(s, mirror) && t[i] == BinaryRequest(s, mirror)
  {
    var mirror := fromMirror.Ok?;
    var checks := ChecksumRequests(s, fromMirror);
    var tail := InstallTrace(s, mirror, o, inst);
    ChecksumRequestsOnly(s, fromMirror);
    BinaryRequestPosition(checks, tail, i);
    assert (checks + tail)[i] == tail[0];
    assert (checks + tail)[i - 1] == checks[|checks| - 1];
  }

  /** After checksum requests only, a binary request can only be the first step of what follows when that has renames only after its first step. */
  lemma BinaryRequestPosition(checks: seq<Event>, tail: seq<Event>, i: nat)
    requires forall k | 0 <= k < |checks| :: checks[k].Requested? && checks[k].resource == ChecksumFile
    requires forall k | 0 < k < |tail| :: tail[k].Renamed?
    requires i < |checks + tail| && (checks + tail)[i].Requested? && (checks + tail)[i].resource == BinaryFile
    ensures i == |checks|
  {
    forall k | 0 <= k < |checks| ensures (checks + tail)[k] == checks[k] { }
    forall k | |checks| <= k < |checks + tail| ensures (checks + tail)[k] == tail[k - |checks|] { }
  }

  /** The binary is downloaded only right after its checksum was downloaded from the same source, and the fingerprint in use is that checksum. */
  lemma SameProvenance(s: Setup, fs0: FileSystem, env: Env, i: nat)
    requires i < |Execution(s, fs0, env).trace|
    requires Execution(s, fs0, env).trace[i].Requested? && Execution(s, fs0, env).trace[i].resource == BinaryFile
    ensures var r := Execution(s, fs0, env);
      var mirror := r.trace[i].mirror;
      var fromSource := ChecksumOutcome(s, if mirror then env.mirror else env.github);
      && 0 < i && r.trace[i - 1] == ChecksumRequest(s, mirror) && r.trace[i] == BinaryRequest(s, mirror)
      && SourceOf(r.trace[i].url) == SourceOf(r.trace[i - 1].url) == Some(mirror)
      && fromSource.Ok? && Resolution(s, env) == Resolved(fromSource.value, mirror)
  {
    var r := Execution(s, fs0, env);
    var local := LocalHash(s, fs0, env);
    var res := Resolution(s, env);
    var fromMirror := ChecksumOutcome(s, env.mirror);
    if local.HashFailed? {
      RunStopsLocally(s, fs0, env);
    } else if res.Unresolved? {
      RunUnresolved(s, fs0, env);
      ChecksumRequestsOnly(s, fromMirror);
    } else {
      RunResolved(s, fs0, env);
      var d := Decide(res.fingerprint, LocalValue(local), res.mirror);
      if d.Install? {
        var o := InstallOutcome(s, d.expected, env.install);
        assert r.trace == ChecksumRequests(s, fromMirror) + InstallTrace(s, fromMirror.Ok?, o, env.install);
        BinaryFollowsItsChecksum(s, fromMirror, o, env.install, i);
        UrlSource(fromMirror.Ok?, s.arch);
      } else {
        ChecksumRequestsOnly(s, fromMirror);
      }
    }
  }

  /** The run ends UpToDate exactly when the local hash equals the resolved fingerprint. */
  lemma UpToDateWhenCurrent(s: Setup, fs0: FileSystem, env: Env)
    ensures var local := LocalHash(s, fs0, env);
      var res := Resolution(s, env);
      Execution(s, fs0, env).outcome == UpToDate <==> res.Resolved? && local == Hashed(res.fingerprint)
  {
    var local := LocalHash(s, fs0, env);
    var res := Resolution(s, env);
    if local.HashFailed? {
      RunStopsLocally(s, fs0, env);
    } else if res.Unresolved? {
      RunUnresolved(s, fs0, env);
    } else {
      RunResolved(s, fs0, env);
    }
  }

  /** An UpToDate run downloads no binary: only the checksum requests are made, and the disk is the reset one plus the checksum file whose removal is pending. */
  lemma NoDownloadWhenCurrent(s: Setup, fs0: FileSystem, env: Env)
    requires Execution(s, fs0, env).outcome == UpToDate
    ensures var r := Execution(s, fs0, env);
      && r.fs == AfterRetrieve(s, ResetStaging(fs0, s.root), LastAsked(s, env))
      && r.trace == ChecksumRequests(s, ChecksumOutcome(s, env.mirror))
      && forall k | 0 <= k < |r.trace| :: r.trace[k].Requested? && r.trace[k].resource == ChecksumFile
  {
    UpToDateWhenCurrent(s, fs0, env);
    RunResolved(s, fs0, env);
    var res := Resolution(s, env);
    assert Decide(res.fingerprint, LocalValue(LocalHash(s, fs0, env)), res.mirror) == Noop;
    ChecksumRequestsOnly(s, ChecksumOutcome(s, env.mirror));
  }

  /** The checksum file of an UpToDate run outlives the process: it is still in staging at exit. */
  lemma ChecksumFileOutlivesRun(s: Setup, fs0: FileSystem, env: Env)
    requires Execution(s, fs0, env).outcome == UpToDate
    ensures var r := Execution(s, fs0, env);
      var c := LastAsked(s, env);
      var p := StagingFile(s.root, c.name);
      && c.fetch.Fetched? && p in r.fs && Under(p, TmpDir(s.root))
      && r.fs[p] == File(c.fetch.body, true, false)
      && !StagingEmpty(r.fs, s.root)
  {
    var c := LastAsked(s, env);
    UpToDateWhenCurrent(s, fs0, env);
    RunResolved(s, fs0, env);
    NoDownloadWhenCurrent(s, fs0, env);
    assert ChecksumOutcome(s, c).Ok?;
    Layout(s.root, c.name);
  }

  /** The run main would make if index.js:87 waited for its rimraf: every checksum file is gone before retrieveHash calls back. */
  function AwaitedExecution(s: Setup, fs0: FileSystem, env: Env): RunRecord {
    var fs1 := ResetStaging(fs0, s.root);
    var local := HashOf(fs1, TargetPath(s.root), env.local, s.sha256);
    if local.HashFailed? then RunRecord(LocalHashFailed, fs1, [])
    else AfterChecksums(s, fs1, LocalValue(local), ChecksumOutcome(s, env.mirror), ChecksumOutcome(s, env.github), fs1, fs1, env.install)
  }

  /** The filesystems the checksum requests leave matter only to a run that exits right after them. */
  lemma ExitFilesystemOnly(s: Setup, fs1: FileSystem, local: Option<string>, fromMirror: Result<string>, fromGithub: Result<string>,
                           fsMirror: FileSystem, fsGithub: FileSystem, awaitedMirror: FileSystem, awaitedGithub: FileSystem, i: InstallEnv)
    ensures var r := AfterChecksums(s, fs1, local, fromMirror, fromGithub, fsMirror, fsGithub, i);
      var a := AfterChecksums(s, fs1, local, fromMirror, fromGithub, awaitedMirror, awaitedGithub, i);
      && a.outcome == r.outcome && a.trace == r.trace
      && (r.outcome == UpToDate || r.outcome == RemoteHashFailed ==>
            r.fs == (if fromMirror.Ok? then fsMirror else fsGithub) && a.fs == (if fromMirror.Ok? then awaitedMirror else awaitedGithub))
      && (r.outcome != UpToDate && r.outcome != RemoteHashFailed ==> a.fs == r.fs)
  {
  }

  /** Waiting for that removal leaves staging empty after every run, and changes nothing else: same outcome, same requests, the same disk without the leftover file. */
  lemma AwaitedRunCleansStaging(s: Setup, fs0: FileSystem, env: Env)
    ensures var a := AwaitedExecution(s, fs0, env);
      var r := Execution(s, fs0, env);
      && StagingEmpty(a.fs, s.root)
      && a.outcome == r.outcome && a.trace == r.trace
      && a.fs == r.fs - PendingAtExit(s, env, r.outcome)
  {
    var fs1 := ResetStaging(fs0, s.root);
    var r := Execution(s, fs0, env);
    var a := AwaitedExecution(s, fs0, env);
    var pending := PendingAtExit(s, env, r.outcome);
    StagingAtExit(s, fs0, env);
    if LocalHash(s, fs0, env).HashFailed? {
      RunStopsLocally(s, fs0, env);
      RemoveNothing(r.fs);
    } else {
      var c := LastAsked(s, env);
      ExecutionStages(s, fs0, env);
      ExitFilesystemOnly(s, fs1, LocalValue(LocalHash(s, fs0, env)), ChecksumOutcome(s, env.mirror), ChecksumOutcome(s, env.github),
                         AfterRetrieve(s, fs1, env.mirror), AfterRetrieve(s, fs1, env.github), fs1, fs1, env.install);
      if r.outcome == UpToDate || r.outcome == RemoteHashFailed {
        assert r.fs == AfterRetrieve(s, fs1, c) && a.fs == fs1;
        StagingFileAbsent(fs1, s.root, c.name);
        SettleRetrieve(s, fs1, c);
      } else {
        RemoveNothing(r.fs);
      }
    }
  }


  /** A run whose local binary is absent goes on to update whenever a fingerprint is resolved. */
  lemma AbsentLocalUpdates(s: Setup, fs0: FileSystem, env: Env)
    requires !env.local.statFails && TargetPath(s.root) !in fs0
    requires Resolution(s, env).Resolved?
    ensures var r := Execution(s, fs0, env);
      var res := Resolution(s, env);
      && r.outcome == InstallOutcome(s, res.fingerprint, env.install)
      && BinaryRequest(s, res.mirror) in r.trace
  {
    LocalHashIgnoresStaging(s, fs0, env);
    RunResolved(s, fs0, env);
    var res := Resolution(s, env);
    var checks := ChecksumRequests(s, ChecksumOutcome(s, env.mirror));
    var tail := InstallTrace(s, res.mirror, InstallOutcome(s, res.fingerprint, env.install), env.install);
    assert Decide(res.fingerprint, LocalValue(LocalHash(s, fs0, env)), res.mirror) == Install(res.mirror, res.fingerprint);
    assert Execution(s, fs0, env).trace == checks + tail;
    assert (checks + tail)[|checks|] == tail[0];
  }

  /** The reset leaves the target as it was. */
  lemma ResetKeepsTarget(fs: FileSystem, root: string)
    ensures (TargetPath(root) in ResetStaging(fs, root)) == (TargetPath(root) in fs)
    ensures TargetPath(root) in fs ==> ResetStaging(fs, root)[TargetPath(root)] == fs[TargetPath(root)]
  {
    Layout(root, "");
    ResetKeeps(fs, root, TargetPath(root));
  }

  /** Resetting staging does not change what hashing the target reports. */
  lemma LocalHashIgnoresStaging(s: Setup, fs0: FileSystem, env: Env)
    ensures LocalHash(s, fs0, env) == HashOf(fs0, TargetPath(s.root), env.local, s.sha256)
  {
    ResetKeepsTarget(fs0, s.root);
  }

  /** A checksum file holding exactly a digest yields that digest. */
  lemma DigestFileParses(s: Setup, c: ChecksumEnv, fp: string)
    requires c.fetch.Fetched? && !c.readFails
    requires s.decode(c.fetch.body) == fp && IsDigest(fp)
    ensures ChecksumOutcome(s, c) == Ok(fp)
  {
    assert [] + fp + [] == fp;
    PaddedDigestParses([], fp, []);
  }

  /** A mirror checksum equal to the local hash ends the run UpToDate after that one request, with the mirror's checksum file still on disk. */
  lemma UpToDateRun(s: Setup, fs1: FileSystem, fp: string, fromGithub: Result<string>,
                    fsMirror: FileSystem, fsGithub: FileSystem, i: InstallEnv)
    ensures AfterChecksums(s, fs1, Some(fp), Ok(fp), fromGithub, fsMirror, fsGithub, i)
      == RunRecord(UpToDate, fsMirror, [ChecksumRequest(s, true)])
  {
    MirrorAnswered(s, fs1, Some(fp), Ok(fp), fromGithub, fsMirror, fsGithub, i);
    assert [ChecksumRequest(s, true)] + [] == [ChecksumRequest(s, true)];
  }

  /** A mirror checksum other than the local hash leads to update from the mirror right after that one request. */
  lemma MirrorInstallRun(s: Setup, fs1: FileSystem, local: Option<string>, fp: string, fromGithub: Result<string>,
                         fsMirror: FileSystem, fsGithub: FileSystem, i: InstallEnv)
    requires local != Some(fp)
    ensures var o := InstallOutcome(s, fp, i);
      AfterChecksums(s, fs1, local, Ok(fp), fromGithub, fsMirror, fsGithub, i)
      == RunRecord(o, InstalledFs(s, fs1, o, i), [ChecksumRequest(s, true)] + InstallTrace(s, true, o, i))
  {
    MirrorAnswered(s, fs1, local, Ok(fp), fromGithub, fsMirror, fsGithub, i);
    var o := InstallOutcome(s, fp, i);
    assert [] + InstallTrace(s, true, o, i) == InstallTrace(s, true, o, i);
  }

  /** A run whose mirror answers fp goes on as tryUpdate of fp from the mirror, after that one request, keeping the mirror's checksum file for an exit. */
  lemma MirrorAnsweredRun(s: Setup, fs0: FileSystem, env: Env, fp: string)
    requires !LocalHash(s, fs0, env).HashFailed? && ChecksumOutcome(s, env.mirror) == Ok(fp)
    ensures var fs1 := ResetStaging(fs0, s.root);
      Execution(s, fs0, env)
      == TryUpdateRun(s, fs1, AfterRetrieve(s, fs1, env.mirror), [ChecksumRequest(s, true)],
                      Decide(fp, LocalValue(LocalHash(s, fs0, env)), true), env.install)
  {
    RunResolved(s, fs0, env);
  }

  /** No local binary, and the mirror's fingerprint matches a download that installs: the run ends Updated from the mirror. */
  lemma FirstInstallRun(s: Setup, fs0: FileSystem, env: Env, fp: string)
    requires LocalHash(s, fs0, env) == Absent && ChecksumOutcome(s, env.mirror) == Ok(fp)
    requires InstallOutcome(s, fp, env.install) == Updated
    ensures Execution(s, fs0, env)
      == RunRecord(Updated, ResetStaging(fs0, s.root)[TargetPath(s.root) := File(env.install.fetch.body, true, true)],
                   [ChecksumRequest(s, true), BinaryRequest(s, true), Renamed(StagingFile(s.root, env.install.name), TargetPath(s.root))])
  {
    var fs1 := ResetStaging(fs0, s.root);
    var t := TargetPath(s.root);
    var tail := InstallTrace(s, true, Updated, env.install);
    var x := TryUpdateRun(s, fs1, AfterRetrieve(s, fs1, env.mirror), [ChecksumRequest(s, true)], Install(true, fp), env.install);
    MirrorAnsweredRun(s, fs0, env, fp);
    assert x.outcome == Updated;
    assert x.fs == fs1[t := File(env.install.fetch.body, true, true)];
    assert x.trace == [ChecksumRequest(s, true)] + tail;
    assert tail == [BinaryRequest(s, true), Renamed(StagingFile(s.root, env.install.name), t)];
  }

  /** First install: no local file, the mirror's checksum and binary agree, so the download becomes an executable target. */
  lemma ScenarioFirstInstall(s: Setup, fs0: FileSystem, env: Env, fp: string)
    requires !env.local.statFails && TargetPath(s.root) !in fs0
    requires env.mirror.fetch.Fetched? && !env.mirror.readFails
    requires s.decode(env.mirror.fetch.body) == fp && IsDigest(fp)
    requires env.install.fetch.Fetched? && s.sha256(env.install.fetch.body) == fp
    requires !env.install.rehash.statFails && !env.install.rehash.readFails
    requires !env.install.chmodFails && !env.install.renameFails
    ensures var r := Execution(s, fs0, env);
      && r.outcome == Updated && ExitCode(r.outcome) == 0
      && TargetPath(s.root) in r.fs && r.fs[TargetPath(s.root)] == File(env.install.fetch.body, true, true)
      && r.trace == [ChecksumRequest(s, true), BinaryRequest(s, true),
                     Renamed(StagingFile(s.root, env.install.name), TargetPath(s.root))]
  {
    assert LocalHash(s, fs0, env) == Absent by {
      LocalHashIgnoresStaging(s, fs0, env);
    }
    assert ChecksumOutcome(s, env.mirror) == Ok(fp) by {
      DigestFileParses(s, env.mirror, fp);
    }
    assert InstallOutcome(s, fp, env.install) == Updated;
    FirstInstallRun(s, fs0, env, fp);
  }

  /** The local hash equals the mirror's fingerprint: the run ends UpToDate after that one request, keeping the mirror's checksum file. */
  lemma CurrentRun(s: Setup, fs0: FileSystem, env: Env, fp: string)
    requires LocalHash(s, fs0, env) == Hashed(fp) && ChecksumOutcome(s, env.mirror) == Ok(fp)
    ensures Execution(s, fs0, env)
      == RunRecord(UpToDate, AfterRetrieve(s, ResetStaging(fs0, s.root), env.mirror), [ChecksumRequest(s, true)])
  {
    MirrorAnsweredRun(s, fs0, env, fp);
  }

  /** Local binary current: the mirror reports its hash, so only the checksum is downloaded, and that file is still in staging at exit. */
  lemma ScenarioUpToDate(s: Setup, fs0: FileSystem, env: Env, fp: string)
    requires var t := TargetPath(s.root);
      !env.local.statFails && !env.local.readFails && t in fs0 && fs0[t].regular
      && s.sha256(fs0[t].contents) == fp
    requires env.mirror.fetch.Fetched? && !env.mirror.readFails
    requires s.decode(env.mirror.fetch.body) == fp && IsDigest(fp)
    ensures var r := Execution(s, fs0, env);
      && r.outcome == UpToDate
      && r.trace == [ChecksumRequest(s, true)]
      && r.fs == ResetStaging(fs0, s.root)[StagingFile(s.root, env.mirror.name) := File(env.mirror.fetch.body, true, false)]
  {
    assert LocalHash(s, fs0, env) == Hashed(fp) by {
      LocalHashIgnoresStaging(s, fs0, env);
    }
    assert ChecksumOutcome(s, env.mirror) == Ok(fp) by {
      DigestFileParses(s, env.mirror, fp);
    }
    CurrentRun(s, fs0, env, fp);
  }

  /** The trace of an update from GitHub starts with both checksum requests and GitHub's binary request. */
  lemma GithubInstallTrace(s: Setup, fromMirror: Result<string>, o: Outcome, inst: InstallEnv)
    requires fromMirror.Err?
    ensures var t := ChecksumRequests(s, fromMirror) + InstallTrace(s, false, o, inst);
      |t| >= 3 && t[..3] == [ChecksumRequest(s, true), ChecksumRequest(s, false), BinaryRequest(s, false)]
  {
    var checks := ChecksumRequests(s, fromMirror);
    var tail := InstallTrace(s, false, o, inst);
    assert (checks + tail)[..3] == checks + [tail[0]];
  }

  /** With the mirror down and GitHub answering a fingerprint other than the local hash, the run goes on to update from GitHub. */
  lemma MirrorDownExecution(s: Setup, fs0: FileSystem, env: Env, fp: string)
    requires !LocalHash(s, fs0, env).HashFailed? && LocalHash(s, fs0, env) != Hashed(fp)
    requires ChecksumOutcome(s, env.mirror).Err? && ChecksumOutcome(s, env.github) == Ok(fp)
    ensures var r := Execution(s, fs0, env);
      && r.outcome == InstallOutcome(s, fp, env.install)
      && |r.trace| >= 3
      && r.trace[..3] == [ChecksumRequest(s, true), ChecksumRequest(s, false), BinaryRequest(s, false)]
  {
    var fs1 := ResetStaging(fs0, s.root);
    var fromMirror := ChecksumOutcome(s, env.mirror);
    assert Resolution(s, env) == Resolved(fp, false);
    RunResolved(s, fs0, env);
    assert Execution(s, fs0, env)
      == TryUpdateRun(s, fs1, AfterRetrieve(s, fs1, env.github), ChecksumRequests(s, fromMirror), Install(false, fp), env.install);
    GithubInstallTrace(s, fromMirror, InstallOutcome(s, fp, env.install), env.install);
  }

  /** Mirror down: GitHub's checksum differs from the local hash, so the binary is downloaded from GitHub. */
  lemma ScenarioMirrorDown(s: Setup, fs0: FileSystem, env: Env, fp: string)
    requires !LocalHash(s, fs0, env).HashFailed? && LocalHash(s, fs0, env) != Hashed(fp)
    requires env.mirror.fetch.FetchFailed?
    requires env.github.fetch.Fetched? && !env.github.readFails
    requires s.decode(env.github.fetch.body) == fp && IsDigest(fp)
    ensures var r := Execution(s, fs0, env);
      && r.outcome == InstallOutcome(s, fp, env.install)
      && |r.trace| >= 3
      && r.trace[..3] == [ChecksumRequest(s, true), ChecksumRequest(s, false), BinaryRequest(s, false)]
  {
    assert ChecksumOutcome(s, env.github) == Ok(fp) by {
      DigestFileParses(s, env.github, fp);
    }
    MirrorDownExecution(s, fs0, env, fp);
  }

  /** Corrupt download: the binary's hash is not the fingerprint, so the target and staging end as the reset left them. */
  lemma ScenarioHashMismatch(s: Setup, fs0: FileSystem, env: Env, fp: string)
    requires !LocalHash(s, fs0, env).HashFailed? && LocalHash(s, fs0, env) != Hashed(fp)
    requires env.mirror.fetch.Fetched? && !env.mirror.readFails
    requires s.decode(env.mirror.fetch.body) == fp && IsDigest(fp)
    requires env.install.fetch.Fetched? && s.sha256(env.install.fetch.body) != fp
    requires !env.install.rehash.statFails && !env.install.rehash.readFails
    ensures var r := Execution(s, fs0, env);
      && r.outcome == HashMismatch
      && r.fs == ResetStaging(fs0, s.root)
      && StagingEmpty(r.fs, s.root)
      && (TargetPath(s.root) in r.fs <==> TargetPath(s.root) in fs0)
      && (TargetPath(s.root) in fs0 ==> r.fs[TargetPath(s.root)] == fs0[TargetPath(s.root)])
  {
    var local := LocalHash(s, fs0, env);
    assert ChecksumOutcome(s, env.mirror) == Ok(fp) by {
      DigestFileParses(s, env.mirror, fp);
    }
    assert InstallOutcome(s, fp, env.install) == HashMismatch;
    ExecutionStages(s, fs0, env);
    var fs1 := ResetStaging(fs0, s.root);
    MirrorInstallRun(s, fs1, LocalValue(local), fp, ChecksumOutcome(s, env.github),
                     AfterRetrieve(s, fs1, env.mirror), AfterRetrieve(s, fs1, env.github), env.install);
    ResetKeepsTarget(fs0, s.root);
  }
}
