/**
 * The agent as the object index.js amounts to: the filesystem it works on,
 * the removals it has started without waiting for them, the trace of what it
 * asks of the outside world, and one method for each function of index.js
 * that touches the filesystem. Every method is proved against the functions
 * of module Protocol.
 *
 * A removal that is only started (rimraf with an empty callback) is modelled
 * as finishing when the next download starts: a run that exits before that
 * leaves the file on disk.
 */
module Agent {
  import opened Common
  import opened Fingerprint
  import opened JsString
  import opened Config
  import opened Sources
  import opened Policy
  import opened Protocol

  /** The size of the chunks a read stream delivers: Node's default highWaterMark. */
  const ReadChunkSize := 65536

  class Updater {
    const setup: Setup
    var fs: FileSystem
    var pending: set<Path>  // removals started but not waited for
    ghost var trace: seq<Event>

    /** The module-level constants of index.js: root from argv, and the paths derived from it. */
    constructor (argv: seq<string>, arch: string, sha256: Bytes -> Digest, decode: Bytes -> string, disk: FileSystem)
      ensures setup.root == RootOf(argv) && setup.arch == arch
      ensures setup.sha256 == sha256 && setup.decode == decode
      ensures fs == disk && pending == {} && trace == []
    {
      setup := Setup(RootOf(argv), arch, sha256, decode);
      fs := disk;
      pending := {};
      trace := [];
    }

    /** rimraf on a temporary file, waited for. */
    method RemoveFile(p: Path)
      modifies this
      ensures fs == old(fs) - {p} && pending == old(pending) && trace == old(trace)
    {
      fs := fs - {p};
    }

    /** rimraf on a temporary file with an empty callback: the removal is started, and the file stays until it finishes. */
    method StartRemoval(p: Path)
      modifies this
      ensures fs == old(fs) && pending == old(pending) + {p} && trace == old(trace)
    {
      pending := pending + {p};
    }

    /** The removals started earlier finish. */
    method Settle()
      modifies this
      ensures fs == old(fs) - old(pending) && pending == {} && trace == old(trace)
    {
      fs := fs - pending;
      pending := {};
    }

    /** rimraf.sync(tmpDir) then mkdirp.sync(tmpDir). */
    method PrepareStaging()
      modifies this
      ensures fs == ResetStaging(old(fs), setup.root) && pending == old(pending) && trace == old(trace)
    {
      var dir := TmpDir(setup.root);
      fs := map p | p in fs && p != dir && !Under(p, dir) :: fs[p];
      fs := fs[dir := File([], false, false)];
    }

    /** hashFile: stat, then feed every chunk of the read stream to the hash. */
    method HashFile(path: Path, h: HashEnv) returns (r: HashResult)
      ensures r == HashOf(fs, path, h, setup.sha256)
      ensures r == Absent <==> !h.statFails && path !in fs
      ensures r == HashFailed(NotAFile) <==> !h.statFails && path in fs && !fs[path].regular
      ensures r.Hashed? <==> !h.statFails && path in fs && fs[path].regular && !h.readFails
      ensures r.Hashed? ==> r.hex == setup.sha256(fs[path].contents)
    {
      if h.statFails {
        return HashFailed(StatFailed);
      }
      if path !in fs {
        return Absent;
      }
      if !fs[path].regular {
        return HashFailed(NotAFile);
      }
      var data := fs[path].contents;
      var fed: Bytes := [];  // everything given to hash.update so far
      var offset := 0;
      while offset < |data|
        invariant offset <= |data|
        invariant fed == data[..offset]
      {
        var end := if offset + ReadChunkSize < |data| then offset + ReadChunkSize else |data|;
        fed := fed + data[offset..end];
        offset := end;
      }
      if h.readFails {
        return HashFailed(ReadFailed);
      }
      assert fed == data;
      r := Hashed(setup.sha256(fed));
    }

    /**
     * retrieveHash: download the checksum into staging, read it, start its
     * removal, check it. A failed download is removed before the callback; a
     * downloaded file is still there when the callback runs.
     */
    method RetrieveHash(mirror: bool, c: ChecksumEnv) returns (r: Result<string>)
      requires StagingFile(setup.root, c.name) !in fs
      modifies this
      ensures r == ChecksumOutcome(setup, c)
      ensures fs == AfterRetrieve(setup, old(fs) - old(pending), c)
      ensures pending == Leftover(setup, c)
      ensures trace == old(trace) + [ChecksumRequest(setup, mirror)]
    {
      var remoteUrl := ChecksumUrl(mirror, setup.arch);
      var tmpFile := StagingFile(setup.root, c.name);
      Settle();
      trace := trace + [Requested(ChecksumFile, mirror, remoteUrl)];
      match c.fetch {
        case FetchFailed(partial) =>
          if partial.Some? {
            WriteThenRemove(fs, tmpFile, File(partial.value, true, false));
            fs := fs[tmpFile := File(partial.value, true, false)];
          }
          RemoveFile(tmpFile);
          return Err(DownloadError);
        case Fetched(body) =>
          WriteThenRemove(fs, tmpFile, File(body, true, false));
          fs := fs[tmpFile := File(body, true, false)];
          var data := fs[tmpFile].contents;
          StartRemoval(tmpFile);
          if c.readFails {
            return Err(ReadFailed);
          }
          var text := Trim(setup.decode(data));
          if !IsSHA256(text) {
            return Err(InvalidSha256);
          }
          return Ok(text);
      }
    }

    /** update: download the binary into staging, then check and install it. */
    method Update(mirror: bool, expectedHash: string, i: InstallEnv) returns (o: Outcome)
      requires StagingFile(setup.root, i.name) !in fs
      modifies this
      ensures o == InstallOutcome(setup, expectedHash, i)
      ensures fs == InstalledFs(setup, old(fs) - old(pending), o, i)
      ensures pending == {}
      ensures trace == old(trace) + InstallTrace(setup, mirror, o, i)
    {
      var remoteUrl := BinaryUrl(mirror, setup.arch);
      var tmpPath := StagingFile(setup.root, i.name);
      Settle();
      trace := trace + [Requested(BinaryFile, mirror, remoteUrl)];
      match i.fetch {
        case FetchFailed(partial) =>
          if partial.Some? {
            WriteThenRemove(fs, tmpPath, File(partial.value, true, false));
            fs := fs[tmpPath := File(partial.value, true, false)];
          }
          RemoveFile(tmpPath);
          return DownloadFailed;
        case Fetched(body) =>
          o := VerifyAndInstall(expectedHash, i);
          if o == Updated {
            AppendAssoc(old(trace), [Requested(BinaryFile, mirror, remoteUrl)], [Renamed(tmpPath, TargetPath(setup.root))]);
          }
      }
    }

    /** The finish callback of update's download: the binary lands in staging, is hashed and compared, made executable and renamed onto the target; any failure removes it. */
    method VerifyAndInstall(expectedHash: string, i: InstallEnv) returns (o: Outcome)
      requires StagingFile(setup.root, i.name) !in fs && i.fetch.Fetched?
      modifies this
      ensures o == InstallOutcome(setup, expectedHash, i)
      ensures fs == InstalledFs(setup, old(fs), o, i)
      ensures pending == old(pending)
      ensures trace == old(trace) + if o == Updated then [Renamed(StagingFile(setup.root, i.name), TargetPath(setup.root))] else []
    {
      var body := i.fetch.body;
      var tmpPath := StagingFile(setup.root, i.name);
      var targetPath := TargetPath(setup.root);
      Layout(setup.root, i.name);
      ghost var fs0 := fs;
      WriteThenRemove(fs, tmpPath, File(body, true, false));
      fs := fs[tmpPath := File(body, true, false)];
      var actualHash := HashFile(tmpPath, i.rehash);
      if actualHash.HashFailed? {
        RemoveFile(tmpPath);
        return RehashFailed;
      }
      if actualHash != Hashed(expectedHash) {
        RemoveFile(tmpPath);
        return HashMismatch;
      }
      if i.chmodFails {
        RemoveFile(tmpPath);
        return ChmodFailed;
      }
      fs := fs[tmpPath := fs[tmpPath].(executable := true)];
      if i.renameFails {
        RewriteThenRemove(fs0, tmpPath, File(body, true, false), File(body, true, true));
        RemoveFile(tmpPath);
        return RenameFailed;
      }
      RewriteThenRename(fs0, tmpPath, targetPath, File(body, true, false), File(body, true, true));
      var staged := fs[tmpPath];
      fs := (fs - {tmpPath})[targetPath := staged];
      trace := trace + [Renamed(tmpPath, targetPath)];
      return Updated;
    }

    /** tryUpdate: exit when the hashes match, leaving the pending removals pending; update otherwise. */
    method TryUpdate(remote: string, local: Option<string>, mirror: bool, i: InstallEnv) returns (o: Outcome)
      requires StagingFile(setup.root, i.name) !in fs
      modifies this
      ensures var r := TryUpdateRun(setup, old(fs) - old(pending), old(fs), [], Decide(remote, local, mirror), i);
        o == r.outcome && fs == r.fs && trace == old(trace) + r.trace
      ensures pending == if o == UpToDate then old(pending) else {}
    {
      if local == Some(remote) {
        return UpToDate;
      }
      o := Update(mirror, remote, i);
    }

    /** The callback main hands to hashFile(targetPath) once the local hash is known: ask the mirror, fall back to GitHub on failure, then tryUpdate. */
    method ResolveAndUpdate(local: Option<string>, env: Env) returns (o: Outcome)
      requires StagingEmpty(fs, setup.root) && pending == {} && FreshNames(env)
      modifies this
      ensures var r := AfterLocalHash(setup, old(fs), local, env);
        o == r.outcome && fs == r.fs && trace == old(trace) + r.trace
      ensures pending == PendingAtExit(setup, env, o)
    {
      ghost var fs1 := fs;
      StagingFileAbsent(fs1, setup.root, env.mirror.name);
      StagingFileAbsent(fs1, setup.root, env.github.name);
      StagingFileAbsent(fs1, setup.root, env.install.name);
      RemoveNothing(fs1);
      ghost var fromGithub := ChecksumOutcome(setup, env.github);
      ghost var fsMirror, fsGithub := AfterRetrieve(setup, fs1, env.mirror), AfterRetrieve(setup, fs1, env.github);
      var fromMirror := RetrieveHash(true, env.mirror);
      SettleRetrieve(setup, fs1, env.mirror);
      if fromMirror.Err? {
        MirrorUnanswered(setup, fs1, local, fromMirror, fromGithub, fsMirror, fsGithub, env.install);
        o := GithubFallback(local, env);
        AppendAssoc(old(trace), [ChecksumRequest(setup, true)], GithubRun(setup, fs1, local, fromGithub, fsGithub, env.install).trace);
      } else {
        MirrorAnswered(setup, fs1, local, fromMirror, fromGithub, fsMirror, fsGithub, env.install);
        o := TryUpdate(fromMirror.value, local, true, env.install);
        AppendAssoc(old(trace), [ChecksumRequest(setup, true)], TryUpdateRun(setup, fs1, fsMirror, [], Decide(fromMirror.value, local, true), env.install).trace);
      }
    }

    /** The mirror failed: ask GitHub, and give up when that fails too, leaving GitHub's checksum file behind. */
    method GithubFallback(local: Option<string>, env: Env) returns (o: Outcome)
      requires StagingFile(setup.root, env.github.name) !in fs && StagingFile(setup.root, env.install.name) !in fs
      requires env.install.name != env.github.name
      modifies this
      ensures var fs1 := old(fs) - old(pending);
        var r := GithubRun(setup, fs1, local, ChecksumOutcome(setup, env.github), AfterRetrieve(setup, fs1, env.github), env.install);
        o == r.outcome && fs == r.fs && trace == old(trace) + r.trace
      ensures pending == if o == UpToDate || o == RemoteHashFailed then Leftover(setup, env.github) else {}
    {
      ghost var fs1 := fs - pending;
      var fromGithub := RetrieveHash(false, env.github);
      SettleRetrieve(setup, fs1, env.github);
      if fromGithub.Err? {
        return RemoteHashFailed;
      }
      ghost var before := trace;
      o := TryUpdate(fromGithub.value, local, false, env.install);
      AppendAssoc(old(trace), [ChecksumRequest(setup, false)], trace[|before|..]);
    }

    /** main: reset staging, hash the target, exit with code 1 on a hash error, otherwise go on to the fingerprint. */
    method Run(env: Env) returns (o: Outcome)
      requires pending == {} && FreshNames(env)
      modifies this
      ensures o == Execution(setup, old(fs), env).outcome
      ensures fs == Execution(setup, old(fs), env).fs
      ensures trace == old(trace) + Execution(setup, old(fs), env).trace
      ensures pending == PendingAtExit(setup, env, o)
    {
      PrepareStaging();
      var localHash := HashFile(TargetPath(setup.root), env.local);
      if localHash.HashFailed? {
        assert trace == old(trace) + [];
        return LocalHashFailed;
      }
      var local := if localHash.Hashed? then Some(localHash.hex) else None;
      assert Execution(setup, old(fs), env) == AfterLocalHash(setup, fs, local, env);
      o := ResolveAndUpdate(local, env);
    }
  }
}
