# wisnuc-bootstrap self-update agent, modelled in Dafny

`index.js` of wisnuc-bootstrap-update is a one-shot agent that keeps the
`wisnuc-bootstrap` binary under an install root current. A run:

1. resets the staging directory `<root>/wisnuc-bootstrap-update-tmp`;
2. hashes the installed binary `<root>/wisnuc-bootstrap` with SHA-256;
3. downloads the published checksum from the mirror, and from GitHub only
   when the mirror fails;
4. stops when the remote fingerprint equals the local hash;
5. otherwise downloads the binary from the source that gave the checksum,
   re-hashes it, compares the hash with the fingerprint, makes it
   executable and renames it onto the target.

Every failure of step 5 removes the staged binary, waits for the removal,
and exits. The checksum file of step 3 is handled differently: a failed
download is removed before the run goes on, but after a successful download
index.js:87 only starts the removal and does not wait for it. When the next
step is an exit (the hashes match, or GitHub's checksum is unusable too) the
file is still in staging when the process ends.

The project has nine modules:

- **Common**: bytes, `Option`, `Result` and the error kinds that callbacks hand on.
- **Fingerprint**: the `isSHA256` regular expression and the shape of a real hex digest.
- **JsString**: `String.prototype.trim` as ECMAScript defines it.
- **Checksum**: turning the checksum file's text into a fingerprint.
- **Config**: the install root taken from `argv`, and the target and staging paths.
- **Sources**: the URL prefixes and the filenames chosen per architecture.
- **Policy**: the `tryUpdate` decision, and the mirror-then-GitHub resolution.
- **Protocol**: a whole run as a pure function `Execution` of the starting filesystem and of every answer the outside world gives. It also holds the properties every run has.
- **Agent**: class `Updater`, the imperative form of `index.js`.

`Updater` holds the filesystem as a `map` from paths to file records (contents, regular-or-not, executable), the set of removals it has started without waiting for them, and a ghost trace of the download requests and renames. It has one method per function of `index.js` that touches the filesystem. Each method is proved against the matching function of Protocol, so the properties proved there hold for the methods.

The answers of the outside world are parameters of a run (`Env`): stat and read-stream errors, download results, `fs.readFile`, `chmod` and `rename` failures, and the names `UUID.v4()` returns. SHA-256 and Buffer's UTF-8 `toString` are function parameters of the `Setup`. SHA-256 always yields 64 lower-case hex digits.

Two details of the code that a reader might not expect, both modelled as written:

- **Fingerprint check.** The checksum files are meant to hold one 64-digit lower-case hex digest, but `isSHA256` (index.js:10) is an unanchored `RegExp.test`: it accepts any text that contains 64 such digits in a row. `Fingerprint.IsSHA256` models the regex as written. `Checksum.AcceptedNeedNotBeDigest` exhibits a text that is accepted but is no digest. `Protocol.MalformedNeverInstalls` and `Protocol.IntegrityGate` show that such a text still never leads to a rename, because no real digest equals it.
- **Install root.** The root is computed with `Array.prototype.find` and `||` (index.js:22). An empty value after `--root` therefore falls back to `/wisnuc`, and `argv[0]` is never a candidate. `Config.RootOf` follows the code.

## Model

| member | source | states |
|---|---|---|
| Fingerprint.MatchFrom | index.js:10 | the regex search from position i succeeds iff 64 lower-case hex digits start at some position j ≥ i |
| Fingerprint.IsSHA256 | index.js:10 | isSHA256(s) holds iff s contains 64 consecutive characters from a-f0-9 anywhere |
| Fingerprint.DigestAccepted | index.js:10 | every exact 64-character lower-case hex string passes |
| Fingerprint.ShortRejected | index.js:10 | every string shorter than 64 characters fails |
| Fingerprint.EmbeddedDigestAccepted | index.js:10 | the check is unanchored: a digest with any text before and after it passes |
| Fingerprint.UpperCaseRejected | index.js:10 | the check is case-sensitive: a string of upper-case hex letters fails |
| Fingerprint.RejectedIsNoDigest | index.js:10 | a string the check rejects is never a well-formed digest |
| JsString.TrimStart | index.js:90 | the result is the suffix left after a run of leading whitespace, and it does not itself start with whitespace |
| JsString.TrimEnd | index.js:90 | the result is the prefix left before a run of trailing whitespace, and it does not itself end with whitespace |
| JsString.Trim | index.js:90 | trim returns a slice of its input; everything cut off at either end is whitespace; the result has no whitespace at either end |
| JsString.TrimPadded | index.js:90 | trimming whitespace padding off a core that has no whitespace at either end gives back exactly that core |
| JsString.TrimIdempotent | index.js:90 | trimming twice equals trimming once |
| Checksum.ParseChecksum | index.js:90-95 | the checksum text is accepted iff its trimmed form passes isSHA256; then the result is the trimmed text; otherwise the error is 'invalid sha256 string' |
| Checksum.TrimmedMatchIsMatch | index.js:90-91 | a match in the trimmed text is a match in the raw text |
| Checksum.MatchSurvivesTrim | index.js:90-91 | a match in the raw text survives trimming, because no hex digit is whitespace |
| Checksum.TrimKeepsVerdict | index.js:90-91 | trimming never changes the verdict of isSHA256 |
| Checksum.ParseVerdict | index.js:90-95 | a checksum text is accepted iff the raw text contains 64 hex digits in a row |
| Checksum.PaddedDigestParses | index.js:90-95 | a digest surrounded by whitespace parses to the digest itself |
| Checksum.AcceptedNeedNotBeDigest | index.js:90-95 | a digest followed by one more letter is accepted as the fingerprint although it is no digest |
| Config.Child | index.js:23-24 | path.join of a directory and a name is that directory plus one more component, and the added component is the name |
| Config.FindRootValue | index.js:22 | Array.prototype.find returns the first index from i on whose predecessor is --root, or none if there is no such index |
| Config.RootOf | index.js:22 | the root is never empty |
| Config.RootFromFlag | index.js:22 | the first non-empty value after --root is the root |
| Config.EmptyRootValueIgnored | index.js:22 | an empty first value after --root falls back to /wisnuc |
| Config.RootDefault | index.js:22 | without --root followed by a value the root is /wisnuc |
| Config.TargetPath | index.js:23 | the target is the root followed by wisnuc-bootstrap |
| Config.TmpDir | index.js:24 | the staging directory is the root followed by wisnuc-bootstrap-update-tmp |
| Config.StagingFile | index.js:80 | a temporary file is the staging directory followed by its UUID name, so distinct names give distinct files |
| Config.Layout | index.js:23-24 | target and staging directory are distinct direct children of the root, and a staging file is under staging and is never the target |
| Sources.Prepend | index.js:13-14 | each source prefix is an https directory URL (starts with https:// and ends with /) |
| Sources.BinaryFilename | index.js:105-107 | every binary filename starts with wisnuc-bootstrap-linux- and has 26 characters |
| Sources.ChecksumFilename | index.js:76-78 | every checksum filename starts with wisnuc-bootstrap-linux- and ends with -sha256 |
| Sources.ChecksumUrl | index.js:75-79 | no contract of its own (one would be re-proved in every trace lemma that mentions a URL): it is `prepend + filename` of retrieveHash, and Sources.UrlSource, Sources.ChecksumUrlOfBinary and Sources.UrlsDistinct state that it carries its source's prefix, equals the binary URL plus -sha256 and differs from every other URL |
| Sources.BinaryUrl | index.js:104-108 | no contract of its own, for the same reason: it is `prepend + filename` of update, and Sources.UrlSource, Sources.ChecksumUrlOfBinary and Sources.UrlsDistinct state that it carries its source's prefix, is the checksum URL without -sha256 and differs from every other URL |
| Sources.ChecksumNamedAfterBinary | index.js:76-78 | each checksum filename is its binary filename plus -sha256 |
| Sources.ArchSelection | index.js:105-107 | x64 selects the -x64 file and every other architecture the -a64 file |
| Sources.ChecksumUrlOfBinary | index.js:75-79 | the checksum URL of a source is that source's binary URL plus -sha256 |
| Sources.PrependedSource | index.js:13-14 | a name appended to a source's prefix is attributed to that source |
| Sources.UrlSource | index.js:75-79 | the checksum URL and the binary URL both carry the prefix of the source they were built for |
| Sources.UrlsDistinct | index.js:104-108 | a checksum URL is never a binary URL, and different sources give different URLs |
| Policy.Decide | index.js:139-142 | no download iff remote equals local; otherwise update runs with the remote as the expected hash and the given source flag |
| Policy.AbsentAlwaysInstalls | index.js:139-142 | an absent (null) local hash always leads to update |
| Policy.Resolve | index.js:156-169 | the mirror's fingerprint is used when it has one; GitHub's only after a mirror failure; no fingerprint iff both fail |
| Protocol.ExitCode | index.js:150-172 | exit code 1 exactly for a local hash error, 0 for every other end |
| Protocol.ResetStaging | index.js:148-149 | after the reset the staging directory exists and is empty, and every other path is unchanged |
| Protocol.ResetKeeps | index.js:148-149 | the reset keeps every path outside staging as it was |
| Protocol.ResetKeepsTarget | index.js:148-149 | the reset keeps the target as it was |
| Protocol.StagingFileAbsent | index.js:80 | a staging file name cannot already exist while staging is empty, and it is not the target |
| Protocol.HashOf | index.js:29-51 | a missing path gives Absent with no error; a stat error is passed on; a non-regular path gives 'target is not a file'; a regular file gives its SHA-256 unless the read stream errs |
| Protocol.ChecksumOutcome | index.js:74-98 | a failed download and a failed read are errors; a result is only given after a download that was read back |
| Protocol.ChecksumAccepted | index.js:84-95 | retrieveHash succeeds iff the file downloaded, read back, and its trimmed text passes isSHA256; it then gives that trimmed text; a readable text that fails is 'invalid sha256 string' |
| Protocol.AfterRetrieve | index.js:84-87 | retrieveHash changes no path but its own staging file; after a download that file still holds the downloaded bytes when the callback runs; after a failed download nothing has changed |
| Protocol.ChecksumRequest | index.js:79-84 | no contract of its own: the checksum download from one source, at that source's checksum URL; Protocol.ChecksumRequests, Protocol.ChecksumPhaseOrder and Protocol.MirrorFirst state when it is made |
| Protocol.Leftover | index.js:87 | no contract of its own: the removal retrieveHash starts without waiting, which is its staging file exactly when the download succeeded; Protocol.SettleRetrieve proves that finishing it restores the filesystem |
| Protocol.SettleRetrieve | index.js:87 | once the started removal finishes, the filesystem is what it was before retrieveHash |
| Protocol.RetrieveKeepsTarget | index.js:80-87 | retrieveHash never touches the target |
| Protocol.InstallOutcome | index.js:103-135 | update ends DownloadFailed iff the download fails, HashMismatch iff the re-hash works and differs from the expected hash, and Updated iff download, re-hash, comparison, chmod and rename all succeed |
| Protocol.BinaryRequest | index.js:108-115 | no contract of its own: the binary download from one source, at that source's binary URL; Protocol.InstallTrace, Protocol.BinaryFollowsItsChecksum and Protocol.SameProvenance state when and from where it is made |
| Protocol.InstalledFs | index.js:126-130 | update changes no path but the target; on Updated the target is the downloaded bytes, regular and executable; otherwise nothing changes |
| Protocol.InstallTrace | index.js:108-130 | update requests the binary from its source first, and its only other step is the rename of its staging file onto the target, taken exactly when it ends Updated |
| Protocol.ChecksumRequests | index.js:156-160 | main asks the mirror's checksum first and GitHub's second, exactly when the mirror failed |
| Protocol.TryUpdateRun | index.js:139-142 | tryUpdate ends UpToDate iff the decision is no-op, then keeping the filesystem and the trace as they stand; it ends Updated only after a download whose hash is the expected fingerprint |
| Protocol.GithubRun | index.js:159-166 | the GitHub half of the fallback requests GitHub's checksum first and ends RemoteHashFailed iff that fails, with GitHub's filesystem and no other request |
| Protocol.AfterChecksums | index.js:156-169 | the run after the local hash starts with the mirror's checksum request and ends RemoteHashFailed iff both sources fail |
| Protocol.AfterLocalHash | index.js:155-170 | once the local hash is known the run never ends LocalHashFailed, and its first request is the mirror's checksum |
| Protocol.Execution | index.js:148-172 | a run makes no request iff it ends LocalHashFailed, and otherwise its first request is the mirror's checksum |
| Protocol.Resolution | index.js:156-168 | no contract of its own: Policy.Resolve of the two checksum outcomes, so its contract (mirror first, GitHub only after a mirror failure, nothing iff both fail) applies; Protocol.RunResolved and Protocol.RunUnresolved give the run that follows |
| Protocol.LocalValue | index.js:139-140 | no contract of its own: the localHash that tryUpdate compares, null for an absent target and the hex digest otherwise; Policy.AbsentAlwaysInstalls and Protocol.AbsentLocalUpdates show that null never matches a fingerprint |
| Protocol.LocalHash | index.js:148-150 | no contract of its own: hashFile(targetPath) after the staging reset; Protocol.LocalHashIgnoresStaging proves it equals the hash of the target before the reset, and Protocol.LocalFailureStopsRun gives the run when it fails |
| Protocol.PendingAtExit | index.js:87 | no contract of its own: the last checksum file's removal when the run exits straight from a checksum callback (index.js:141, index.js:162), and nothing otherwise; Protocol.StagingAtExit proves staging holds exactly these paths at exit |
| Protocol.RunStopsLocally | index.js:150-153 | a local hash error ends the run right after the reset |
| Protocol.ExecutionStages | index.js:154-170 | after a good local hash, the run depends only on what the two checksum requests give |
| Protocol.RunUnresolved | index.js:159-162 | when neither source gives a fingerprint the run ends after the checksum requests, with GitHub's checksum file, if it was downloaded, still on disk |
| Protocol.RunResolved | index.js:164-168 | a resolved fingerprint goes to tryUpdate with the source that gave it |
| Protocol.InstallGate | index.js:115-130 | update ends Updated only if the binary was downloaded, its hash equals the expected fingerprint, and the target is then that download, executable |
| Protocol.ChecksumRequestsOnly | index.js:156-160 | the checksum phase requests only checksum files |
| Protocol.ChecksumRequestsRenameNothing | index.js:156-160 | the checksum phase never renames onto the target |
| Protocol.TryUpdateTrace | index.js:139-142 | tryUpdate only appends a binary request and at most one rename, and adds one replacement of the target exactly when it ends Updated |
| Protocol.InstallTraceShape | index.js:115-130 | update's steps are binary requests and renames only, with one rename onto the target exactly when it ends Updated |
| Protocol.TryUpdateRunPrefix | index.js:139-142 | what tryUpdate appends does not depend on the earlier trace |
| Protocol.ResolvedTrace | index.js:156-168 | a run that resolves a fingerprint makes the checksum requests, then only a binary request and at most one rename, which it makes exactly when it ends Updated |
| Protocol.MirrorAnswered | index.js:167-168 | with the mirror's checksum in hand the run is tryUpdate from the mirror after one request |
| Protocol.MirrorUnanswered | index.js:157-166 | after a mirror failure the run is the GitHub fallback after one request |
| Protocol.ReplacementsAppend | index.js:128 | renames onto the target count additively over a trace |
| Protocol.ResolvedIsChecked | index.js:91-94 | a fingerprint the run goes on with passed isSHA256 |
| Protocol.MalformedNeverInstalls | index.js:123 | a text that is no well-formed digest never equals the download's hash, so it never leads to a rename |
| Protocol.RunFilesystem | index.js:85-134 | an UpToDate or RemoteHashFailed run leaves the reset filesystem plus the last downloaded checksum file; every other failed run leaves exactly the reset filesystem; an Updated run changes only the target, to the executable download |
| Protocol.StagingAtExit | index.js:87 | at exit staging holds exactly the checksum files whose removal is still pending, and it is empty iff none is pending |
| Protocol.IntegrityGate | index.js:120-130 | the target is replaced only by an executable regular file whose hash is the resolved fingerprint, which passed isSHA256 and is a well-formed digest |
| Protocol.TargetChangesOnlyOnUpdate | index.js:126-130 | the target changes iff the run ends Updated |
| Protocol.UpdateChangesTarget | index.js:139-142 | an update never puts back the contents the target already had |
| Protocol.ReplacedAtMostOnce | index.js:128-130 | the target is renamed onto at most once per run, and exactly once iff the run ends Updated |
| Protocol.LocalFailureStopsRun | index.js:150-153 | the run ends LocalHashFailed iff hashing the target errs; it then has made no request and exits with code 1 |
| Protocol.MirrorFirst | index.js:156 | after a good local hash the first request is the mirror's checksum |
| Protocol.ChecksumPhaseOrder | index.js:156-168 | in the checksum phase GitHub's checksum is the second request when the mirror failed and is never requested when the mirror answered |
| Protocol.GithubOnlyAfterMirrorFailure | index.js:157-159 | the same for a whole run: GitHub's checksum is the second request when the mirror failed and is never requested when the mirror answered |
| Protocol.BothSourcesFailed | index.js:159-162 | when both sources fail the run ends RemoteHashFailed with just the two checksum requests, no binary request, and GitHub's checksum file, if it was downloaded, left in staging |
| Protocol.BinaryFollowsItsChecksum | index.js:104-115 | a binary request in a trace directly follows the checksum request of the same source |
| Protocol.SameProvenance | index.js:164-168 | a binary is requested only right after its source's checksum, from that same source's URL prefix, and the fingerprint in use is that source's checksum |
| Protocol.UpToDateWhenCurrent | index.js:139-141 | the run ends UpToDate iff the local hash equals the resolved fingerprint |
| Protocol.NoDownloadWhenCurrent | index.js:140-141 | an UpToDate run makes only checksum requests, and its disk is the reset one plus the checksum file whose removal is pending |
| Protocol.ChecksumFileOutlivesRun | index.js:87 | an UpToDate run ends with the downloaded checksum file still in staging, so staging is not empty |
| Protocol.AwaitedExecution | index.js:148-172 | no contract of its own: main with the removal at index.js:87 waited for, the corrected run of the finding below; Protocol.AwaitedRunCleansStaging proves it leaves staging empty with Execution's outcome and trace |
| Protocol.ExitFilesystemOnly | index.js:87 | the filesystems the checksum requests leave decide only the filesystem of a run that exits right after them, never its outcome or trace |
| Protocol.AwaitedRunCleansStaging | index.js:87 | if the removal at index.js:87 were waited for, every run would end with staging empty, and with the same outcome, the same requests and the same disk without the leftover file |
| Protocol.AbsentLocalUpdates | index.js:150-168 | with no installed binary, a resolved fingerprint always leads to a binary request |
| Protocol.LocalHashIgnoresStaging | index.js:148-150 | resetting staging does not change the local hash |
| Protocol.DigestFileParses | index.js:84-95 | a checksum file holding exactly a digest yields that digest |
| Protocol.UpToDateRun | index.js:139-168 | a mirror checksum equal to the local hash ends the run after that one request, keeping the filesystem the mirror's retrieveHash left |
| Protocol.MirrorInstallRun | index.js:139-168 | a mirror checksum different from the local hash leads to update from the mirror right after that one request |
| Protocol.MirrorAnsweredRun | index.js:156-168 | a run whose mirror answers goes on as tryUpdate of that fingerprint from the mirror, after one request |
| Protocol.FirstInstallRun | index.js:148-172 | no local binary and a mirror fingerprint that the download matches: the run ends Updated with the executable download as target, after checksum request, binary request and rename |
| Protocol.CurrentRun | index.js:139-168 | local hash equal to the mirror's fingerprint: the run ends UpToDate after one request, with the mirror's checksum file on disk |
| Protocol.GithubInstallTrace | index.js:157-164 | an update from GitHub follows both checksum requests |
| Protocol.MirrorDownExecution | index.js:157-166 | mirror failed and GitHub's fingerprint differs from the local hash: the run is update from GitHub after both checksum requests |
| Protocol.ScenarioFirstInstall | index.js:148-172 | no local binary and an agreeing mirror checksum and binary: the target becomes the executable download, with request checksum, request binary, rename, exit 0 |
| Protocol.ScenarioUpToDate | index.js:148-172 | the mirror reports the local hash: only the checksum is fetched, and the disk is the reset one plus that checksum file |
| Protocol.ScenarioMirrorDown | index.js:157-166 | the mirror is down: GitHub's checksum is used and the binary comes from GitHub |
| Protocol.ScenarioHashMismatch | index.js:120-124 | a corrupt download ends HashMismatch with the target as it was and staging empty |
| Agent.Updater.constructor | index.js:22-24 | the root is taken from argv, and the filesystem is the one given |
| Agent.Updater.RemoveFile | index.js:85 | rimraf of a staging file, waited for, removes exactly that path |
| Agent.Updater.StartRemoval | index.js:87 | rimraf with an empty callback only records the removal as pending; the file stays |
| Agent.Updater.Settle | index.js:84-87 | the pending removals finish: those paths are gone and nothing is pending |
| Agent.Updater.PrepareStaging | index.js:148-149 | the filesystem becomes ResetStaging of the old one |
| Agent.Updater.HashFile | index.js:29-51 | ENOENT gives Absent (null, null); other stat errors are passed on; a non-regular path gives 'target is not a file'; a regular file gives the SHA-256 of its contents unless the read stream errs. The chunk loop only renders hash.update per chunk (its invariant is that the bytes fed so far are the prefix read so far); it is not what the hashing properties rest on |
| Agent.Updater.RetrieveHash | index.js:74-98 | the result is ChecksumOutcome; a failed download is removed before the callback; a downloaded checksum file is still on disk at the callback, with its removal pending; one checksum request from the chosen source is recorded |
| Agent.Updater.Update | index.js:103-135 | the outcome is InstallOutcome; earlier pending removals finish; the filesystem changes only by the executable download replacing the target when the outcome is Updated; the trace gains the binary request and the rename |
| Agent.Updater.VerifyAndInstall | index.js:119-131 | hash, compare, chmod and rename in that order; every failure removes the staged file; on success it is executable and no longer in staging |
| Agent.Updater.TryUpdate | index.js:139-142 | the result, filesystem and trace are those of TryUpdateRun for Decide(remote, local, mirror); an exit leaves pending removals pending |
| Agent.Updater.ResolveAndUpdate | index.js:155-170 | the run from the local hash on equals AfterLocalHash: mirror first, GitHub fallback, then tryUpdate with the source that answered |
| Agent.Updater.GithubFallback | index.js:159-166 | the GitHub half of the fallback equals GithubRun, leaving GitHub's checksum file pending when it exits |
| Agent.Updater.Run | index.js:148-172 | outcome, final filesystem and trace of a whole run equal those of Execution; the removal still pending at exit is the last checksum file, and only when the run exits UpToDate or RemoteHashFailed |

## Findings

| source | as written | input that shows it | evidently intended | confidence | as-written member | corrected member |
|---|---|---|---|---|---|---|
| index.js:87 | `rimraf(tmpFile, () => {})` starts the checksum file's removal and does not wait; when the callback leads straight to `process.exit()` (index.js:141, index.js:162) the process ends before the removal | the target is a regular file with contents C and the mirror's checksum file holds sha256(C): the run exits UpToDate with `<root>/wisnuc-bootstrap-update-tmp/<uuid>` still holding the checksum text | retrieveHash removes its temporary file on every path (index.js:85, index.js:87), so no run should leave anything in staging | medium, not executed | Protocol.ChecksumFileOutlivesRun | Protocol.AwaitedRunCleansStaging |

`Protocol.Execution` and the class keep the behaviour as written, since the next run's reset removes the leftover file. `Protocol.AwaitedExecution` is the run with the removal waited for. `Protocol.AwaitedRunCleansStaging` proves that it leaves staging empty, and that it has the same outcome and trace as `Execution`. So every property above about outcomes and traces, including the integrity gate, holds for the corrected run too.

## Left out

- `downloadFile` and the `request` HTTP piping (index.js:56-72): network and stream I/O. A download is an input. It either succeeds with the bytes written to the staging file, or fails, possibly after a partial write.
- The SHA-256 algorithm and Buffer's UTF-8 decoding: library calls, taken as function parameters. Hashing chunk by chunk is the hash of the concatenation of the chunks.
- Event-listener juggling (`removeAllListeners`, `destroy`, error listeners that swallow) in index.js:39-44 and index.js:60-66: these guard against callbacks firing twice on streams, which is event-loop concurrency.
- The randomness of `UUID.v4()`: names are inputs. The three names of a run are required to differ from each other, and each must be absent from the filesystem when it is used.
- `path.resolve` and `path.join` normalisation: a path is its list of components, with the root string as the first one.
- Logging and the mechanics of `process.exit`: each exit is a terminal `Outcome`, with `Protocol.ExitCode` giving its code. The rename is a single atomic map update.
- Failures of `rimraf` and `mkdirp`: the model assumes they succeed, and the source ignores rimraf's callback error anyway. `fs.chmod`'s mode `755` is the executable flag.
- The timing of the removal started at index.js:87. The model lets it finish when the next download starts (GitHub's checksum, or the binary), and leaves it unfinished when the next step is an exit. Interleavings in which it finishes during that download, or races with it, are not modelled.
- How many chunks are read before a read-stream error: any read error fails the hash, whatever chunk it hits.
- The chunk size: Node's default of 65536 bytes, which does not affect the result.
- Concurrency apart from the removal above: each callback runs to completion before the next I/O step starts, and the model runs the steps in that order.
- Timeouts: none exist in the source.
