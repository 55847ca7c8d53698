/** The update decision tryUpdate (index.js:139-142) and the mirror-then-GitHub order of main (index.js:156-169). */
module Policy {
  import opened Common

  datatype Decision = Noop | Install(mirror: bool, expected: string)

  /** remote === local ? exit : update(mirror, remote); an absent local hash is null and equals no string. */
  function Decide(remote: string, local: Option<string>, mirror: bool): (d: Decision)
    ensures d == Noop <==> local == Some(remote)
    ensures d != Noop ==> d == Install(mirror, remote)
  {
    if local == Some(remote) then Noop else Install(mirror, remote)
  }

  /** A first install always downloads, carrying the remote fingerprint. */
  lemma AbsentAlwaysInstalls(remote: string, mirror: bool)
    ensures Decide(remote, None, mirror) == Install(mirror, remote)
  {
  }

  datatype Resolution = Resolved(fingerprint: string, mirror: bool) | Unresolved

  /** The fingerprint main goes on with: the mirror's, else GitHub's, else none. */
  function Resolve(fromMirror: Result<string>, fromGithub: Result<string>): (r: Resolution)
    ensures r.Resolved? && r.mirror ==> fromMirror == Ok(r.fingerprint)
    ensures r.Resolved? && !r.mirror ==> fromMirror.Err? && fromGithub == Ok(r.fingerprint)
    ensures r.Unresolved? <==> fromMirror.Err? && fromGithub.Err?
  {
    if fromMirror.Ok? then Resolved(fromMirror.value, true)
    else if fromGithub.Ok? then Resolved(fromGithub.value, false)
    else Unresolved
  }
}
