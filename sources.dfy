/** Where the checksum and the binary are downloaded from (index.js:13-14, 75-79, 104-108). */
module Sources {
  import opened Common

  /** The release branch of the wisnuc-bootstrap repository, served raw by GitHub: host, then repository path. */
  const GithubPrepend := "https://raw.githubusercontent.com/" + "wisnuc/wisnuc-bootstrap/release/"
  /** The wisnuc mirror: host, then directory. */
  const MirrorPrepend := "https://mirrors.wisnuc.com/" + "wisnuc-bootstrap/"

  /** The URL prefix of a source, the mirror or GitHub: an https directory URL. */
  function Prepend(mirror: bool): (p: string)
    ensures |p| > 8 && p[..8] == "https://" && p[|p| - 1] == '/'
  {
    if mirror then MirrorPrepend else GithubPrepend
  }

  /** process.arch === 'x64' picks the x64 build; every other architecture gets the a64 build. */
  function BinaryFilename(arch: string): (n: string)
    ensures "wisnuc-bootstrap-linux-" <= n && |n| == 26
  {
    if arch == "x64" then "wisnuc-bootstrap-linux-x64" else "wisnuc-bootstrap-linux-a64"
  }

  /** The checksum file of a build: the build's name, then -sha256. */
  function ChecksumFilename(arch: string): (n: string)
    ensures "wisnuc-bootstrap-linux-" <= n && n[|n| - 7..] == "-sha256"
  {
    if arch == "x64" then "wisnuc-bootstrap-linux-x64-sha256" else "wisnuc-bootstrap-linux-a64-sha256"
  }

  /** prepend + filename in retrieveHash. */
  function ChecksumUrl(mirror: bool, arch: string): string {
    Prepend(mirror) + ChecksumFilename(arch)
  }

  /** prepend + filename in update. */
  function BinaryUrl(mirror: bool, arch: string): string {
    Prepend(mirror) + BinaryFilename(arch)
  }

  /** The checksum URL is the binary's URL with -sha256 appended. */
  lemma ChecksumUrlOfBinary(mirror: bool, arch: string)
    ensures ChecksumUrl(mirror, arch) == BinaryUrl(mirror, arch) + "-sha256"
  {
    ChecksumNamedAfterBinary(arch);
    assert Prepend(mirror) + (BinaryFilename(arch) + "-sha256") == (Prepend(mirror) + BinaryFilename(arch)) + "-sha256";
  }

  /** Which source a URL belongs to, read off its prefix. */
  function SourceOf(url: string): Option<bool> {
    if MirrorPrepend <= url then Some(true)
    else if GithubPrepend <= url then Some(false)
    else None
  }

  /** Each checksum file is named after its binary plus -sha256. */
  lemma ChecksumNamedAfterBinary(arch: string)
    ensures ChecksumFilename(arch) == BinaryFilename(arch) + "-sha256"
  {
  }

  /** Only x64 selects the x64 files. */
  lemma ArchSelection(arch: string)
    ensures BinaryFilename(arch) == "wisnuc-bootstrap-linux-x64" <==> arch == "x64"
    ensures BinaryFilename(arch) == "wisnuc-bootstrap-linux-a64" <==> arch != "x64"
  {
  }

  lemma PrependedSource(mirror: bool, name: string)
    ensures SourceOf(Prepend(mirror) + name) == Some(mirror)
  {
    var u := Prepend(mirror) + name;
    assert Prepend(mirror) <= u;
    if !mirror {
      assert u[8] == GithubPrepend[8] == 'r';
      assert MirrorPrepend[8] == 'm';
    }
  }

  /** A checksum URL and a binary URL name the source they were built for. */
  lemma UrlSource(mirror: bool, arch: string)
    ensures SourceOf(ChecksumUrl(mirror, arch)) == Some(mirror)
    ensures SourceOf(BinaryUrl(mirror, arch)) == Some(mirror)
  {
    PrependedSource(mirror, ChecksumFilename(arch));
    PrependedSource(mirror, BinaryFilename(arch));
  }

  /** The four URLs used on one architecture are pairwise distinct. */
  lemma UrlsDistinct(m1: bool, m2: bool, arch: string)
    ensures ChecksumUrl(m1, arch) != BinaryUrl(m2, arch)
    ensures ChecksumUrl(m1, arch) == ChecksumUrl(m2, arch) ==> m1 == m2
    ensures BinaryUrl(m1, arch) == BinaryUrl(m2, arch) ==> m1 == m2
  {
    UrlSource(m1, arch);
    UrlSource(m2, arch);
    if m1 == m2 {
      assert |ChecksumUrl(m1, arch)| == |BinaryUrl(m2, arch)| + 7;
    }
  }
}
