/** The download and management utilities: recursive URL splitting, rounding down to an even
    number, file hashing and the checksum comparison that decides whether a granule is
    fetched again. Hash algorithms, the network and the local disk are inputs. */
module Utilities {
  import opened Text
  import opened Results
  import opened Exceptions
  import PosixPath

  // ---------------------------------------------------------------------------------------
  // url_split
  // ---------------------------------------------------------------------------------------

  /** Strings on which `url_split` never returns: `posixpath.split` keeps a head of two or
      more slashes as it is, so the recursion reaches such a head and repeats it forever. */
  predicate DoubleSlashPrefix(s: string) {
    |s| >= 2 && s[0] == '/' && s[1] == '/'
  }

  /** The heads at which `url_split` stops and returns the whole string. */
  predicate IsSchemeHead(head: string) {
    head == "http:" || head == "https:"
  }

  /** One path component: non-empty and free of '/'. */
  predicate IsSegment(x: string) {
    x != "" && '/' !in x
  }

  /** The head `url_split` recurses on is shorter than its input and again free of a leading
      "//", unless it is one of the heads at which the recursion stops. */
  lemma SplitHeadShrinks(s: string)
    requires !DoubleSlashPrefix(s)
    ensures var head := PosixPath.Split(s).0;
      head == "" || head == "/" || (|head| < |s| && !DoubleSlashPrefix(head))
  {
    var head := PosixPath.Split(s).0;
    assert |head| >= 2 ==> head[0] == s[0] && head[1] == s[1];
  }

  /** `url_split(s)`: the scheme and host as one piece (for http and https), followed by the
      path components; a string without a scheme is split into its components. */
  function UrlSplit(s: string): (parts: seq<string>)
    requires !DoubleSlashPrefix(s)
    ensures |parts| >= 1
    decreases |s|
  {
    var (head, tail) := PosixPath.Split(s);
    if IsSchemeHead(head) then [s]
    else if head == "" || head == "/" then [tail]
    else
      SplitHeadShrinks(s);
      UrlSplit(head) + [tail]
  }

  /** On a string that starts with "//", the head `url_split` would recurse on starts with
      "//" again and is not a head at which it stops: the recursion never ends. */
  lemma {:induction false} UrlSplitDivergesOnDoubleSlash(s: string)
    requires DoubleSlashPrefix(s)
    ensures var head := PosixPath.Split(s).0;
      DoubleSlashPrefix(head) && !IsSchemeHead(head) && head != "" && head != "/"
  {
    var k := LastIndex(s, '/');
    assert k >= 1 by { assert s[1] == '/'; }
    var head := PosixPath.Split(s).0;
    if !AllChar(head, '/') {
      var j :| 0 <= j < |head| && head[j] != '/';
      assert head[0] == s[0] && head[1] == s[1] by { assert |head| >= 2; }
    }
  }

  /** A string without '/' is returned whole. */
  lemma UrlSplitNoSlash(s: string)
    requires '/' !in s
    ensures UrlSplit(s) == [s]
  {
  }

  /** The last piece is the text after the final '/'; a string without '/' and a bare
      scheme-and-host string are returned whole. */
  lemma UrlSplitLast(s: string)
    requires !DoubleSlashPrefix(s)
    ensures var parts := UrlSplit(s);
      parts[|parts| - 1] ==
        if IsSchemeHead(PosixPath.Split(s).0) || '/' !in s then s else s[LastIndex(s, '/') + 1..]
  {
    LastPiece(s);
    var (head, tail) := PosixPath.Split(s);
    if '/' !in s {
      assert tail == s && !IsSchemeHead(head);
    } else {
      assert tail == s[LastIndex(s, '/') + 1..];
    }
  }

  /** The last piece is the tail `posixpath.split` gives, or the whole string. */
  lemma LastPiece(s: string)
    requires !DoubleSlashPrefix(s)
    ensures var parts := UrlSplit(s);
      parts[|parts| - 1] == if IsSchemeHead(PosixPath.Split(s).0) then s else PosixPath.Split(s).1
  {
    var (head, tail) := PosixPath.Split(s);
    if '/' !in s {
      assert (head, tail) == ("", s);
      assert UrlSplit(s) == [s];
    } else if IsSchemeHead(head) {
      assert UrlSplit(s) == [s];
    } else if head == "" || head == "/" {
      assert UrlSplit(s) == [tail];
    } else {
      SplitHeadShrinks(s);
      LastOfSnoc(UrlSplit(head), tail);
    }
  }

  lemma LastOfSnoc(parts: seq<string>, x: string)
    ensures var r := parts + [x]; r[|r| - 1] == x
  {
  }

  /** Splitting `a + "/" + x`, where `a` does not end with '/' and `x` is one component,
      cuts exactly at that slash. */
  lemma SplitAfterSlash(a: string, x: string)
    requires a != "" && a[|a| - 1] != '/'
    requires '/' !in x
    ensures PosixPath.Split(a + "/" + x) == (a, x)
  {
    var p := a + "/" + x;
    assert p[|a|] == '/';
    assert forall j :: |a| < j < |p| ==> p[j] == x[j - |a| - 1];
    assert LastIndex(p, '/') == |a|;
    assert p[..|a| + 1] == a + "/";
    assert p[|a| + 1..] == x;
    assert !AllChar(a + "/", '/') by { assert (a + "/")[|a| - 1] != '/'; }
    RStripOf(a, "/", '/');
  }

  /** One more component after a string that does not end with '/' becomes one more piece. */
  lemma UrlSplitStep(a: string, x: string)
    requires a != "" && a[|a| - 1] != '/' && !DoubleSlashPrefix(a) && !IsSchemeHead(a)
    requires '/' !in x
    ensures !DoubleSlashPrefix(a + "/" + x)
    ensures UrlSplit(a + "/" + x) == UrlSplit(a) + [x]
  {
    SplitAfterSlash(a, x);
    var s := a + "/" + x;
    assert s[0] == a[0];
    assert |a| >= 2 ==> s[1] == a[1];
    assert !DoubleSlashPrefix(s);
    assert a != "/";
    var (head, tail) := PosixPath.Split(s);
    assert head == a && tail == x;
    assert !IsSchemeHead(head) && head != "" && head != "/";
  }

  /** Appending components to a base that `url_split` handles appends them to its result. */
  lemma {:induction false} UrlSplitExtend(b: string, segs: seq<string>)
    requires b != "" && b[|b| - 1] != '/' && !DoubleSlashPrefix(b) && !IsSchemeHead(b)
    requires forall i :: 0 <= i < |segs| ==> IsSegment(segs[i])
    ensures !DoubleSlashPrefix(Join([b] + segs, '/'))
    ensures UrlSplit(Join([b] + segs, '/')) == UrlSplit(b) + segs
    decreases |segs|
  {
    if |segs| == 0 {
      assert [b] + segs == [b];
    } else {
      var init, x := segs[..|segs| - 1], segs[|segs| - 1];
      Snoc([b], segs);
      Snoc(UrlSplit(b), segs);
      SegmentsBefore(segs, |segs| - 1);
      var a := Join([b] + init, '/');
      JoinSnoc([b] + init, x, '/');
      UrlSplitExtend(b, init);
      assert a != "" && a[|a| - 1] != '/' by {
        JoinEndsLikeLast(b, init);
      }
      assert !IsSchemeHead(a) by {
        if |init| > 0 {
          JoinHasSlash(b, init);
          SlashedIsNotSchemeHead(a);
        } else {
          assert [b] + init == [b];
        }
      }
      UrlSplitStep(a, x);
    }
  }

  /** A list of pieces is the list without its last piece, plus that piece. */
  lemma Snoc(p: seq<string>, segs: seq<string>)
    requires |segs| > 0
    ensures p + segs == (p + segs[..|segs| - 1]) + [segs[|segs| - 1]]
  {
    assert segs == segs[..|segs| - 1] + [segs[|segs| - 1]];
  }

  lemma SegmentsBefore(segs: seq<string>, n: nat)
    requires n <= |segs|
    requires forall i :: 0 <= i < |segs| ==> IsSegment(segs[i])
    ensures forall i :: 0 <= i < n ==> IsSegment(segs[..n][i])
  {
  }

  /** No string containing '/' is a head at which `url_split` stops. */
  lemma SlashedIsNotSchemeHead(a: string)
    requires '/' in a
    ensures !IsSchemeHead(a)
  {
    assert '/' !in "http:" && '/' !in "https:";
  }

  /** The join of a base and components starts like the base and ends in a
      character that is not '/'. */
  lemma {:induction false} JoinEndsLikeLast(b: string, segs: seq<string>)
    requires b != "" && b[|b| - 1] != '/'
    requires forall i :: 0 <= i < |segs| ==> IsSegment(segs[i])
    ensures var a := Join([b] + segs, '/');
      a != "" && a[|a| - 1] != '/' && |b| <= |a| && a[..|b|] == b
    decreases |segs|
  {
    if |segs| > 0 {
      var init, x := segs[..|segs| - 1], segs[|segs| - 1];
      SegmentsBefore(segs, |segs| - 1);
      JoinEndsLikeLast(b, init);
      Snoc([b], segs);
      JoinSnoc([b] + init, x, '/');
    } else {
      assert [b] + segs == [b];
    }
  }

  /** Joining a base with at least one component puts a '/' in the result. */
  lemma JoinHasSlash(b: string, segs: seq<string>)
    requires |segs| > 0
    ensures '/' in Join([b] + segs, '/')
  {
    var parts := [b] + segs;
    assert parts[1..] == segs;
    assert Join(parts, '/')[|b|] == '/';
  }

  /** For an http or https URL `scheme//host/seg1/.../segk` with no empty component,
      `url_split` gives the scheme and host followed by the components, and joining the
      pieces with '/' gives back the URL. */
  lemma UrlSplitOfUrl(scheme: string, host: string, segs: seq<string>)
    requires IsSchemeHead(scheme) && IsSegment(host)
    requires forall i :: 0 <= i < |segs| ==> IsSegment(segs[i])
    ensures var url := Join([scheme + "//" + host] + segs, '/');
      !DoubleSlashPrefix(url) && UrlSplit(url) == [scheme + "//" + host] + segs
      && Join(UrlSplit(url), '/') == url
  {
    var b := scheme + "//" + host;
    UrlSplitBase(scheme, host);
    UrlSplitExtend(b, segs);
  }

  /** `url_split("scheme://host")` is the string itself. */
  lemma UrlSplitBase(scheme: string, host: string)
    requires IsSchemeHead(scheme) && IsSegment(host)
    ensures !DoubleSlashPrefix(scheme + "//" + host)
    ensures UrlSplit(scheme + "//" + host) == [scheme + "//" + host]
    ensures var b := scheme + "//" + host; b[|b| - 1] != '/' && !IsSchemeHead(b)
  {
    BaseSplit(scheme, host);
    var b := scheme + "//" + host;
    assert b[|b| - 1] == host[|host| - 1];
    assert !IsSchemeHead(b) by { assert |b| > |scheme| + 1; }
  }

  /** `posixpath.split("scheme://host")` gives the head "scheme:". */
  lemma BaseSplit(scheme: string, host: string)
    requires IsSchemeHead(scheme) && IsSegment(host)
    ensures PosixPath.Split(scheme + "//" + host) == (scheme, host)
  {
    var p := scheme + "//" + host;
    var i := |scheme| + 2;
    assert p[i - 1] == '/';
    assert forall j :: i <= j < |p| ==> p[j] == host[j - i];
    assert LastIndex(p, '/') == i - 1;
    assert p[..i] == scheme + "//" && p[i..] == host;
    assert !AllChar(scheme + "//", '/') by { assert (scheme + "//")[0] != '/'; }
    RStripOf(scheme, "//", '/');
  }

  /** A single leading '/' is dropped: for an absolute path `/x/seg1/.../segk` with no empty
      component, `url_split` gives the components alone. */
  lemma UrlSplitOfAbsolutePath(x: string, rest: seq<string>)
    requires IsSegment(x)
    requires forall i :: 0 <= i < |rest| ==> IsSegment(rest[i])
    ensures !DoubleSlashPrefix("/" + Join([x] + rest, '/'))
    ensures UrlSplit("/" + Join([x] + rest, '/')) == [x] + rest
  {
    JoinPrefixFirst("/", x, rest, '/');
    RootSegment(x);
    UrlSplitExtend("/" + x, rest);
  }

  /** `url_split("/x")` for one component `x` is `(x,)`. */
  lemma RootSegment(x: string)
    requires IsSegment(x)
    ensures var b := "/" + x;
      b != "" && b[|b| - 1] != '/' && !DoubleSlashPrefix(b) && !IsSchemeHead(b) && UrlSplit(b) == [x]
  {
    var b := "/" + x;
    assert PosixPath.Split(b) == ("/", x) by {
      assert forall j :: 1 <= j < |b| ==> b[j] == x[j - 1];
      assert LastIndex(b, '/') == 0;
      assert b[..1] == "/" && b[1..] == x;
    }
    assert b[1] == x[0];
    assert b[|b| - 1] == x[|x| - 1];
    SlashedIsNotSchemeHead(b);
  }

  /** `url_split('/a/b')` is `('a', 'b')` for any two components `a` and `b`. */
  lemma UrlSplitDropsLeadingSlash(a: string, b: string)
    requires IsSegment(a) && IsSegment(b)
    ensures !DoubleSlashPrefix("/" + a + "/" + b)
    ensures UrlSplit("/" + a + "/" + b) == [a, b]
  {
    var segs := [a, b];
    assert segs == [a] + [b] && segs[1..] == [b];
    assert Join(segs, '/') == a + "/" + b;
    assert "/" + a + "/" + b == "/" + Join([a] + [b], '/');
    UrlSplitOfAbsolutePath(a, [b]);
  }

  // ---------------------------------------------------------------------------------------
  // even
  // ---------------------------------------------------------------------------------------

  predicate IsEven(m: int) {
    m % 2 == 0
  }

  /** `even(value)`: `2*int(value//2)`. Python's `//` rounds toward negative infinity, which is
      what Dafny's `/` does for a positive divisor. */
  function Even(n: int): (r: int)
    ensures IsEven(r) && r <= n && n - r <= 1
  {
    2 * (n / 2)
  }

  /** `even(n)` is the largest even number that is at most `n`. */
  lemma EvenIsLargestEvenBelow(n: int, m: int)
    requires IsEven(m) && m <= n
    ensures m <= Even(n)
  {
  }

  /** Rounding an even number changes nothing, so `even` is idempotent. */
  lemma EvenIdempotent(n: int)
    ensures Even(Even(n)) == Even(n)
  {
  }

  /** Negative odd numbers round down, away from zero: `even(-3) == -4`. */
  lemma EvenOfNegativeOdd()
    ensures Even(-3) == -4 && Even(-1) == -2 && Even(3) == 2
  {
  }

  // ---------------------------------------------------------------------------------------
  // get_hash and compare_checksums
  // ---------------------------------------------------------------------------------------

  type Bytes = seq<bv8>

  /** The local disk: the content of every file that exists, by path. */
  type Disk = map<string, Bytes>

  /** The hash functions of `hashlib`, as uninterpreted functions of the bytes hashed. */
  datatype Hashers = Hashers(md5: Bytes -> string, sha1: Bytes -> string)

  /** What `get_hash` is given: an in-memory file object or a path on the disk. */
  datatype LocalSource = Buffer(content: Bytes) | FilePath(path: string)

  /** The hex digest of `content` under the named algorithm, or None (Python's implicit
      return) for a name other than "MD5" or "sha1". */
  function Digest(content: Bytes, algorithm: string, hashers: Hashers): (h: Option<string>)
    ensures h.Some? <==> algorithm == "MD5" || algorithm == "sha1"
    ensures algorithm == "MD5" ==> h == Some(hashers.md5(content))
    ensures algorithm == "sha1" ==> h == Some(hashers.sha1(content))
  {
    if algorithm == "MD5" then Some(hashers.md5(content))
    else if algorithm == "sha1" then Some(hashers.sha1(content))
    else None
  }

  /** `get_hash(local, algorithm)`. */
  function GetHash(local: LocalSource, algorithm: string, disk: Disk, hashers: Hashers): (h: Option<string>)
    ensures local.FilePath? && local.path !in disk ==> h == Some("")
    ensures local.Buffer? ==> h == Digest(local.content, algorithm, hashers)
    ensures local.FilePath? && local.path in disk ==> h == Digest(disk[local.path], algorithm, hashers)
    ensures h.None? <==> algorithm != "MD5" && algorithm != "sha1" && !(local.FilePath? && local.path !in disk)
  {
    match local
    case Buffer(content) => Digest(content, algorithm, hashers)
    case FilePath(path) => if path in disk then Digest(disk[path], algorithm, hashers) else Some("")
  }

  /** The MD5 hex digest of a local file as `get_hash` computes it by default: "" for a
      file that does not exist. */
  function LocalMd5(path: string, disk: Disk, hashers: Hashers): (h: string)
    ensures GetHash(FilePath(path), "MD5", disk, hashers) == Some(h)
  {
    if path in disk then hashers.md5(disk[path]) else ""
  }

  /** What fetching and parsing a checksum document gives: the request failed, the document
      did not parse, or the texts found at `//DataFileContainer/Checksum/text()`. */
  datatype XmlResponse = Unreachable | Malformed | Parsed(checksums: seq<string>)

  /** `compare_checksums(remote_xml, local_file)`: the MD5 of the local file equals the one
      checksum the remote document declares. A failed fetch raises instead of returning
      False, and so does a document with no checksum or with several. */
  function CompareChecksums(remoteXml: string, localFile: string, fetch: string -> XmlResponse,
                            disk: Disk, hashers: Hashers): (r: Result<bool, Exception>)
    ensures fetch(remoteXml) == Unreachable ==> r == Failure(XmlDownloadError(remoteXml))
    ensures fetch(remoteXml) == Malformed ==> r == Failure(XmlSyntaxError(remoteXml))
    ensures fetch(remoteXml).Parsed? && |fetch(remoteXml).checksums| != 1 ==>
      r == Failure(UnpackError(|fetch(remoteXml).checksums|))
    ensures r.Success? <==> fetch(remoteXml).Parsed? && |fetch(remoteXml).checksums| == 1
    ensures r.Success? ==> (r.value <==> LocalMd5(localFile, disk, hashers) == fetch(remoteXml).checksums[0])
  {
    match fetch(remoteXml)
    case Unreachable => Failure(XmlDownloadError(remoteXml))
    case Malformed => Failure(XmlSyntaxError(remoteXml))
    case Parsed(checksums) =>
      if |checksums| != 1 then Failure(UnpackError(|checksums|))
      else Success(GetHash(FilePath(localFile), "MD5", disk, hashers) == Some(checksums[0]))
  }

  /** A missing local file matches only an empty remote checksum, so it is always fetched
      when the remote document declares a real one. */
  lemma MissingFileNeverMatches(remoteXml: string, localFile: string, fetch: string -> XmlResponse,
                                disk: Disk, hashers: Hashers, checksum: string)
    requires localFile !in disk
    requires fetch(remoteXml) == Parsed([checksum]) && checksum != ""
    ensures CompareChecksums(remoteXml, localFile, fetch, disk, hashers) == Success(false)
  {
  }

  // ---------------------------------------------------------------------------------------
  // from_lpdaac
  // ---------------------------------------------------------------------------------------

  /** The string `from_lpdaac` returns: `'{0} -->\n\t{1}\n'.format(remote_file, local_file)`. */
  function TransferMessage(remote: string, local: string): (m: string)
    ensures |m| == |remote| + |local| + 7
    ensures m[..|remote|] == remote && m[|remote|..|remote| + 6] == " -->\n\t"
    ensures m[|remote| + 6..|m| - 1] == local && m[|m| - 1] == '\n'
  {
    remote + " -->\n\t" + local + "\n"
  }

  /** `from_lpdaac(remote_file, local_file)`: the server's bytes for `remote` (None when the
      request fails) become the content of `local`; every other file is left as it was. */
  function FromLpdaac(remote: string, local: string, server: string -> Option<Bytes>, disk: Disk)
    : (r: Result<(Disk, string), Exception>)
    ensures server(remote).None? <==> r.Failure?
    ensures r.Failure? ==> r.error == DownloadError(remote)
    ensures r.Success? ==> local in r.value.0 && r.value.0[local] == server(remote).value
    ensures r.Success? ==> forall p :: p in disk && p != local ==> p in r.value.0 && r.value.0[p] == disk[p]
    ensures r.Success? ==> r.value.0.Keys == disk.Keys + {local}
  {
    match server(remote)
    case None => Failure(DownloadError(remote))
    case Some(content) => Success((disk[local := content], TransferMessage(remote, local)))
  }
}
