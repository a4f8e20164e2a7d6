/** Syncing the granules found: each granule's local path, the rule that a granule is
    downloaded exactly when its local copy does not match the checksum the archive declares,
    the serial loop over the granule table, and the per-granule function the parallel mode
    runs. The checksum documents, the archive server and the hash function are inputs; the
    local disk is a map from paths to contents. */
module Sync {
  import opened Text
  import opened Results
  import opened Exceptions
  import opened Utilities
  import opened Search
  import PosixPath

  /** Everything outside the program a sync consults: the checksum documents, the archive
      server and the hash functions. */
  datatype Archive = Archive(fetch: string -> XmlResponse, server: string -> Option<Bytes>, hashers: Hashers)

  // ---------------------------------------------------------------------------------------
  // One granule
  // ---------------------------------------------------------------------------------------

  /** `os.path.join(DIRECTORY, args[-2], args[-1])` with `args = url_split(remote_file)`; a
      remote that starts with "//" exhausts the recursion, and one with fewer than two pieces
      has no `args[-2]`. */
  function LocalPath(directory: string, remote: string): (r: Result<string, Exception>)
    ensures DoubleSlashPrefix(remote) ==> r == Failure(RecursionLimit(remote))
    ensures !DoubleSlashPrefix(remote) ==> (r.Failure? <==> |UrlSplit(remote)| < 2)
    ensures r.Failure? && !DoubleSlashPrefix(remote) ==> r.error == IndexOutOfRange
  {
    if DoubleSlashPrefix(remote) then Failure(RecursionLimit(remote))
    else
      var args := UrlSplit(remote);
      if |args| < 2 then Failure(IndexOutOfRange)
      else Success(PosixPath.Join(PosixPath.Join(directory, args[|args| - 2]), args[|args| - 1]))
  }

  /** The checksum document of a granule: its URL with ".xml" appended. */
  function ChecksumDocument(remote: string): (r: string)
    ensures |r| == |remote| + 4 && r[..|remote|] == remote && r[|remote|..] == ".xml"
  {
    remote + ".xml"
  }

  /** For a URL `scheme//host/seg1/.../segk` with k >= 2, the local file is
      `directory/seg(k-1)/segk`: the granule's parent folder and its file name under the data
      directory. */
  lemma LocalPathOfUrl(directory: string, scheme: string, host: string, segs: seq<string>)
    requires directory != "" && directory[|directory| - 1] != '/'
    requires IsSchemeHead(scheme) && IsSegment(host)
    requires |segs| >= 2 && forall i :: 0 <= i < |segs| ==> IsSegment(segs[i])
    ensures LocalPath(directory, Join([scheme + "//" + host] + segs, '/'))
      == Success(directory + "/" + segs[|segs| - 2] + "/" + segs[|segs| - 1])
  {
    UrlSplitOfUrl(scheme, host, segs);
    LocalPathOfPieces(directory, Join([scheme + "//" + host] + segs, '/'), scheme + "//" + host, segs);
  }

  lemma LocalPathOfPieces(directory: string, remote: string, base: string, segs: seq<string>)
    requires directory != "" && directory[|directory| - 1] != '/'
    requires !DoubleSlashPrefix(remote) && UrlSplit(remote) == [base] + segs
    requires |segs| >= 2 && IsSegment(segs[|segs| - 2]) && IsSegment(segs[|segs| - 1])
    ensures LocalPath(directory, remote) == Success(directory + "/" + segs[|segs| - 2] + "/" + segs[|segs| - 1])
  {
    LastTwo(base, segs);
    JoinTwice(directory, segs[|segs| - 2], segs[|segs| - 1]);
  }

  /** The last two pieces after a first one are the last two of the rest. */
  lemma LastTwo(base: string, segs: seq<string>)
    requires |segs| >= 2
    ensures var args := [base] + segs;
      args[|args| - 2] == segs[|segs| - 2] && args[|args| - 1] == segs[|segs| - 1]
  {
  }

  /** Joining two components onto a directory puts one '/' before each. */
  lemma JoinTwice(directory: string, folder: string, name: string)
    requires directory != "" && directory[|directory| - 1] != '/'
    requires IsSegment(folder) && IsSegment(name)
    ensures PosixPath.Join(PosixPath.Join(directory, folder), name) == directory + "/" + folder + "/" + name
  {
    JoinComponent(directory, folder);
    JoinComponent(directory + "/" + folder, name);
  }

  /** Splitting such a local path twice gives back the file name, the folder and the data
      directory. */
  lemma LocalPathSplits(directory: string, folder: string, name: string)
    requires directory != "" && directory[|directory| - 1] != '/'
    requires IsSegment(folder) && IsSegment(name)
    ensures PosixPath.Split(directory + "/" + folder + "/" + name) == (directory + "/" + folder, name)
    ensures PosixPath.Split(directory + "/" + folder) == (directory, folder)
  {
    JoinComponent(directory, folder);
    SplitAfterSlash(directory + "/" + folder, name);
    SplitAfterSlash(directory, folder);
  }


  /** Joining a directory that does not end with '/' and one component puts a '/' between;
      the result again does not end with '/'. */
  lemma JoinComponent(directory: string, x: string)
    requires directory != "" && directory[|directory| - 1] != '/'
    requires IsSegment(x)
    ensures PosixPath.Join(directory, x) == directory + "/" + x
    ensures var p := directory + "/" + x; p[|p| - 1] != '/'
  {
    assert x[0] != '/';
    var p := directory + "/" + x;
    assert p[|p| - 1] == x[|x| - 1];
  }

  /** One pass of the serial loop: compute the local path, compare the checksums, and
      download when they differ. The second component says whether a download happened. */
  function SyncGranule(directory: string, remote: string, archive: Archive, disk: Disk)
    : (r: Result<(Disk, bool), Exception>)
    ensures r.Success? ==> LocalPath(directory, remote).Success?
    ensures r.Success? && !r.value.1 ==> r.value.0 == disk
  {
    match LocalPath(directory, remote)
    case Failure(e) => Failure(e)
    case Success(local) =>
      match CompareChecksums(ChecksumDocument(remote), local, archive.fetch, disk, archive.hashers)
      case Failure(e) => Failure(e)
      case Success(same) =>
        if same then Success((disk, false))
        else
          match FromLpdaac(remote, local, archive.server, disk)
          case Failure(e) => Failure(e)
          case Success(transfer) => Success((transfer.0, true))
  }

  /** A granule is downloaded exactly when the checksums differ, and then the local file
      takes the server's bytes; a matching granule leaves the disk as it is. Errors of the
      path, of the comparison and of the download propagate. */
  lemma SyncGranuleRule(directory: string, remote: string, archive: Archive, disk: Disk)
    ensures var r := SyncGranule(directory, remote, archive, disk);
      LocalPath(directory, remote).Failure? ==> r == Failure(LocalPath(directory, remote).error)
    ensures var r := SyncGranule(directory, remote, archive, disk);
      LocalPath(directory, remote).Success? ==>
      var local := LocalPath(directory, remote).value;
      var same := CompareChecksums(ChecksumDocument(remote), local, archive.fetch, disk, archive.hashers);
      (same.Failure? ==> r == Failure(same.error))
      && (r.Success? ==> (r.value.1 <==> same == Success(false)))
      && (same == Success(true) ==> r == Success((disk, false)))
      && (same == Success(false) && archive.server(remote).None? ==> r == Failure(DownloadError(remote)))
      && (same == Success(false) && archive.server(remote).Some? ==>
            r == Success((disk[local := archive.server(remote).value], true)))
  {
    var path := LocalPath(directory, remote);
    if path.Success? {
      var local := path.value;
      var same := CompareChecksums(ChecksumDocument(remote), local, archive.fetch, disk, archive.hashers);
      if same == Success(false) && archive.server(remote).Some? {
        var content := archive.server(remote).value;
        assert FromLpdaac(remote, local, archive.server, disk) == Success((disk[local := content], TransferMessage(remote, local)));
      }
    }
  }

  /** What one pass of the loop does to the disk, for a given remote file. */
  type Step = (string, Disk) -> Result<(Disk, bool), Exception>

  /** The serial loop's pass, with the data directory and the archive fixed. */
  function GranuleStep(directory: string, archive: Archive): Step
  {
    (remote: string, disk: Disk) => SyncGranule(directory, remote, archive, disk)
  }

  /** `multiprocess_sync(remote_file, local_file)`: like one serial pass, except that a
      failed download is reported and swallowed. It returns the transfer string only after a
      download; a skipped granule and a failed download both give None. Errors of the
      checksum comparison are not caught. */
  function MultiprocessSync(remote: string, local: string, archive: Archive, disk: Disk)
    : (r: Result<(Disk, Option<string>), Exception>)
    ensures var same := CompareChecksums(ChecksumDocument(remote), local, archive.fetch, disk, archive.hashers);
      (r.Failure? <==> same.Failure?)
      && (r.Failure? ==> r.error == same.error)
      && (r.Success? ==> (r.value.1.Some? <==> same == Success(false) && archive.server(remote).Some?))
      && (r.Success? && r.value.1.Some? ==>
            r.value.1.value == TransferMessage(remote, local) && r.value.0 == disk[local := archive.server(remote).value])
      && (r.Success? && r.value.1.None? ==> r.value.0 == disk)
  {
    match CompareChecksums(ChecksumDocument(remote), local, archive.fetch, disk, archive.hashers)
    case Failure(e) => Failure(e)
    case Success(same) =>
      if same then Success((disk, None))
      else
        match FromLpdaac(remote, local, archive.server, disk)
        case Failure(_) => Success((disk, None))
        case Success(transfer) => Success((transfer.0, Some(transfer.1)))
  }

  /** The parallel unit and the serial pass agree on the disk they leave; they differ only in
      that the parallel unit swallows a download error, and it reports a transfer exactly when
      the serial pass downloads. */
  lemma MultiprocessAgreesWithSerial(directory: string, remote: string, archive: Archive, disk: Disk)
    requires LocalPath(directory, remote).Success?
    ensures var serial := SyncGranule(directory, remote, archive, disk);
      var parallel := MultiprocessSync(remote, LocalPath(directory, remote).value, archive, disk);
      (serial.Success? ==> parallel.Success? && parallel.value.0 == serial.value.0
                           && (parallel.value.1.Some? <==> serial.value.1))
      && (serial.Failure? && serial.error.DownloadError? ==> parallel == Success((disk, None)))
      && (serial.Failure? && !serial.error.DownloadError? ==> parallel == Failure(serial.error))
  {
    var local := LocalPath(directory, remote).value;
    var same := CompareChecksums(ChecksumDocument(remote), local, archive.fetch, disk, archive.hashers);
    SyncGranuleRule(directory, remote, archive, disk);
    if same.Failure? {
      assert !same.error.DownloadError?;
    } else if same.value && archive.server(remote).Some? {
      assert MultiprocessSync(remote, local, archive, disk).value.1.None?;
    }
  }

  // ---------------------------------------------------------------------------------------
  // The serial loop
  // ---------------------------------------------------------------------------------------

  /** The outcome of syncing and the remote files downloaded, in order. */
  datatype SyncRun = SyncRun(outcome: Result<Disk, Exception>, downloaded: seq<string>)

  /** Sync the remote files from index `from` on, one after another; the first error ends
      the loop. */
  function SyncAll(step: Step, remotes: seq<string>, from: nat, disk: Disk): (run: SyncRun)
    ensures from <= |remotes| ==> |run.downloaded| <= |remotes| - from
    decreases |remotes| - from
  {
    if |remotes| <= from then SyncRun(Success(disk), [])
    else
      match step(remotes[from], disk)
      case Failure(e) => SyncRun(Failure(e), [])
      case Success(pass) =>
        var rest := SyncAll(step, remotes, from + 1, pass.0);
        SyncRun(rest.outcome, (if pass.1 then [remotes[from]] else []) + rest.downloaded)
  }

  /** The remote files of the table, in its order. */
  function Urls(names: seq<string>, entries: map<string, Granule>): (urls: seq<string>)
    requires forall i :: 0 <= i < |names| ==> names[i] in entries
    ensures |urls| == |names|
  {
    seq(|names|, i requires 0 <= i < |names| => entries[names[i]].url)
  }

  /** A run with some downloads already made before it. */
  function Prefixed(done: seq<string>, run: SyncRun): SyncRun
  {
    SyncRun(run.outcome, done + run.downloaded)
  }

  /** `for key,val in granules.items()` with `PROCESSES == 0`: sync every granule in table
      order. There is no try/except, so the first error ends the loop. */
  method SyncInSeries(directory: string, table: GranuleTable, archive: Archive, disk: Disk)
    returns (outcome: Result<Disk, Exception>, downloaded: seq<string>)
    requires forall i :: 0 <= i < |table.names| ==> table.names[i] in table.entries
    ensures SyncRun(outcome, downloaded) == SyncAll(GranuleStep(directory, archive), Urls(table.names, table.entries), 0, disk)
  {
    outcome, downloaded := SyncEach(GranuleStep(directory, archive), Urls(table.names, table.entries), disk);
  }

  /** The loop itself: apply the pass to each remote file in turn, collecting the ones
      downloaded, and stop at the first error. */
  method SyncEach(step: Step, remotes: seq<string>, disk: Disk)
    returns (outcome: Result<Disk, Exception>, downloaded: seq<string>)
    ensures SyncRun(outcome, downloaded) == SyncAll(step, remotes, 0, disk)
  {
    ghost var whole := SyncAll(step, remotes, 0, disk);
    var current := disk;
    downloaded := [];
    var i := 0;
    while i < |remotes|
      invariant 0 <= i <= |remotes|
      invariant whole == Prefixed(downloaded, SyncAll(step, remotes, i, current))
    {
      var pass := step(remotes[i], current);
      SeriesStep(step, remotes, i, current, downloaded);
      if pass.Failure? {
        return Failure(pass.error), downloaded;
      }
      current := pass.value.0;
      if pass.value.1 {
        downloaded := downloaded + [remotes[i]];
      }
      i := i + 1;
    }
    assert downloaded + [] == downloaded;
    outcome := Success(current);
  }

  /** One turn of the serial loop: the run that remains at entry `i` is the pass over that
      remote file followed by the run over the entries after it. */
  lemma SeriesStep(step: Step, remotes: seq<string>, i: nat, disk: Disk, done: seq<string>)
    requires i < |remotes|
    ensures var pass := step(remotes[i], disk);
      var run := Prefixed(done, SyncAll(step, remotes, i, disk));
      (pass.Failure? ==> run == SyncRun(Failure(pass.error), done))
      && (pass.Success? && pass.value.1 ==>
            run == Prefixed(done + [remotes[i]], SyncAll(step, remotes, i + 1, pass.value.0)))
      && (pass.Success? && !pass.value.1 ==>
            run == Prefixed(done, SyncAll(step, remotes, i + 1, pass.value.0)))
  {
    var pass := step(remotes[i], disk);
    assert done + [] == done;
    if pass.Success? {
      var rest := SyncAll(step, remotes, i + 1, pass.value.0);
      assert done + ((if pass.value.1 then [remotes[i]] else []) + rest.downloaded)
          == (done + (if pass.value.1 then [remotes[i]] else [])) + rest.downloaded;
      assert done + [] == done;
    }
  }

  // ---------------------------------------------------------------------------------------
  // Running the sync twice
  // ---------------------------------------------------------------------------------------

  /** The archive is consistent for a remote file: its checksum document parses to one
      checksum, the file can be fetched, and its MD5 is that checksum. */
  predicate Consistent(remote: string, archive: Archive) {
    var doc := archive.fetch(ChecksumDocument(remote));
    doc.Parsed? && |doc.checksums| == 1 && archive.server(remote).Some?
    && archive.hashers.md5(archive.server(remote).value) == doc.checksums[0]
  }

  /** The local copy of a remote file matches the checksum the archive declares for it. */
  predicate InSync(directory: string, remote: string, archive: Archive, disk: Disk) {
    var doc := archive.fetch(ChecksumDocument(remote));
    LocalPath(directory, remote).Success? && doc.Parsed? && |doc.checksums| == 1
    && LocalMd5(LocalPath(directory, remote).value, disk, archive.hashers) == doc.checksums[0]
  }

  /** Every remote file has a local path, and no two share one. */
  predicate DistinctLocalPaths(directory: string, remotes: seq<string>) {
    (forall i :: 0 <= i < |remotes| ==> LocalPath(directory, remotes[i]).Success?)
    && (forall i, j :: 0 <= i < j < |remotes| ==> LocalPath(directory, remotes[i]) != LocalPath(directory, remotes[j]))
  }

  /** After one pass over a consistent archive the local copy matches. */
  lemma SyncGranuleEstablishes(directory: string, remote: string, archive: Archive, disk: Disk)
    requires Consistent(remote, archive) && LocalPath(directory, remote).Success?
    ensures GranuleStep(directory, archive)(remote, disk).Success?
    ensures InSync(directory, remote, archive, GranuleStep(directory, archive)(remote, disk).value.0)
  {
    SyncGranuleRule(directory, remote, archive, disk);
  }

  /** A successful pass writes at most the local path of its remote file. */
  lemma SyncGranuleFrame(directory: string, remote: string, archive: Archive, disk: Disk, p: string)
    requires GranuleStep(directory, archive)(remote, disk).Success?
    requires LocalPath(directory, remote) != Success(p)
    ensures var after := GranuleStep(directory, archive)(remote, disk).value.0;
      (p in after <==> p in disk) && (p in disk ==> after[p] == disk[p])
  {
    SyncGranuleRule(directory, remote, archive, disk);
  }

  /** The loop writes only the local paths of its remote files. */
  lemma {:induction false} SyncAllFrame(directory: string, remotes: seq<string>, from: nat, archive: Archive,
                                        disk: Disk, p: string)
    requires SyncAll(GranuleStep(directory, archive), remotes, from, disk).outcome.Success?
    requires forall i :: from <= i < |remotes| ==> LocalPath(directory, remotes[i]) != Success(p)
    ensures var after := SyncAll(GranuleStep(directory, archive), remotes, from, disk).outcome.value;
      (p in after <==> p in disk) && (p in disk ==> after[p] == disk[p])
    decreases |remotes| - from
  {
    if from < |remotes| {
      var step := GranuleStep(directory, archive);
      SyncGranuleFrame(directory, remotes[from], archive, disk, p);
      SyncAllFrame(directory, remotes, from + 1, archive, step(remotes[from], disk).value.0, p);
    }
  }

  /** Over a consistent archive where every remote file has a local path, the run succeeds. */
  lemma {:induction false} SyncAllSucceeds(directory: string, remotes: seq<string>, from: nat, archive: Archive, disk: Disk)
    requires forall i :: from <= i < |remotes| ==> Consistent(remotes[i], archive)
    requires forall i :: from <= i < |remotes| ==> LocalPath(directory, remotes[i]).Success?
    ensures SyncAll(GranuleStep(directory, archive), remotes, from, disk).outcome.Success?
    decreases |remotes| - from
  {
    if from < |remotes| {
      var step := GranuleStep(directory, archive);
      SyncGranuleEstablishes(directory, remotes[from], archive, disk);
      SyncAllSucceeds(directory, remotes, from + 1, archive, step(remotes[from], disk).value.0);
    }
  }

  /** After a run over a consistent archive with distinct local paths, every local copy
      matches its checksum. */
  lemma {:induction false} SyncAllEstablishes(directory: string, remotes: seq<string>, from: nat, archive: Archive, disk: Disk)
    requires forall i :: from <= i < |remotes| ==> Consistent(remotes[i], archive)
    requires DistinctLocalPaths(directory, remotes)
    ensures SyncAll(GranuleStep(directory, archive), remotes, from, disk).outcome.Success?
    ensures forall i :: from <= i < |remotes| ==>
      InSync(directory, remotes[i], archive, SyncAll(GranuleStep(directory, archive), remotes, from, disk).outcome.value)
    decreases |remotes| - from
  {
    SyncAllSucceeds(directory, remotes, from, archive, disk);
    if from < |remotes| {
      var step := GranuleStep(directory, archive);
      SyncGranuleEstablishes(directory, remotes[from], archive, disk);
      var d1 := step(remotes[from], disk).value.0;
      SyncAllEstablishes(directory, remotes, from + 1, archive, d1);
      FirstStaysInSync(directory, remotes, from, archive, d1);
    }
  }

  /** The file synced at `from`, once in sync, stays in sync through the rest of the run,
      whose local paths all differ from its own. */
  lemma FirstStaysInSync(directory: string, remotes: seq<string>, from: nat, archive: Archive, d1: Disk)
    requires from < |remotes| && DistinctLocalPaths(directory, remotes)
    requires InSync(directory, remotes[from], archive, d1)
    requires SyncAll(GranuleStep(directory, archive), remotes, from + 1, d1).outcome.Success?
    ensures InSync(directory, remotes[from], archive, SyncAll(GranuleStep(directory, archive), remotes, from + 1, d1).outcome.value)
  {
    var local := LocalPath(directory, remotes[from]).value;
    SyncAllFrame(directory, remotes, from + 1, archive, d1, local);
    var after := SyncAll(GranuleStep(directory, archive), remotes, from + 1, d1).outcome.value;
    InSyncDependsOnLocalFile(directory, remotes[from], archive, d1, after);
  }

  /** Whether a remote file is in sync depends only on its own local file. */
  lemma InSyncDependsOnLocalFile(directory: string, remote: string, archive: Archive, d1: Disk, d2: Disk)
    requires LocalPath(directory, remote).Success?
    requires var local := LocalPath(directory, remote).value;
      (local in d1 <==> local in d2) && (local in d1 ==> d1[local] == d2[local])
    ensures InSync(directory, remote, archive, d1) <==> InSync(directory, remote, archive, d2)
  {
  }

  /** A pass over a granule whose local copy matches downloads nothing. */
  lemma SyncGranuleInSyncIsNoop(directory: string, remote: string, archive: Archive, disk: Disk)
    requires InSync(directory, remote, archive, disk)
    ensures GranuleStep(directory, archive)(remote, disk) == Success((disk, false))
  {
    SyncGranuleRule(directory, remote, archive, disk);
  }

  /** When every local copy already matches, a run downloads nothing and changes nothing. */
  lemma {:induction false} SyncAllInSyncIsNoop(directory: string, remotes: seq<string>, from: nat, archive: Archive, disk: Disk)
    requires forall i :: from <= i < |remotes| ==> InSync(directory, remotes[i], archive, disk)
    ensures SyncAll(GranuleStep(directory, archive), remotes, from, disk) == SyncRun(Success(disk), [])
    decreases |remotes| - from
  {
    if from < |remotes| {
      SyncGranuleInSyncIsNoop(directory, remotes[from], archive, disk);
      SyncAllInSyncIsNoop(directory, remotes, from + 1, archive, disk);
    }
  }

  /** Syncing is idempotent: over a consistent archive with distinct local paths the first
      run succeeds, and a second run on the disk it leaves downloads nothing. */
  lemma SecondRunDownloadsNothing(directory: string, remotes: seq<string>, archive: Archive, disk: Disk)
    requires forall i :: 0 <= i < |remotes| ==> Consistent(remotes[i], archive)
    requires DistinctLocalPaths(directory, remotes)
    ensures SyncAll(GranuleStep(directory, archive), remotes, 0, disk).outcome.Success?
    ensures var after := SyncAll(GranuleStep(directory, archive), remotes, 0, disk).outcome.value;
      SyncAll(GranuleStep(directory, archive), remotes, 0, after) == SyncRun(Success(after), [])
  {
    SyncAllEstablishes(directory, remotes, 0, archive, disk);
    var after := SyncAll(GranuleStep(directory, archive), remotes, 0, disk).outcome.value;
    SyncAllInSyncIsNoop(directory, remotes, 0, archive, after);
  }
}
