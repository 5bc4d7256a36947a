/** One download as server/torrentService.js keeps it: the record, the status payload the download
    daemon (aria2) returns for it, and the pure per-record steps of TorrentManager: creating a record
    from a payload, updating a record from a payload, cloning a parent for a follower download,
    triggering the library rescan, and summarising a record for the API. */
module Downloads {
  import opened Wrappers
  import opened Text
  import opened JsNumbers
  import opened Aria
  import opened Magnet
  import opened Paths

  /** A file of a download: its absolute path, its path relative to the media directory, its size. */
  datatype FinalFile = FinalFile(absolute: string, relative: string, size: Option<int>)

  /** A tracked download. The source's `gid` field always equals `id` and is not kept. */
  datatype Record = Record(
    id: string,
    magnet: Option<string>,
    infoHash: Option<string>,
    name: string,
    provider: string,
    size: Option<real>,
    status: Status,
    progress: real,
    downloadSpeed: int,
    uploadSpeed: int,
    eta: Option<int>,
    peers: int,
    bytesDownloaded: int,
    addedAt: string,
    completedAt: Option<string>,
    error: Option<string>,
    finalFiles: seq<FinalFile>,
    finalPath: string,
    libraryRefreshAt: Option<string>,
    rescanTriggered: bool,
    finalized: bool,
    isMetadataStub: bool,
    parentGid: Option<string>)

  /** A file entry of a tellStatus reply. */
  datatype PayloadFile = PayloadFile(path: string, length: string, completedLength: string)

  /** A tellStatus reply. Absent string fields are "", an absent file list is None, and
      `torrentName` is bittorrent.info.name. */
  datatype Payload = Payload(
    gid: string,
    status: string,
    totalLength: string,
    completedLength: string,
    downloadSpeed: string,
    uploadSpeed: string,
    connections: string,
    numSeeders: string,
    errorMessage: AriaError,
    dir: string,
    files: Option<seq<PayloadFile>>,
    followedBy: seq<string>,
    infoHash: string,
    torrentName: string)

  /** What a step needs from the manager and the outside world: the media directory, the download
      directory under it, the working directory paths are resolved against, whether a library
      manager is attached, the clock reading (an ISO time stamp), and the trackers built magnet
      links carry (DEFAULT_TRACKERS; see TorrentManager). */
  datatype Env = Env(mediaDir: string, downloadRoot: string, cwd: string, hasLibrary: bool, now: string,
                     trackers: seq<string>)

  /** A string-or-null field that JavaScript treats as true. */
  predicate Truthy(o: Option<string>) { o.Some? && o.value != "" }

  /** `a || b` for strings. */
  function Or(a: string, b: string): string
  {
    if a != "" then a else b
  }

  function Max(a: int, b: int): int { if a >= b then a else b }

  /** `Number.parseInt(s || '0', 10) || 0` */
  function IntField(s: string): int {
    ParseIntOrZero(Or(s, "0"))
  }

  /** The facts every writer of a record keeps: `finalized` is exactly "completed or cancelled",
      no record is ever a metadata stub, and a rescan is only triggered for a record already stamped
      as completed. */
  predicate Consistent(r: Record) {
    r.finalized == IsFinal(r.status) && !r.isMetadataStub && (r.rescanTriggered ==> r.completedAt.Some?)
  }

  /** The follower ids of a payload: followedBy without empty entries. */
  function Followers(p: Payload): (fs: seq<string>)
    ensures forall i :: 0 <= i < |fs| ==> fs[i] != "" && fs[i] in p.followedBy
  {
    NonEmpty(p.followedBy)
  }

  /** The name createRecordFromStatus gives a download it did not start itself. */
  function NameFromStatus(p: Payload, gid: string): string {
    Or(p.torrentName,
       if p.files.Some? && |p.files.value| > 0 && p.files.value[0].path != "" then Basename(p.files.value[0].path)
       else "İndirme " + gid)
  }

  /** createRecordFromStatus: null without a payload or an id; otherwise a record of a download found
      in the daemon, with the mapped status, the lower-cased info hash and a magnet link built from it. */
  function CreateRecordFromStatus(env: Env, status: Option<Payload>, gid: string): (r: Option<Record>)
    ensures r.None? <==> status.None? || gid == ""
    ensures r.Some? ==> r.value.id == gid && Consistent(r.value) && r.value.parentGid.None?
    ensures r.Some? ==> r.value.status == MapAriaStatus(status.value.status)
    ensures r.Some? ==> (r.value.completedAt.Some? <==> r.value.status == Completed)
    ensures r.Some? ==> (r.value.infoHash.Some? <==> status.value.infoHash != "")
    ensures r.Some? && r.value.infoHash.Some? ==>
      r.value.infoHash.value == Lower(status.value.infoHash) && r.value.magnet.Some?
      && StartsWith(r.value.magnet.value, MagnetPrefix + r.value.infoHash.value)
    ensures r.Some? && r.value.infoHash.None? ==> r.value.magnet.None?
    ensures r.Some? ==> r.value.provider == "unknown" && r.value.progress == 0.0 && r.value.error.None?
    ensures r.Some? ==> (r.value.size.None? <==> IntField(status.value.totalLength) == 0)
  {
    if status.None? || gid == "" then None
    else
      var p := status.value;
      var total := IntField(p.totalLength);
      var completed := IntField(p.completedLength);
      var mapped := MapAriaStatus(p.status);
      var infoHash: Option<string> := if p.infoHash != "" then Some(Lower(p.infoHash)) else None;
      var name := NameFromStatus(p, gid);
      Some(Record(
        id := gid,
        magnet := if infoHash.Some? then BuildMagnetLinkWith(infoHash, name, env.trackers) else None,
        infoHash := infoHash,
        name := name,
        provider := "unknown",
        size := if total != 0 then Some(total as real) else None,
        status := mapped,
        progress := 0.0,
        downloadSpeed := 0,
        uploadSpeed := 0,
        eta := None,
        peers := 0,
        bytesDownloaded := completed,
        addedAt := env.now,
        completedAt := if mapped == Completed then Some(env.now) else None,
        error := None,
        finalFiles := [],
        finalPath := Or(p.dir, env.downloadRoot),
        libraryRefreshAt := None,
        rescanTriggered := false,
        finalized := IsFinal(mapped),
        isMetadataStub := false,
        parentGid := None))
  }

  /** The record a follower download (the real torrent behind a metadata download) starts from: the
      parent's description with a fresh state. */
  function CloneForFollower(parent: Record, childId: string): (c: Record)
    ensures Consistent(c)
    ensures c.id == childId && c.parentGid == Some(parent.id)
    ensures c.status == Starting && c.progress == 0.0 && c.downloadSpeed == 0 && c.uploadSpeed == 0
    ensures c.peers == 0 && c.bytesDownloaded == 0 && c.eta.None? && c.error.None? && c.completedAt.None?
    ensures c.finalFiles == [] && !c.rescanTriggered
    ensures c.name == parent.name && c.provider == parent.provider && c.size == parent.size
    ensures c.addedAt == parent.addedAt && c.finalPath == parent.finalPath
    ensures c.infoHash == (if Truthy(parent.infoHash) then parent.infoHash else None)
    ensures c.magnet == (if Truthy(parent.magnet) then parent.magnet else None)
  {
    parent.(
      id := childId,
      status := Starting,
      progress := 0.0,
      downloadSpeed := 0,
      uploadSpeed := 0,
      bytesDownloaded := 0,
      eta := None,
      peers := 0,
      completedAt := None,
      error := None,
      finalFiles := [],
      parentGid := Some(parent.id),
      infoHash := if Truthy(parent.infoHash) then parent.infoHash else None,
      magnet := if Truthy(parent.magnet) then parent.magnet else None,
      isMetadataStub := false,
      rescanTriggered := false,
      finalized := false)
  }

  /** triggerRescan: asks the library manager for a forced scan unless there is none or this record
      already asked; the record remembers that it asked. The second component says whether a scan
      was requested. */
  function TriggerRescan(hasLibrary: bool, r: Record): (out: (Record, bool))
    ensures out.1 <==> hasLibrary && !r.rescanTriggered
    ensures out.0.rescanTriggered == (r.rescanTriggered || hasLibrary)
    ensures out.0 == r.(rescanTriggered := out.0.rescanTriggered)
  {
    if !hasLibrary || r.rescanTriggered then (r, false) else (r.(rescanTriggered := true), true)
  }

  /** The files of a payload as the record lists them. A file's relative path is its path relative to
      the media directory, or its base name when that is empty; its size is the first non-empty of
      length and completedLength, null when it reads as 0. */
  function FinalFiles(env: Env, files: seq<PayloadFile>): (r: seq<FinalFile>)
    ensures |r| == |files|
    ensures forall i :: 0 <= i < |files| ==> r[i].absolute == files[i].path
    ensures forall i :: 0 <= i < |files| ==> r[i].size != Some(0)
  {
    seq(|files|, i requires 0 <= i < |files| =>
      var f := files[i];
      var n := IntField(Or(f.length, f.completedLength));
      FinalFile(f.path, Or(Relative(env.cwd, env.mediaDir, f.path), Basename(f.path)), if n == 0 then None else Some(n)))
  }

  /** The estimated seconds left: Math.max(0, Math.round((total - completed) / speed)) when the speed
      and the total are positive, else null. */
  function Eta(total: int, completed: int, speed: int): (e: Option<int>)
    ensures e.Some? <==> speed > 0 && total > 0
    ensures e.Some? ==> e.value >= 0
    ensures e.Some? && e.value > 0 ==>
      e.value as real - 0.5 <= (total - completed) as real / speed as real < e.value as real + 0.5
    ensures e.Some? && e.value == 0 ==> (total - completed) as real / speed as real < 0.5
  {
    if speed > 0 && total > 0 then Some(Max(0, Round((total - completed) as real / speed as real))) else None
  }

  /** The fraction done: completed / total when the total is known, else 1 for a completed download and
      0 otherwise. It is not clamped to [0, 1]. */
  function Progress(total: int, completed: int, native: string): (p: real)
    ensures total > 0 ==> p * total as real == completed as real
    ensures total <= 0 ==> p == if native == "complete" then 1.0 else 0.0
  {
    if total > 0 then completed as real / total as real else if native == "complete" then 1.0 else 0.0
  }

  /** The counters and the state of a record read from a payload. */
  function ReadCounters(r: Record, p: Payload): (u: Record)
    ensures var total := IntField(p.totalLength); var completed := IntField(p.completedLength);
      u == r.(status := u.status, size := u.size, bytesDownloaded := u.bytesDownloaded,
              downloadSpeed := u.downloadSpeed, uploadSpeed := u.uploadSpeed, progress := u.progress,
              peers := u.peers, eta := u.eta, error := u.error)
      && u.status == MapAriaStatus(p.status)
      && u.progress == Progress(total, completed, p.status)
      && u.eta == Eta(total, completed, IntField(p.downloadSpeed))
      && u.bytesDownloaded == completed
      && u.downloadSpeed == IntField(p.downloadSpeed) && u.uploadSpeed == IntField(p.uploadSpeed)
      && u.size == (if total != 0 then Some(total as real) else if r.size.Some? && r.size.value != 0.0 then r.size else None)
      && u.peers == IntField(Or(p.numSeeders, p.connections))
    ensures u.error.Some? ==> u.status == Failed
    ensures u.status == Failed ==> u.error == FormatAriaError(p.errorMessage)
  {
    var total := IntField(p.totalLength);
    var completed := IntField(p.completedLength);
    var downloadSpeed := IntField(p.downloadSpeed);
    var status := MapAriaStatus(p.status);
    r.(
      status := status,
      size := if total != 0 then Some(total as real) else if r.size.Some? && r.size.value != 0.0 then r.size else None,
      bytesDownloaded := completed,
      downloadSpeed := downloadSpeed,
      uploadSpeed := IntField(p.uploadSpeed),
      progress := Progress(total, completed, p.status),
      peers := IntField(Or(p.numSeeders, p.connections)),
      eta := Eta(total, completed, downloadSpeed),
      error := if status == Failed then FormatAriaError(p.errorMessage) else None)
  }

  /** The descriptive fields a payload fills in: a missing info hash (lower-cased), a missing magnet
      link built from the info hash and the name the record had, the torrent's own name, the download
      directory and the file list. Nothing the record already knows truthily is overwritten, except
      by a non-empty name, directory or file list of the payload. */
  function ReadDescription(env: Env, r: Record, p: Payload): (u: Record)
    ensures u == r.(infoHash := u.infoHash, magnet := u.magnet, name := u.name, finalPath := u.finalPath,
                    finalFiles := u.finalFiles)
    ensures Truthy(r.infoHash) ==> u.infoHash == r.infoHash
    ensures !Truthy(r.infoHash) && p.infoHash != "" ==> u.infoHash == Some(Lower(p.infoHash))
    ensures !Truthy(r.infoHash) && p.infoHash == "" ==> u.infoHash == r.infoHash
    ensures Truthy(r.magnet) ==> u.magnet == r.magnet
    ensures !Truthy(r.magnet) && Truthy(u.infoHash) ==>
      u.magnet.Some? && StartsWith(u.magnet.value, MagnetPrefix + u.infoHash.value)
    ensures !Truthy(r.magnet) && !Truthy(u.infoHash) ==> u.magnet == r.magnet
    ensures p.torrentName != "" ==> u.name == p.torrentName
    ensures p.torrentName == "" ==> u.name == r.name
    ensures p.dir != "" ==> u.finalPath == p.dir
    ensures p.dir == "" ==> u.finalPath == r.finalPath
    ensures p.files.Some? ==> |u.finalFiles| == |p.files.value|
    ensures p.files.Some? ==> forall i :: 0 <= i < |p.files.value| ==> u.finalFiles[i].absolute == p.files.value[i].path
    ensures p.files.None? ==> u.finalFiles == r.finalFiles
  {
    var infoHash := if !Truthy(r.infoHash) && p.infoHash != "" then Some(Lower(p.infoHash)) else r.infoHash;
    r.(
      infoHash := infoHash,
      magnet := if !Truthy(r.magnet) && Truthy(infoHash) then BuildMagnetLinkWith(infoHash, r.name, env.trackers) else r.magnet,
      name := Or(p.torrentName, r.name),
      finalPath := Or(p.dir, r.finalPath),
      finalFiles := if p.files.Some? then FinalFiles(env, p.files.value) else r.finalFiles)
  }

  /** A hexadecimal digest in either case, as the daemon reports info hashes. */
  predicate IsHex(h: string) {
    forall i :: 0 <= i < |h| ==> IsDigit(h[i]) || ('a' <= h[i] <= 'f') || ('A' <= h[i] <= 'F')
  }

  /** A record that learns its info hash from a payload gets a magnet link from which extractInfoHash
      reads that same info hash back. */
  lemma DescribedMagnetCarriesHash(env: Env, r: Record, p: Payload)
    requires !Truthy(r.magnet) && !Truthy(r.infoHash) && p.infoHash != "" && IsHex(p.infoHash)
    ensures var u := ReadDescription(env, r, p);
      u.infoHash == Some(Lower(p.infoHash)) && u.magnet.Some? && ExtractInfoHash(u.magnet) == u.infoHash
  {
    var h := Lower(p.infoHash);
    assert IsLowerHex(h) by {
      forall i | 0 <= i < |h| ensures IsDigit(h[i]) || ('a' <= h[i] <= 'f') {
        assert h[i] == LowerChar(p.infoHash[i]);
      }
    }
    ExtractBuildRoundTripWith(h, r.name, env.trackers);
  }

  /** Completion: a completed record without a completion time is stamped with the clock and triggers
      the rescan; then `finalized` is recomputed. The second component says whether a scan was requested. */
  function Finish(env: Env, r: Record): (out: (Record, bool))
    ensures out.0 == r.(completedAt := out.0.completedAt, rescanTriggered := out.0.rescanTriggered,
                        finalized := out.0.finalized)
    ensures out.0.finalized == IsFinal(r.status)
    ensures out.0.completedAt == if r.status == Completed && !Truthy(r.completedAt) then Some(env.now) else r.completedAt
    ensures out.1 <==> r.status == Completed && !Truthy(r.completedAt) && env.hasLibrary && !r.rescanTriggered
    ensures out.0.rescanTriggered == (r.rescanTriggered || out.1)
  {
    var stamp := r.status == Completed && !Truthy(r.completedAt);
    var r7 := if stamp then r.(completedAt := Some(env.now)) else r;
    var triggered := if stamp then TriggerRescan(env.hasLibrary, r7) else (r7, false);
    (triggered.0.(finalized := IsFinal(triggered.0.status)), triggered.1)
  }

  /** The update refreshDownloadStatuses applies to a tracked record for a payload without followers.
      The second component says whether a library scan was requested. */
  function ApplyStatus(env: Env, r: Record, p: Payload): (out: (Record, bool))
    ensures var u := out.0;
      u.id == r.id && u.parentGid == r.parentGid && u.provider == r.provider && u.addedAt == r.addedAt
      && u.isMetadataStub == r.isMetadataStub && u.libraryRefreshAt == r.libraryRefreshAt
    ensures var u := out.0; var total := IntField(p.totalLength); var completed := IntField(p.completedLength);
      u.status == MapAriaStatus(p.status)
      && u.progress == Progress(total, completed, p.status)
      && u.eta == Eta(total, completed, IntField(p.downloadSpeed))
      && u.bytesDownloaded == completed
      && u.size == (if total != 0 then Some(total as real) else if r.size.Some? && r.size.value != 0.0 then r.size else None)
      && u.peers == IntField(Or(p.numSeeders, p.connections))
    ensures out.0.error.Some? ==> out.0.status == Failed
    ensures out.0.status == Failed ==> out.0.error == FormatAriaError(p.errorMessage)
    ensures out.0.finalized == IsFinal(out.0.status)
    ensures out.0.completedAt == if out.0.status == Completed && !Truthy(r.completedAt) then Some(env.now) else r.completedAt
    ensures out.1 <==> out.0.status == Completed && !Truthy(r.completedAt) && env.hasLibrary && !r.rescanTriggered
    ensures out.0.rescanTriggered == (r.rescanTriggered || out.1)
    ensures Truthy(r.infoHash) ==> out.0.infoHash == r.infoHash
    ensures !Truthy(r.infoHash) && p.infoHash != "" ==> out.0.infoHash == Some(Lower(p.infoHash))
    ensures out.0.name == Or(p.torrentName, r.name)
    ensures out.0.finalPath == Or(p.dir, r.finalPath)
    ensures out.0.finalFiles == if p.files.Some? then FinalFiles(env, p.files.value) else r.finalFiles
    ensures Consistent(r) ==> Consistent(out.0)
  {
    Finish(env, ReadDescription(env, ReadCounters(r, p), p))
  }

  /** The number of library scans requested while one record is updated with a run of payloads, each
      with its own clock reading. */
  function ScansOver(r: Record, steps: seq<(Env, Payload)>): nat
    decreases |steps|
  {
    if steps == [] then 0
    else
      var out := ApplyStatus(steps[0].0, r, steps[0].1);
      (if out.1 then 1 else 0) + ScansOver(out.0, steps[1..])
  }

  /** However often a record is refreshed, it requests at most one library scan, none once it has
      requested one, and none without a library manager. */
  lemma {:induction false} RescanAtMostOnce(r: Record, steps: seq<(Env, Payload)>, hasLibrary: bool)
    requires forall i :: 0 <= i < |steps| ==> steps[i].0.hasLibrary == hasLibrary
    ensures ScansOver(r, steps) <= if r.rescanTriggered || !hasLibrary then 0 else 1
    decreases |steps|
  {
    if steps != [] {
      var out := ApplyStatus(steps[0].0, r, steps[0].1);
      RescanAtMostOnce(out.0, steps[1..], hasLibrary);
    }
  }

  /** The record as the API returns it. */
  datatype Summary = Summary(
    id: string,
    name: string,
    provider: string,
    status: Status,
    progress: real,
    downloadSpeed: int,
    uploadSpeed: int,
    bytesDownloaded: int,
    size: Option<int>,
    eta: Option<int>,
    peers: int,
    addedAt: string,
    completedAt: Option<string>,
    error: Option<string>,
    finalFiles: seq<FinalFile>,
    finalPath: Option<string>,
    libraryRefreshAt: Option<string>)

  /** Number(x.toFixed(4)): x rounded to four decimals, halves away from zero. */
  function ToFixed4(x: real): (y: real)
    ensures -0.00005 <= y - x <= 0.00005
  {
    if x >= 0.0 then Round(x * 10000.0) as real / 10000.0 else -(Round(-x * 10000.0) as real / 10000.0)
  }

  /** summarize: the public fields of a record; counters are never negative and absent values are null. */
  function Summarize(r: Record): (s: Summary)
    ensures s.id == r.id && s.name == r.name && s.provider == r.provider && s.status == r.status
    ensures s.downloadSpeed >= 0 && s.uploadSpeed >= 0 && s.bytesDownloaded >= 0 && s.peers >= 0
    ensures s.downloadSpeed == Max(0, r.downloadSpeed) && s.peers == Max(0, r.peers)
    ensures s.uploadSpeed == Max(0, r.uploadSpeed) && s.bytesDownloaded == Max(0, r.bytesDownloaded)
    ensures -0.00005 <= s.progress - r.progress <= 0.00005
    ensures s.size.Some? <==> r.size.Some? && r.size.value != 0.0
    ensures s.size.Some? ==> s.size.value >= 0 && s.size.value == Max(0, Round(r.size.value))
    ensures s.size.Some? && r.size.value >= 0.0 ==> s.size.value as real - 0.5 <= r.size.value < s.size.value as real + 0.5
    ensures s.finalPath.Some? <==> r.finalPath != ""
    ensures s.finalPath.Some? ==> s.finalPath.value == r.finalPath
    ensures s.libraryRefreshAt.Some? <==> Truthy(r.libraryRefreshAt)
    ensures s.libraryRefreshAt.Some? ==> s.libraryRefreshAt == r.libraryRefreshAt
    ensures s.eta.Some? <==> r.eta.Some?
    ensures s.eta.Some? ==> s.eta.value == Max(0, r.eta.value)
    ensures s.error.Some? <==> Truthy(r.error)
    ensures s.error.Some? ==> s.error == r.error
    ensures s.finalFiles == r.finalFiles && s.completedAt == r.completedAt && s.addedAt == r.addedAt
  {
    Summary(
      id := r.id,
      name := r.name,
      provider := r.provider,
      status := r.status,
      progress := ToFixed4(r.progress),
      downloadSpeed := Max(0, r.downloadSpeed),
      uploadSpeed := Max(0, r.uploadSpeed),
      bytesDownloaded := Max(0, r.bytesDownloaded),
      size := if r.size.Some? && r.size.value != 0.0 then Some(Max(0, Round(r.size.value))) else None,
      eta := if r.eta.Some? then Some(Max(0, r.eta.value)) else None,
      peers := Max(0, r.peers),
      addedAt := r.addedAt,
      completedAt := r.completedAt,
      error := if Truthy(r.error) then r.error else None,
      finalFiles := r.finalFiles,
      finalPath := if r.finalPath != "" then Some(r.finalPath) else None,
      libraryRefreshAt := if Truthy(r.libraryRefreshAt) then r.libraryRefreshAt else None)
  }
}
