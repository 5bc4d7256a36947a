/** The TorrentManager class of server/torrentService.js: the registry of downloads and the daemon
    flags as fields, and the commands as methods that update them in place. Every daemon call is an
    input of the method that makes it, and each method's new state is the one the specification in
    Commands and Reconcile gives. */
module Torrents {
  import opened Wrappers
  import opened Aria
  import opened Magnet
  import opened Paths
  import opened Registries
  import opened Downloads
  import opened Reconcile
  import opened Commands

  /** How the start-up of the daemon went: it runs and the RPC client connected; it could not be
      spawned (with the error's message, "" when it has none); or it was spawned but the client could
      not connect (the client is kept for HTTP calls). */
  datatype Startup = Started | SpawnFailed(message: string) | ConnectFailed

  const ErrMediaDir: string := "mediaDir parametresi zorunludur"
  const ErrStartup: string := "aria2 başlatılamadı"
  const ErrConnect: string := "aria2 RPC arayüzüne bağlanılamadı. Aracı manuel olarak başlatmayı deneyin."

  class TorrentManager {
    /** this.downloads */
    var downloads: Table
    /** The number of library scans requested so far (libraryManager.scan calls). */
    var scans: nat
    /** this.available */
    var available: bool
    /** this.aria2 is set */
    var hasClient: bool
    /** this.startupError, "" for null */
    var startupError: string
    /** this.hooksRegistered, and how many times the exit and signal handlers were installed */
    var hooksRegistered: bool
    var hookInstalls: nat

    const mediaDir: string
    const downloadRoot: string
    const cwd: string
    const hasLibrary: bool
    const trackers: seq<string>

    ghost predicate Valid()
      reads this
    {
      Wf(downloads) && hookInstalls == (if hooksRegistered then 1 else 0)
    }

    /** The environment a command sees at clock reading `now`. */
    function EnvAt(now: string): Env
      reads this
    {
      Env(mediaDir, downloadRoot, cwd, hasLibrary, now, trackers)
    }

    function GateNow(): Gate
      reads this
    {
      Gate(available, hasClient, startupError)
    }

    function StoreNow(): Store
      reads this
    {
      Store(downloads, scans)
    }

    /** The flags only start-up changes. */
    twostate predicate SameGate()
      reads this
    {
      available == old(available) && hasClient == old(hasClient) && startupError == old(startupError)
      && hooksRegistered == old(hooksRegistered) && hookInstalls == old(hookInstalls)
    }

    constructor(mediaDir: string, hasLibrary: bool, cwd: string)
      requires mediaDir != ""
      ensures Valid() && fresh(this)
      ensures this.mediaDir == mediaDir && this.hasLibrary == hasLibrary && this.cwd == cwd
      ensures downloadRoot == JoinPath(mediaDir, "downloads") && trackers == DefaultTrackers
      ensures downloads == Registry(map[], []) && scans == 0
      ensures !available && !hasClient && startupError == "" && !hooksRegistered
    {
      this.mediaDir := mediaDir;
      this.hasLibrary := hasLibrary;
      this.cwd := cwd;
      downloadRoot := JoinPath(mediaDir, "downloads");
      trackers := DefaultTrackers;
      downloads := Registry(map[], []);
      scans := 0;
      available := false;
      hasClient := false;
      startupError := "";
      hooksRegistered := false;
      hookInstalls := 0;
    }

    /** new TorrentManager({ mediaDir, libraryManager }): refused without a media directory. */
    static method New(mediaDir: string, hasLibrary: bool, cwd: string) returns (r: Result<TorrentManager>)
      ensures r.Err? <==> mediaDir == ""
      ensures r.Err? ==> r.message == ErrMediaDir
      ensures r.Ok? ==> fresh(r.value) && r.value.Valid() && r.value.mediaDir == mediaDir
                        && r.value.downloads == Registry(map[], []) && !r.value.available
    {
      if mediaDir == "" {
        return Err(ErrMediaDir);
      }
      var m := new TorrentManager(mediaDir, hasLibrary, cwd);
      return Ok(m);
    }

    /** registerShutdownHooks: the handlers are installed once, however often it is called. */
    method RegisterShutdownHooks()
      requires Valid()
      modifies this
      ensures Valid() && hooksRegistered && hookInstalls == 1
      ensures old(hooksRegistered) ==> hookInstalls == old(hookInstalls)
      ensures downloads == old(downloads) && scans == old(scans)
      ensures available == old(available) && hasClient == old(hasClient) && startupError == old(startupError)
    {
      if hooksRegistered {
        return;
      }
      hooksRegistered := true;
      hookInstalls := hookInstalls + 1;
    }

    /** initialize: start the daemon; on success mark it available, install the shutdown hooks and adopt
      the daemon's downloads; on failure keep the error message and stay unavailable. */
    method Initialize(now: string, startup: Startup, active: Listing, waiting: Listing, stopped: Listing, replies: seq<BatchReply>)
      requires Valid()
      modifies this
      ensures Valid()
      ensures startup.Started? ==> available && hasClient && hooksRegistered && startupError == old(startupError)
      ensures startup.Started? ==>
        StoreNow() == Hydrate(EnvAt(now), Gate(true, true, old(startupError)), old(StoreNow()), active, waiting, stopped, replies)
      ensures startup.SpawnFailed? ==> !available && hasClient == old(hasClient) && startupError == Or(startup.message, ErrStartup)
      ensures startup.ConnectFailed? ==> !available && hasClient && startupError == ErrConnect
      ensures !startup.Started? ==> StoreNow() == old(StoreNow()) && hooksRegistered == old(hooksRegistered)
    {
      match startup
      case SpawnFailed(m) =>
        startupError := Or(m, ErrStartup);
        available := false;
      case ConnectFailed =>
        hasClient := true;
        startupError := ErrConnect;
        available := false;
      case Started =>
        hasClient := true;
        available := true;
        RegisterShutdownHooks();
        HydrateExistingDownloads(now, active, waiting, stopped, replies);
    }

    /** ensureReady */
    method EnsureReady() returns (e: Option<string>)
      ensures e == ReadyError(GateNow())
    {
      if !available || !hasClient {
        return Some(Or(startupError, DefaultUnavailable));
      }
      return None;
    }

    /** getStatus */
    method GetStatus() returns (isAvailable: bool, message: Option<string>)
      ensures (isAvailable, message) == Commands.GetStatus(GateNow())
    {
      isAvailable := available && hasClient;
      message := if available then None else Some(Or(startupError, DefaultDisabled));
    }

    /** Deletes every id in ks (the forEach(delete) over a set of ids). */
    method DeleteEach(ks: set<string>)
      requires Valid()
      modifies this
      ensures downloads == old(downloads).DeleteAll(ks) && scans == old(scans) && SameGate()
      ensures Valid()
    {
      var pending := ks;
      ghost var before := downloads;
      while pending != {}
        invariant downloads.DeleteAll(pending) == before.DeleteAll(ks)
        invariant scans == old(scans) && SameGate()
        decreases |pending|
      {
        var k :| k in pending;
        DeleteOneThenRest(downloads, k, pending);
        downloads := downloads.Delete(k);
        pending := pending - {k};
      }
      DeleteNothing(downloads);
    }

    /** The followedBy loop: a clone of the parent for every follower that is not tracked yet. */
    method CloneFollowers(parent: Record, followers: seq<string>, children: seq<string>) returns (children': seq<string>)
      modifies this
      ensures (downloads, children') == AddFollowers(old(downloads), parent, followers, children)
      ensures scans == old(scans) && SameGate()
    {
      children' := children;
      var j := 0;
      while j < |followers|
        invariant 0 <= j <= |followers|
        invariant AddFollowers(downloads, parent, followers[j..], children') == AddFollowers(old(downloads), parent, followers, children)
        invariant scans == old(scans) && SameGate()
      {
        var c := followers[j];
        assert followers[j..][1..] == followers[j + 1..];
        if c != "" && c !in downloads.entries {
          downloads := downloads.Set(c, CloneForFollower(parent, c));
          children' := children' + [c];
        }
        j := j + 1;
      }
      assert followers[|followers|..] == [];
    }

    /** The record for gid: the tracked one, or a new one created from the reply. */
    method Track(env: Env, gid: string, reply: Option<Payload>)
      requires gid != "" && reply.Some?
      modifies this
      ensures downloads == Admit(env, old(downloads), gid, reply) && scans == old(scans) && SameGate()
    {
      if gid !in downloads.entries {
        var created := CreateRecordFromStatus(env, reply, gid);
        downloads := downloads.Set(gid, created.value);
      }
    }

    /** One iteration of the loop over the targets: skip a missing reply or id, create a record for an
        untracked id, then either replace the record by its followers or update it from the reply. */
    method ReconcileOne(env: Env, gid: string, reply: Option<Payload>, removed: set<string>, children: seq<string>)
      returns (removed': set<string>, children': seq<string>)
      modifies this
      ensures Pass(downloads, scans, removed', children') == Step(env, Pass(old(downloads), old(scans), removed, children), gid, reply)
      ensures SameGate()
    {
      removed', children' := removed, children;
      if reply.None? || gid == "" {
        return;
      }
      if Followers(reply.value) != [] {
        removed', children' := FanOutOne(env, gid, reply, removed, children);
      } else {
        UpdateOne(env, gid, reply, removed, children);
      }
    }

    /** A reply with followers: the followers get clones and the record is scheduled for deletion. */
    method FanOutOne(env: Env, gid: string, reply: Option<Payload>, removed: set<string>, children: seq<string>)
      returns (removed': set<string>, children': seq<string>)
      requires gid != "" && reply.Some? && Followers(reply.value) != []
      modifies this
      ensures Pass(downloads, scans, removed', children') == Step(env, Pass(old(downloads), old(scans), removed, children), gid, reply)
      ensures SameGate()
    {
      ghost var s := Pass(downloads, scans, removed, children);
      Track(env, gid, reply);
      var record := downloads.entries[gid];
      children' := CloneFollowers(record, Followers(reply.value), children);
      removed' := removed + {record.id};
      FanStep(env, s, gid, reply);
    }

    /** A reply without followers: the record is updated from it, and a requested scan is counted. */
    method UpdateOne(env: Env, gid: string, reply: Option<Payload>, removed: set<string>, children: seq<string>)
      requires gid != "" && reply.Some? && Followers(reply.value) == []
      modifies this
      ensures Pass(downloads, scans, removed, children) == Step(env, Pass(old(downloads), old(scans), removed, children), gid, reply)
      ensures SameGate()
    {
      ghost var s := Pass(downloads, scans, removed, children);
      Track(env, gid, reply);
      var out := ApplyStatus(env, downloads.entries[gid], reply.value);
      Save(gid, out.0, out.1);
      PlainStep(env, s, gid, reply);
    }

    /** Stores an updated record and counts the scan it may have requested. */
    method Save(gid: string, record: Record, scan: bool)
      modifies this
      ensures downloads == old(downloads).Set(gid, record) && scans == old(scans) + (if scan then 1 else 0)
      ensures SameGate()
    {
      downloads := downloads.Set(gid, record);
      if scan {
        scans := scans + 1;
      }
    }

    /** refreshDownloadStatuses(scope): the pass over the targets, the deletion of the replaced
        parents, then the refresh of the new followers. */
    method RefreshDownloadStatuses(now: string, scope: seq<string>, replies: seq<BatchReply>)
      requires Valid()
      modifies this
      ensures Valid() && SameGate()
      ensures StoreNow() == Refresh(EnvAt(now), old(GateNow()).Ready(), old(StoreNow()), scope, replies)
      decreases |replies|
    {
      var env := EnvAt(now);
      ghost var st0 := StoreNow();
      if !available || !hasClient {
        return;
      }
      var target := Targets(downloads, scope);
      if target == [] || replies == [] || replies[0].BatchFailed? {
        return;
      }
      var results := replies[0].results;
      var removed: set<string> := {};
      var children: seq<string> := [];
      ghost var p0 := Pass(st0.downloads, st0.scans, {}, []);
      var i := 0;
      while i < |target|
        invariant 0 <= i <= |target|
        invariant RunTargets(env, Pass(downloads, scans, removed, children), target, results, i) == RunTargets(env, p0, target, results, 0)
        invariant SameGate()
      {
        removed, children := ReconcileOne(env, target[i], ReplyAt(results, i), removed, children);
        i := i + 1;
      }
      RunTargetsWf(env, p0, target, results, 0);
      ghost var level := RefreshLevel(env, st0, target, results);
      assert Pass(downloads, scans, removed, children) == RunTargets(env, p0, target, results, 0);
      DeleteEach(removed);
      assert StoreNow() == level.0 && children == level.1;
      if children != [] {
        RefreshDownloadStatuses(now, children, replies[1..]);
      }
    }

    /** startDownload */
    method StartDownload(now: string, req: StartRequest, addUri: Result<string>, replies: seq<BatchReply>) returns (r: Result<Summary>)
      requires Valid()
      modifies this
      ensures Valid() && SameGate()
      ensures (StoreNow(), r) == Start(EnvAt(now), old(GateNow()), old(StoreNow()), req, addUri, replies)
    {
      if req.magnet == "" {
        return Err(ErrNoMagnet);
      }
      var e := EnsureReady();
      if e.Some? {
        return Err(e.value);
      }
      var infoHash := ExtractInfoHash(Some(req.magnet));
      if HasDuplicate(downloads, req.magnet, infoHash) {
        return Err(ErrDuplicate);
      }
      DeleteEach(Stale(downloads, req.magnet, infoHash));
      if addUri.Err? {
        return Err(Or(addUri.message, ErrStart));
      }
      var gid := addUri.value;
      var record := NewRecord(EnvAt(now), gid, req, infoHash);
      SetTracked(downloads, gid, record);
      downloads := downloads.Set(gid, record);
      RefreshDownloadStatuses(now, [gid], replies);
      r := Ok(StartSummary(downloads, gid, record));
    }

    /** pauseDownload and resumeDownload: the daemon call, the new status, the refresh. */
    method SetStatusAndRefresh(now: string, gid: string, call: Outcome, s: Status, fallback: string, replies: seq<BatchReply>)
      returns (r: Result<Option<Summary>>)
      requires Valid() && !IsFinal(s)
      modifies this
      ensures Valid() && SameGate()
      ensures (StoreNow(), r) == Toggle(EnvAt(now), old(GateNow()), old(StoreNow()), gid, call, s, fallback, replies)
    {
      if gid == "" {
        return Err(ErrNoGid);
      }
      var e := EnsureReady();
      if e.Some? {
        return Err(e.value);
      }
      if call.Rejected? {
        return Err(Or(call.message, fallback));
      }
      ghost var d0 := downloads;
      var record: Option<Record> := None;
      if gid in downloads.entries {
        var marked := downloads.entries[gid].(status := s, finalized := false);
        downloads := downloads.Set(gid, marked);
        record := Some(marked);
      }
      assert downloads == Mark(d0, gid, s);
      RefreshDownloadStatuses(now, [gid], replies);
      if gid in downloads.entries {
        r := Ok(Some(Summarize(downloads.entries[gid])));
      } else if record.Some? {
        r := Ok(Some(Summarize(record.value)));
      } else {
        r := Ok(None);
      }
    }

    method PauseDownload(now: string, gid: string, call: Outcome, replies: seq<BatchReply>) returns (r: Result<Option<Summary>>)
      requires Valid()
      modifies this
      ensures Valid() && SameGate()
      ensures (StoreNow(), r) == Toggle(EnvAt(now), old(GateNow()), old(StoreNow()), gid, call, Paused, ErrPause, replies)
    {
      r := SetStatusAndRefresh(now, gid, call, Paused, ErrPause, replies);
    }

    method ResumeDownload(now: string, gid: string, call: Outcome, replies: seq<BatchReply>) returns (r: Result<Option<Summary>>)
      requires Valid()
      modifies this
      ensures Valid() && SameGate()
      ensures (StoreNow(), r) == Toggle(EnvAt(now), old(GateNow()), old(StoreNow()), gid, call, Starting, ErrResume, replies)
    {
      r := SetStatusAndRefresh(now, gid, call, Starting, ErrResume, replies);
    }

    /** cancelDownload: forceRemove, then remove when that is rejected. */
    method CancelDownload(now: string, gid: string, force: Outcome, remove: Outcome) returns (r: Result<Option<Summary>>)
      requires Valid()
      modifies this
      ensures Valid() && SameGate()
      ensures (StoreNow(), r) == Cancel(EnvAt(now), old(GateNow()), old(StoreNow()), gid, force, remove)
    {
      if gid == "" {
        return Err(ErrNoGid);
      }
      var e := EnsureReady();
      if e.Some? {
        return Err(e.value);
      }
      if force.Rejected? && remove.Rejected? {
        return Err(CancelError(force, remove));
      }
      var record: Option<Record> := None;
      if gid in downloads.entries {
        var cancelled := CancelRecord(downloads.entries[gid], now);
        SetTracked(downloads, gid, cancelled);
        downloads := downloads.Set(gid, cancelled);
        record := Some(cancelled);
      }
      DeleteEach(ChildrenOf(downloads, gid));
      r := Ok(if record.Some? then Some(Summarize(record.value)) else None);
    }

    /** One iteration of the adoption loop, for the first of `cands`. */
    method AdoptOne(env: Env, cands: seq<Payload>, gids: seq<string>) returns (gids': seq<string>)
      requires cands != []
      modifies this
      ensures Adopt(env, downloads, cands[1..], gids') == Adopt(env, old(downloads), cands, gids)
      ensures scans == old(scans) && SameGate()
    {
      var task := cands[0];
      var gid := task.gid;
      gids' := gids;
      if gid != "" && gid !in downloads.entries {
        var record := CreateRecordFromStatus(env, Some(task), gid);
        if record.Some? {
          downloads := downloads.Set(gid, record.value);
          gids' := gids + [gid];
        }
      }
      assert downloads == if gid == "" || gid in old(downloads).entries then old(downloads) else Admit(env, old(downloads), gid, Some(task));
    }

    /** hydrateExistingDownloads */
    method HydrateExistingDownloads(now: string, active: Listing, waiting: Listing, stopped: Listing, replies: seq<BatchReply>)
      requires Valid()
      modifies this
      ensures Valid() && SameGate()
      ensures StoreNow() == Hydrate(EnvAt(now), old(GateNow()), old(StoreNow()), active, waiting, stopped, replies)
    {
      var env := EnvAt(now);
      if !hasClient {
        return;
      }
      var candidates := Candidates(active, waiting, stopped);
      if candidates.None? {
        return;
      }
      var cands := candidates.value;
      ghost var d0 := downloads;
      AdoptWf(env, d0, cands, []);
      var gids: seq<string> := [];
      var i := 0;
      while i < |cands|
        invariant 0 <= i <= |cands|
        invariant Adopt(env, downloads, cands[i..], gids) == Adopt(env, d0, cands, [])
        invariant scans == old(scans) && SameGate()
      {
        assert cands[i..][1..] == cands[i + 1..];
        gids := AdoptOne(env, cands[i..], gids);
        i := i + 1;
      }
      assert cands[|cands|..] == [];
      if gids != [] {
        RefreshDownloadStatuses(now, gids, replies);
      }
    }

    /** listDownloads */
    method ListDownloads(now: string, replies: seq<BatchReply>) returns (r: seq<Summary>)
      requires Valid()
      modifies this
      ensures Valid() && SameGate()
      ensures (StoreNow(), r) == List(EnvAt(now), old(GateNow()), old(StoreNow()), replies)
    {
      if available && downloads.Size() > 0 {
        RefreshDownloadStatuses(now, [], replies);
      }
      r := Visible(downloads, downloads.order);
    }
  }

  /** Deleting one pending id and then the rest is deleting all of them. */
  lemma DeleteOneThenRest(d: Table, k: string, ks: set<string>)
    requires k in ks
    ensures d.Delete(k).DeleteAll(ks - {k}) == d.DeleteAll(ks)
  {
    WithoutTwice(d.order, {k}, ks - {k});
    assert {k} + (ks - {k}) == ks;
  }

  lemma DeleteNothing(d: Table)
    ensures d.DeleteAll({}) == d
  {
    WithoutNone(d.order, {});
    assert d.entries - {} == d.entries;
  }
}
