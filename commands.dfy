/** The commands of TorrentManager (server/torrentService.js) as specifications over the registry:
    readiness, starting a download (with de-duplication and the purge of finished duplicates),
    pausing, resuming and cancelling, adopting the daemon's existing downloads at start-up, and
    listing. Each daemon call is input: its outcome, and the batches the follow-up refresh gets. */
module Commands {
  import opened Wrappers
  import opened Text
  import opened JsNumbers
  import opened Aria
  import opened Magnet
  import opened Registries
  import opened Downloads
  import opened Reconcile

  /** The outcome of a daemon call that returns nothing of interest. A rejection carries its
      message, "" when it has none. */
  datatype Outcome = Succeeded | Rejected(message: string)

  /** The manager's view of the daemon: whether it is available, whether an RPC client exists, and
      the start-up error message ("" when there is none). */
  datatype Gate = Gate(available: bool, hasClient: bool, startupError: string) {
    predicate Ready() { available && hasClient }
  }

  const DefaultUnavailable: string := "Torrent indirme sistemi şu anda kullanılamıyor."
  const DefaultDisabled: string := "aria2 çalışmadığı için torrent indirme devre dışı."

  /** ensureReady: no error exactly when the daemon is available and a client exists; otherwise the
      start-up error, or the generic message when there is none. */
  function ReadyError(g: Gate): (e: Option<string>)
    ensures e.None? <==> g.Ready()
    ensures e.Some? ==> e.value != ""
    ensures e.Some? && g.startupError != "" ==> e.value == g.startupError
    ensures e.Some? && g.startupError == "" ==> e.value == DefaultUnavailable
  {
    if g.Ready() then None else Some(Or(g.startupError, DefaultUnavailable))
  }

  /** getStatus: `available` needs the client too, while the message only looks at the flag. */
  function GetStatus(g: Gate): (r: (bool, Option<string>))
    ensures r.0 <==> g.Ready()
    ensures r.1.None? <==> g.available
    ensures r.1.Some? ==> r.1.value != "" && (g.startupError != "" ==> r.1.value == g.startupError)
    ensures r.1.Some? && g.startupError == "" ==> r.1.value == DefaultDisabled
  {
    (g.Ready(), if g.available then None else Some(Or(g.startupError, DefaultDisabled)))
  }

  // ----- startDownload -----

  /** The request body of startDownload. An absent name or provider is "". */
  datatype StartRequest = StartRequest(magnet: string, name: string, provider: string, size: Value)

  /** A record the new request refers to: the same magnet link, or the same info hash. */
  predicate Matches(r: Record, magnet: string, infoHash: Option<string>) {
    (Truthy(r.magnet) && r.magnet.value == magnet)
    || (Truthy(infoHash) && Truthy(r.infoHash) && r.infoHash.value == infoHash.value)
  }

  /** A tracked download that is still running for the same torrent. */
  predicate HasDuplicate(d: Table, magnet: string, infoHash: Option<string>) {
    exists k :: k in d.entries && !IsTerminal(d.entries[k].status) && Matches(d.entries[k], magnet, infoHash)
  }

  /** The ids of the finished, failed or cancelled downloads for the same torrent. */
  function Stale(d: Table, magnet: string, infoHash: Option<string>): set<string> {
    set k | k in d.entries && IsTerminal(d.entries[k].status) && Matches(d.entries[k], magnet, infoHash)
  }

  /** The registry without the finished downloads of the same torrent. */
  function Purge(d: Table, magnet: string, infoHash: Option<string>): (d': Table)
    ensures forall k :: k in d'.entries <==> k in d.entries && !(IsTerminal(d.entries[k].status) && Matches(d.entries[k], magnet, infoHash))
    ensures forall k :: k in d'.entries ==> d'.entries[k] == d.entries[k]
    ensures Wf(d) ==> Wf(d')
  {
    d.DeleteAll(Stale(d, magnet, infoHash))
  }

  const DefaultName: string := "Yeni İndirme"

  /** The size a request asks for: Number(size) when that is finite and positive. */
  function RequestedSize(size: Value): (s: Option<real>)
    ensures s.Some? <==> ToNumber(size).Finite? && ToNumber(size).v > 0.0
    ensures s.Some? ==> s.value == ToNumber(size).v
  {
    var n := ToNumber(size);
    if n.Finite? && n.v > 0.0 then Some(n.v) else None
  }

  /** The record startDownload inserts under the id the daemon returned. */
  function NewRecord(env: Env, gid: string, req: StartRequest, infoHash: Option<string>): (r: Record)
    ensures Tracked(gid, r)
    ensures r.status == Starting && r.progress == 0.0 && r.magnet == Some(req.magnet) && r.infoHash == infoHash
    ensures r.name == (if JsTrim(req.name) != "" then JsTrim(req.name) else DefaultName)
    ensures r.provider == (if req.provider != "" then req.provider else "unknown")
    ensures r.size == RequestedSize(req.size) && r.finalPath == env.downloadRoot
    ensures r.eta.None? && r.error.None? && r.completedAt.None? && r.finalFiles == [] && !r.finalized
    ensures r.downloadSpeed == 0 && r.uploadSpeed == 0 && r.peers == 0 && r.bytesDownloaded == 0
  {
    Record(
      id := gid,
      magnet := Some(req.magnet),
      infoHash := infoHash,
      name := Or(JsTrim(req.name), DefaultName),
      provider := Or(req.provider, "unknown"),
      size := RequestedSize(req.size),
      status := Starting,
      progress := 0.0,
      downloadSpeed := 0,
      uploadSpeed := 0,
      eta := None,
      peers := 0,
      bytesDownloaded := 0,
      addedAt := env.now,
      completedAt := None,
      error := None,
      finalFiles := [],
      finalPath := env.downloadRoot,
      libraryRefreshAt := None,
      rescanTriggered := false,
      finalized := false,
      isMetadataStub := false,
      parentGid := None)
  }

  /** order[i] is the first key, in insertion order, whose record has gid as its parent. */
  predicate FirstChildAt(d: Table, order: seq<string>, gid: string, i: int)
    requires forall k :: k in order ==> k in d.entries
  {
    0 <= i < |order| && d.entries[order[i]].parentGid == Some(gid)
    && forall j :: 0 <= j < i ==> d.entries[order[j]].parentGid != Some(gid)
  }

  /** The first record, in insertion order, whose parent is gid (`[...values()].find`). */
  function FirstChild(d: Table, order: seq<string>, gid: string): (r: Option<Record>)
    requires forall k :: k in order ==> k in d.entries
    ensures r.Some? ==> exists i :: FirstChildAt(d, order, gid, i) && d.entries[order[i]] == r.value
    ensures r.None? ==> forall k :: k in order ==> d.entries[k].parentGid != Some(gid)
    decreases |order|
  {
    if order == [] then None
    else if d.entries[order[0]].parentGid == Some(gid) then
      assert FirstChildAt(d, order, gid, 0);
      Some(d.entries[order[0]])
    else
      var r := FirstChild(d, order[1..], gid);
      assert r.Some? ==> exists i :: FirstChildAt(d, order, gid, i) && d.entries[order[i]] == r.value by {
        if r.Some? {
          var i :| FirstChildAt(d, order[1..], gid, i) && d.entries[order[1..][i]] == r.value;
          assert order[i + 1] == order[1..][i];
          forall j | 0 <= j < i + 1 ensures d.entries[order[j]].parentGid != Some(gid) {
            if j > 0 { assert order[j] == order[1..][j - 1]; }
          }
          assert FirstChildAt(d, order, gid, i + 1);
        }
      }
      r
  }

  /** What startDownload returns: the record now under gid, else the first follower of gid, else the
      record as inserted. */
  function StartSummary(d: Table, gid: string, inserted: Record): (r: Summary)
    requires d.Valid()
    ensures gid in d.entries ==> r == Summarize(d.entries[gid])
    ensures gid !in d.entries && (exists k :: k in d.order && d.entries[k].parentGid == Some(gid)) ==>
      exists i :: FirstChildAt(d, d.order, gid, i) && r == Summarize(d.entries[d.order[i]])
    ensures gid !in d.entries && (forall k :: k in d.order ==> d.entries[k].parentGid != Some(gid)) ==>
      r == Summarize(inserted)
  {
    if gid in d.entries then Summarize(d.entries[gid])
    else match FirstChild(d, d.order, gid)
      case Some(c) => Summarize(c)
      case None => Summarize(inserted)
  }

  const ErrNoMagnet: string := "Magnet link zorunludur"
  const ErrDuplicate: string := "Bu torrent zaten indiriliyor"
  const ErrStart: string := "İndirme başlatılamadı"

  /** startDownload: a missing magnet link, an unavailable daemon and a running duplicate are refused
      with the registry unchanged; otherwise the finished duplicates are dropped, the daemon is asked
      to add the link (its answer is `addUri`: the new id or a rejection), the new record is inserted
      and refreshed. */
  function Start(env: Env, g: Gate, st: Store, req: StartRequest, addUri: Result<string>, replies: seq<BatchReply>): (out: (Store, Result<Summary>))
    requires Wf(st.downloads)
    ensures out.1.Err? <==> req.magnet == "" || !g.Ready() || HasDuplicate(st.downloads, req.magnet, ExtractInfoHash(Some(req.magnet))) || addUri.Err?
    ensures out.1.Err? ==> out.1.message != "" && out.0.scans == st.scans
    ensures st.scans <= out.0.scans
  {
    if req.magnet == "" then (st, Err(ErrNoMagnet))
    else if ReadyError(g).Some? then (st, Err(ReadyError(g).value))
    else
      var infoHash := ExtractInfoHash(Some(req.magnet));
      if HasDuplicate(st.downloads, req.magnet, infoHash) then (st, Err(ErrDuplicate))
      else
        var purged := Purge(st.downloads, req.magnet, infoHash);
        match addUri
        case Err(m) => (Store(purged, st.scans), Err(Or(m, ErrStart)))
        case Ok(gid) =>
          var record := NewRecord(env, gid, req, infoHash);
          var inserted := purged.Set(gid, record);
          var st' := Refresh(env, true, Store(inserted, st.scans), [gid], replies);
          RefreshWf(env, true, Store(inserted, st.scans), [gid], replies);
          (st', Ok(StartSummary(st'.downloads, gid, record)))
  }

  /** The registry right after the insertion and before the refresh. */
  function Inserted(env: Env, d: Table, req: StartRequest, gid: string): Table {
    var infoHash := ExtractInfoHash(Some(req.magnet));
    Purge(d, req.magnet, infoHash).Set(gid, NewRecord(env, gid, req, infoHash))
  }

  /** A refused start changes nothing. */
  lemma StartRefused(env: Env, g: Gate, st: Store, req: StartRequest, addUri: Result<string>, replies: seq<BatchReply>)
    requires Wf(st.downloads)
    requires req.magnet == "" || !g.Ready() || HasDuplicate(st.downloads, req.magnet, ExtractInfoHash(Some(req.magnet)))
    ensures var out := Start(env, g, st, req, addUri, replies);
      out.0 == st && out.1.Err?
      && out.1.message == (if req.magnet == "" then ErrNoMagnet else if !g.Ready() then ReadyError(g).value else ErrDuplicate)
  {
  }

  /** A start that gets past the duplicate check leaves, before the refresh, exactly one record for the
      torrent: the new one. Every other record is kept unless it was a finished duplicate. */
  lemma StartSingleMatch(env: Env, d: Table, req: StartRequest, gid: string)
    requires req.magnet != "" && !HasDuplicate(d, req.magnet, ExtractInfoHash(Some(req.magnet)))
    ensures var ih := ExtractInfoHash(Some(req.magnet)); var d' := Inserted(env, d, req, gid);
      gid in d'.entries && d'.entries[gid] == NewRecord(env, gid, req, ih)
      && Matches(d'.entries[gid], req.magnet, ih)
      && (forall k :: k in d'.entries && Matches(d'.entries[k], req.magnet, ih) ==> k == gid)
      && (forall k :: k in d.entries && k != gid ==> (k in d'.entries <==> !Matches(d.entries[k], req.magnet, ih)))
      && (forall k :: k in d'.entries && k != gid ==> k in d.entries && d'.entries[k] == d.entries[k])
  {
  }

  /** A start the daemon rejects has dropped the finished duplicates and inserted nothing. */
  lemma StartRejected(env: Env, g: Gate, st: Store, req: StartRequest, m: string, replies: seq<BatchReply>)
    requires Wf(st.downloads) && req.magnet != "" && g.Ready()
    requires !HasDuplicate(st.downloads, req.magnet, ExtractInfoHash(Some(req.magnet)))
    ensures var out := Start(env, g, st, req, Err(m), replies);
      out.0 == Store(Purge(st.downloads, req.magnet, ExtractInfoHash(Some(req.magnet))), st.scans)
      && out.1 == Err(if m != "" then m else ErrStart)
  {
  }

  /** Without a status reply the started download is reported as inserted: starting, nothing done yet. */
  lemma StartWithoutReply(env: Env, g: Gate, st: Store, req: StartRequest, gid: string)
    requires Wf(st.downloads) && req.magnet != "" && g.Ready()
    requires !HasDuplicate(st.downloads, req.magnet, ExtractInfoHash(Some(req.magnet)))
    ensures var out := Start(env, g, st, req, Ok(gid), []);
      out.0.downloads == Inserted(env, st.downloads, req, gid) && out.0.scans == st.scans
      && out.1 == Ok(Summarize(NewRecord(env, gid, req, ExtractInfoHash(Some(req.magnet)))))
      && out.1.value.status == Starting && out.1.value.progress == 0.0
  {
    var d' := Inserted(env, st.downloads, req, gid);
    RefreshWithoutAnswer(env, true, Store(d', st.scans), [gid], []);
  }

  /** Every start keeps the registry invariant. */
  lemma StartWf(env: Env, g: Gate, st: Store, req: StartRequest, addUri: Result<string>, replies: seq<BatchReply>)
    requires Wf(st.downloads)
    ensures Wf(Start(env, g, st, req, addUri, replies).0.downloads)
  {
    if req.magnet != "" && g.Ready() && addUri.Ok? {
      var ih := ExtractInfoHash(Some(req.magnet));
      if !HasDuplicate(st.downloads, req.magnet, ih) {
        var purged := Purge(st.downloads, req.magnet, ih);
        SetTracked(purged, addUri.value, NewRecord(env, addUri.value, req, ih));
        RefreshWf(env, true, Store(purged.Set(addUri.value, NewRecord(env, addUri.value, req, ih)), st.scans), [addUri.value], replies);
      }
    }
  }

  // ----- pause, resume, cancel -----

  const ErrNoGid: string := "gid zorunludur"
  const ErrPause: string := "İndirme duraklatılamadı"
  const ErrResume: string := "İndirme devam ettirilemedi"
  const ErrCancel: string := "İndirme iptal edilemedi"

  /** The registry with the record under gid (if any) set to a non-final status. */
  function Mark(d: Table, gid: string, s: Status): (d': Table)
    requires !IsFinal(s)
    ensures forall k :: k in d'.entries <==> k in d.entries
    ensures gid in d.entries ==> d'.entries[gid] == d.entries[gid].(status := s, finalized := false)
    ensures forall k :: k in d.entries && k != gid ==> d'.entries[k] == d.entries[k]
    ensures Wf(d) ==> Wf(d')
  {
    if gid in d.entries then
      var r := d.entries[gid].(status := s, finalized := false);
      assert Wf(d) ==> Wf(d.Set(gid, r)) by {
        if Wf(d) { SetTracked(d, gid, r); }
      }
      d.Set(gid, r)
    else d
  }

  /** pauseDownload and resumeDownload: after the daemon accepts the call the record is marked (paused,
      or starting) and refreshed; the result is the record after the refresh, or the marked record
      when the refresh replaced it, or null when gid was never tracked and is not now. */
  function Toggle(env: Env, g: Gate, st: Store, gid: string, call: Outcome, s: Status, fallback: string, replies: seq<BatchReply>): (out: (Store, Result<Option<Summary>>))
    requires Wf(st.downloads) && !IsFinal(s)
    ensures out.1.Err? <==> gid == "" || !g.Ready() || call.Rejected?
    ensures out.1.Err? ==> out.0 == st && (fallback != "" ==> out.1.message != "")
    ensures out.1.Ok? ==> (out.1.value.None? <==> gid !in st.downloads.entries && gid !in out.0.downloads.entries)
  {
    if gid == "" then (st, Err(ErrNoGid))
    else if ReadyError(g).Some? then (st, Err(ReadyError(g).value))
    else if call.Rejected? then (st, Err(Or(call.message, fallback)))
    else
      var marked := Mark(st.downloads, gid, s);
      var st' := Refresh(env, true, Store(marked, st.scans), [gid], replies);
      (st', Ok(if gid in st'.downloads.entries then Some(Summarize(st'.downloads.entries[gid]))
               else if gid in marked.entries then Some(Summarize(marked.entries[gid]))
               else None))
  }

  /** A pause or resume that is refused, or whose call the daemon rejects, changes nothing. */
  lemma ToggleRefused(env: Env, g: Gate, st: Store, gid: string, call: Outcome, s: Status, fallback: string, replies: seq<BatchReply>)
    requires Wf(st.downloads) && !IsFinal(s)
    requires gid == "" || !g.Ready() || call.Rejected?
    ensures var out := Toggle(env, g, st, gid, call, s, fallback, replies);
      out.0 == st && out.1.Err?
      && (gid != "" && g.Ready() ==> out.1.message == Or(call.message, fallback))
  {
  }

  /** Without a status reply, a paused (or resumed) tracked download is reported with the new status
      and is no longer finalized; every other record is untouched. */
  lemma ToggleWithoutReply(env: Env, g: Gate, st: Store, gid: string, s: Status, fallback: string)
    requires Wf(st.downloads) && !IsFinal(s) && gid != "" && g.Ready() && gid in st.downloads.entries
    ensures var out := Toggle(env, g, st, gid, Succeeded, s, fallback, []);
      var d' := out.0.downloads;
      gid in d'.entries && d'.entries[gid].status == s && !d'.entries[gid].finalized
      && (forall k :: k in d'.entries <==> k in st.downloads.entries)
      && (forall k :: k in st.downloads.entries && k != gid ==> d'.entries[k] == st.downloads.entries[k])
      && out.1 == Ok(Some(Summarize(d'.entries[gid])))
  {
    RefreshWithoutAnswer(env, true, Store(Mark(st.downloads, gid, s), st.scans), [gid], []);
  }

  lemma ToggleWf(env: Env, g: Gate, st: Store, gid: string, call: Outcome, s: Status, fallback: string, replies: seq<BatchReply>)
    requires Wf(st.downloads) && !IsFinal(s)
    ensures Wf(Toggle(env, g, st, gid, call, s, fallback, replies).0.downloads)
  {
    if gid != "" && g.Ready() && call.Succeeded? {
      RefreshWf(env, true, Store(Mark(st.downloads, gid, s), st.scans), [gid], replies);
    }
  }

  /** A cancelled record: final, stamped with the clock, no error, no speed and no estimate. */
  function CancelRecord(r: Record, now: string): (c: Record)
    ensures c == r.(status := Cancelled, finalized := true, completedAt := Some(now), error := None,
                    downloadSpeed := 0, uploadSpeed := 0, eta := None)
    ensures Consistent(r) ==> Consistent(c)
  {
    r.(status := Cancelled, finalized := true, completedAt := Some(now), error := None,
       downloadSpeed := 0, uploadSpeed := 0, eta := None)
  }

  /** The ids of the records whose parent is gid. */
  function ChildrenOf(d: Table, gid: string): set<string> {
    set k | k in d.entries && d.entries[k].parentGid == Some(gid)
  }

  /** The error message of a cancel whose two calls were both rejected. */
  function CancelError(force: Outcome, remove: Outcome): (m: string)
    requires force.Rejected? && remove.Rejected?
    ensures m != ""
    ensures remove.message != "" ==> m == remove.message
    ensures remove.message == "" && force.message != "" ==> m == force.message
  {
    Or(remove.message, Or(force.message, ErrCancel))
  }

  /** The registry after a successful cancel: the record under gid (if any) cancelled, then the
      records whose parent is gid deleted. On a well-formed registry the cancelled record is kept (a
      record is never its own parent), exactly the records whose parent is gid are deleted, no other
      record changes, and the invariant holds. */
  function CancelIn(d: Table, gid: string, now: string): (d': Table)
    ensures Wf(d) ==> Wf(d')
    ensures Wf(d) && gid in d.entries ==> gid in d'.entries && d'.entries[gid] == CancelRecord(d.entries[gid], now)
    ensures Wf(d) ==> forall k :: k in d'.entries <==> k in d.entries && (k == gid || d.entries[k].parentGid != Some(gid))
    ensures Wf(d) ==> forall k :: k in d'.entries && k != gid ==> d'.entries[k] == d.entries[k]
  {
    var d1 := if gid in d.entries then d.Set(gid, CancelRecord(d.entries[gid], now)) else d;
    assert Wf(d) ==> Wf(d1) by {
      if Wf(d) && gid in d.entries {
        assert d.entries[gid].parentGid != Some(gid);
        SetTracked(d, gid, CancelRecord(d.entries[gid], now));
      }
    }
    d1.DeleteAll(ChildrenOf(d1, gid))
  }

  /** cancelDownload: forceRemove is tried first and remove only when it is rejected; the command fails
      only when both are. On success the record (if tracked) is cancelled and kept, and its followers
      are deleted. Nothing is refreshed. */
  function Cancel(env: Env, g: Gate, st: Store, gid: string, force: Outcome, remove: Outcome): (out: (Store, Result<Option<Summary>>))
    ensures out.1.Err? <==> gid == "" || !g.Ready() || (force.Rejected? && remove.Rejected?)
    ensures out.1.Err? ==> out.0 == st && out.1.message != ""
    ensures out.1.Ok? ==> (out.1.value.None? <==> gid !in st.downloads.entries)
    ensures out.0.scans == st.scans
  {
    if gid == "" then (st, Err(ErrNoGid))
    else if ReadyError(g).Some? then (st, Err(ReadyError(g).value))
    else if force.Rejected? && remove.Rejected? then (st, Err(CancelError(force, remove)))
    else
      var d := st.downloads;
      (Store(CancelIn(d, gid, env.now), st.scans),
       Ok(if gid in d.entries then Some(Summarize(CancelRecord(d.entries[gid], env.now))) else None))
  }

  /** A successful cancel reports the cancelled record (null when gid was not tracked) and requests no
      scan; a cancel whose calls are both rejected changes nothing. */
  lemma CancelSpec(env: Env, g: Gate, st: Store, gid: string, force: Outcome, remove: Outcome)
    requires Wf(st.downloads) && gid != "" && g.Ready()
    ensures var out := Cancel(env, g, st, gid, force, remove); var d := st.downloads;
      (force.Rejected? && remove.Rejected? ==> out.0 == st && out.1 == Err(CancelError(force, remove)))
      && (force.Succeeded? || remove.Succeeded? ==>
            out.0 == Store(CancelIn(d, gid, env.now), st.scans)
            && out.1 == Ok(if gid in d.entries then Some(Summarize(CancelIn(d, gid, env.now).entries[gid])) else None))
  {
  }

  lemma CancelWf(env: Env, g: Gate, st: Store, gid: string, force: Outcome, remove: Outcome)
    requires Wf(st.downloads)
    ensures Wf(Cancel(env, g, st, gid, force, remove).0.downloads)
  {
  }

  // ----- hydrateExistingDownloads -----

  /** The answer to a tellActive/tellWaiting/tellStopped call. A reply that is not a list is an empty
      listing. */
  datatype Listing = ListFailed | Listed(items: seq<Payload>)

  /** The stopped downloads hydration adopts: those paused or waiting. */
  predicate Resumable(p: Payload) {
    p.status in {"paused", "pausedDL", "pausedUP", "waiting"}
  }

  function FilterResumable(ps: seq<Payload>): (r: seq<Payload>)
    ensures forall p :: p in r <==> p in ps && Resumable(p)
    decreases |ps|
  {
    if ps == [] then [] else (if Resumable(ps[0]) then [ps[0]] else []) + FilterResumable(ps[1..])
  }

  /** The candidates: every active and waiting download, then the resumable stopped ones; a failed
      tellStopped counts as none, a failed tellActive or tellWaiting means no candidates at all. */
  function Candidates(active: Listing, waiting: Listing, stopped: Listing): Option<seq<Payload>> {
    if active.ListFailed? || waiting.ListFailed? then None
    else Some(active.items + waiting.items + (if stopped.Listed? then FilterResumable(stopped.items) else []))
  }

  /** The ids of a list of payloads. */
  function Gids(ps: seq<Payload>): (r: seq<string>)
    ensures |r| == |ps| && forall j :: 0 <= j < |ps| ==> r[j] == ps[j].gid
  {
    seq(|ps|, j requires 0 <= j < |ps| => ps[j].gid)
  }

  lemma GidsCons(ps: seq<Payload>)
    requires ps != []
    ensures Gids(ps) == [ps[0].gid] + Gids(ps[1..])
  {
    var r := [ps[0].gid] + Gids(ps[1..]);
    assert |r| == |ps|;
    forall j | 0 <= j < |ps| ensures Gids(ps)[j] == r[j] {
      if j > 0 {
        assert r[j] == Gids(ps[1..])[j - 1] == ps[1..][j - 1].gid;
      }
    }
  }

  /** The adoption loop: each candidate with an id that is not tracked yet gets a record created from
      its payload, and its id is collected. */
  function Adopt(env: Env, d: Table, cands: seq<Payload>, gids: seq<string>): (out: (Table, seq<string>))
    ensures |out.1| >= |gids| && out.1[..|gids|] == gids
    decreases |cands|
  {
    if cands == [] then (d, gids)
    else
      var gid := cands[0].gid;
      if gid == "" || gid in d.entries then Adopt(env, d, cands[1..], gids)
      else
        var rest := Adopt(env, Admit(env, d, gid, Some(cands[0])), cands[1..], gids + [gid]);
        ExtendedPrefix(rest.1, gids, gid);
        rest
  }

  /** hydrateExistingDownloads: the adoption loop over the candidates, then a refresh of the adopted
      ids when there are any. Nothing happens without a client. */
  function Hydrate(env: Env, g: Gate, st: Store, active: Listing, waiting: Listing, stopped: Listing, replies: seq<BatchReply>): (r: Store)
    ensures !g.hasClient || active.ListFailed? || waiting.ListFailed? ==> r == st
    ensures st.scans <= r.scans
  {
    if !g.hasClient then st
    else match Candidates(active, waiting, stopped)
      case None => st
      case Some(cands) =>
        var adopted := Adopt(env, st.downloads, cands, []);
        if adopted.1 == [] then Store(adopted.0, st.scans)
        else Refresh(env, g.Ready(), Store(adopted.0, st.scans), adopted.1, replies)
  }

  /** The ids the loop adds are exactly the candidate ids that were not tracked. */
  lemma {:induction false} AdoptAdded(env: Env, d: Table, cands: seq<Payload>, gids: seq<string>)
    ensures var out := Adopt(env, d, cands, gids);
      forall k :: k in out.1[|gids|..] <==> k != "" && k !in d.entries && k in Gids(cands)
    decreases |cands|, 1
  {
    if cands == [] {
      assert Adopt(env, d, cands, gids).1[|gids|..] == [];
    } else if cands[0].gid == "" || cands[0].gid in d.entries {
      GidsCons(cands);
      AdoptAdded(env, d, cands[1..], gids);
    } else {
      AdoptAddedAdmit(env, d, cands, gids);
    }
  }

  /** The case of AdoptAdded where the first candidate is adopted. */
  lemma {:induction false} AdoptAddedAdmit(env: Env, d: Table, cands: seq<Payload>, gids: seq<string>)
    requires cands != [] && cands[0].gid != "" && cands[0].gid !in d.entries
    ensures var out := Adopt(env, d, cands, gids);
      forall k :: k in out.1[|gids|..] <==> k != "" && k !in d.entries && k in Gids(cands)
    decreases |cands|, 0
  {
    var gid := cands[0].gid;
    var d1 := Admit(env, d, gid, Some(cands[0]));
    var g1 := gids + [gid];
    var rest := Adopt(env, d1, cands[1..], g1);
    AdoptUnfold(env, d, cands, gids);
    assert forall k :: k in rest.1[|g1|..] <==> k != "" && k !in d1.entries.Keys && k in Gids(cands[1..]) by {
      AdoptAdded(env, d1, cands[1..], g1);
    }
    assert d1.entries.Keys == d.entries.Keys + {gid} by {
      AdmitNew(env, d, gid, cands[0]);
    }
    assert rest.1[|gids|..] == [gid] + rest.1[|g1|..] by {
      ExtendedPrefix(rest.1, gids, gid);
    }
    GidsCons(cands);
    AddedStep(rest.1, |gids|, gid, d.entries.Keys, d1.entries.Keys, Gids(cands), Gids(cands[1..]));
  }

  lemma AddedStep(ids: seq<string>, n: nat, gid: string, keys: set<string>, keys1: set<string>, g: seq<string>, g1: seq<string>)
    requires n < |ids| && ids[n..] == [gid] + ids[n + 1..]
    requires gid != "" && gid !in keys && keys1 == keys + {gid} && g == [gid] + g1
    requires forall k :: k in ids[n + 1..] <==> k != "" && k !in keys1 && k in g1
    ensures forall k :: k in ids[n..] <==> k != "" && k !in keys && k in g
  {
    forall k ensures k in ids[n..] <==> k != "" && k !in keys && k in g {
      assert k in ids[n..] <==> k == gid || k in ids[n + 1..];
      assert k in g <==> k == gid || k in g1;
    }
  }


  /** The loop keeps every tracked record and keeps the invariant. */
  lemma {:induction false} AdoptWf(env: Env, d: Table, cands: seq<Payload>, gids: seq<string>)
    requires Wf(d)
    ensures var out := Adopt(env, d, cands, gids);
      Wf(out.0) && forall k :: k in d.entries ==> k in out.0.entries && out.0.entries[k] == d.entries[k]
    decreases |cands|
  {
    if cands != [] {
      var gid := cands[0].gid;
      if gid == "" || gid in d.entries {
        AdoptWf(env, d, cands[1..], gids);
      } else {
        SetTracked(d, gid, CreateRecordFromStatus(env, Some(cands[0]), gid).value);
        AdoptWf(env, Admit(env, d, gid, Some(cands[0])), cands[1..], gids + [gid]);
      }
    }
  }

  lemma AdmitNew(env: Env, d: Table, gid: string, p: Payload)
    requires gid != "" && gid !in d.entries
    ensures Admit(env, d, gid, Some(p)).order == d.order + [gid]
    ensures Admit(env, d, gid, Some(p)).entries.Keys == d.entries.Keys + {gid}
  {
  }

  /** The loop appends the adopted ids to the insertion order. */
  lemma {:induction false} AdoptOrder(env: Env, d: Table, cands: seq<Payload>, gids: seq<string>)
    ensures var out := Adopt(env, d, cands, gids); out.0.order == d.order + out.1[|gids|..]
    decreases |cands|, 1
  {
    if cands == [] {
      assert Adopt(env, d, cands, gids).1[|gids|..] == [];
    } else if cands[0].gid == "" || cands[0].gid in d.entries {
      AdoptOrder(env, d, cands[1..], gids);
    } else {
      AdoptOrderAdmit(env, d, cands, gids);
    }
  }

  /** The case of AdoptOrder where the first candidate is adopted. */
  lemma {:induction false} AdoptOrderAdmit(env: Env, d: Table, cands: seq<Payload>, gids: seq<string>)
    requires cands != [] && cands[0].gid != "" && cands[0].gid !in d.entries
    ensures var out := Adopt(env, d, cands, gids); out.0.order == d.order + out.1[|gids|..]
    decreases |cands|, 0
  {
    var gid := cands[0].gid;
    var d1 := Admit(env, d, gid, Some(cands[0]));
    var g1 := gids + [gid];
    var out := Adopt(env, d1, cands[1..], g1);
    AdoptUnfold(env, d, cands, gids);
    assert out.0.order == d1.order + out.1[|g1|..] by {
      AdoptOrder(env, d1, cands[1..], g1);
    }
    assert d1.order == d.order + [gid] by {
      AdmitNew(env, d, gid, cands[0]);
    }
    assert out.1[|gids|..] == [gid] + out.1[|g1|..] by {
      ExtendedPrefix(out.1, gids, gid);
    }
    AppendStep(d.order, gid, out.1, |gids|);
  }

  /** One unfolding of the adoption loop for a candidate that is adopted. */
  lemma AdoptUnfold(env: Env, d: Table, cands: seq<Payload>, gids: seq<string>)
    requires cands != [] && cands[0].gid != "" && cands[0].gid !in d.entries
    ensures Adopt(env, d, cands, gids) == Adopt(env, Admit(env, d, cands[0].gid, Some(cands[0])), cands[1..], gids + [cands[0].gid])
  {
  }

  lemma AppendStep(order: seq<string>, gid: string, ids: seq<string>, n: nat)
    requires n < |ids| && ids[n..] == [gid] + ids[n + 1..]
    ensures (order + [gid]) + ids[n + 1..] == order + ids[n..]
  {
  }



  lemma HydrateWf(env: Env, g: Gate, st: Store, active: Listing, waiting: Listing, stopped: Listing, replies: seq<BatchReply>)
    requires Wf(st.downloads)
    ensures Wf(Hydrate(env, g, st, active, waiting, stopped, replies).downloads)
  {
    var c := Candidates(active, waiting, stopped);
    if g.hasClient && c.Some? {
      AdoptWf(env, st.downloads, c.value, []);
      var adopted := Adopt(env, st.downloads, c.value, []);
      RefreshWf(env, g.Ready(), Store(adopted.0, st.scans), adopted.1, replies);
    }
  }

  /** Hydration adopts exactly the listed ids that were not tracked, and leaves every tracked record
      as it was; a failed active or waiting listing changes nothing. */
  lemma HydrateSpec(env: Env, g: Gate, st: Store, active: Listing, waiting: Listing, stopped: Listing, replies: seq<BatchReply>)
    requires Wf(st.downloads) && g.hasClient
    ensures var c := Candidates(active, waiting, stopped); var st' := Hydrate(env, g, st, active, waiting, stopped, replies);
      (c.None? ==> st' == st)
      && (c.Some? ==>
            var adopted := Adopt(env, st.downloads, c.value, []);
            (forall k :: k in adopted.1 <==> k != "" && k !in st.downloads.entries && k in Gids(c.value))
            && (forall k :: k in st.downloads.entries ==> k in st'.downloads.entries && st'.downloads.entries[k] == st.downloads.entries[k]))
  {
    var c := Candidates(active, waiting, stopped);
    var st' := Hydrate(env, g, st, active, waiting, stopped, replies);
    if c.Some? {
      var adopted := Adopt(env, st.downloads, c.value, []);
      AdoptAdded(env, st.downloads, c.value, []);
      AdoptWf(env, st.downloads, c.value, []);
      assert adopted.1[0..] == adopted.1;
      if adopted.1 != [] {
        forall k | k in st.downloads.entries
          ensures k in st'.downloads.entries && st'.downloads.entries[k] == st.downloads.entries[k]
        {
          assert k !in adopted.1;
          assert k !in Targets(adopted.0, adopted.1);
          RefreshFrame(env, g.Ready(), Store(adopted.0, st.scans), adopted.1, replies, k);
        }
      }
    }
  }

  // ----- listDownloads -----

  /** The records listed: every record that is not a metadata stub, in insertion order. */
  function Visible(d: Table, order: seq<string>): (r: seq<Summary>)
    requires forall k :: k in order ==> k in d.entries
    ensures |r| <= |order|
    decreases |order|
  {
    if order == [] then []
    else
      var rec := d.entries[order[0]];
      (if rec.isMetadataStub then [] else [Summarize(rec)]) + Visible(d, order[1..])
  }

  /** listDownloads: an unscoped refresh when the daemon is available and something is tracked, then
      the summaries. */
  function List(env: Env, g: Gate, st: Store, replies: seq<BatchReply>): (out: (Store, seq<Summary>))
    requires Wf(st.downloads)
    ensures |out.1| <= |out.0.downloads.order|
    ensures !g.available || st.downloads.Size() == 0 ==> out.0 == st
    ensures st.scans <= out.0.scans
  {
    var st' := if g.available && st.downloads.Size() > 0 then Refresh(env, g.Ready(), st, [], replies) else st;
    RefreshWf(env, g.Ready(), st, [], replies);
    (st', Visible(st'.downloads, st'.downloads.order))
  }

  /** Since no record is ever a metadata stub, the list has one summary per tracked download, in
      insertion order. */
  lemma {:induction false} VisibleAll(d: Table, order: seq<string>)
    requires Wf(d) && forall k :: k in order ==> k in d.entries
    ensures |Visible(d, order)| == |order|
    ensures forall i :: 0 <= i < |order| ==> Visible(d, order)[i] == Summarize(d.entries[order[i]])
    decreases |order|
  {
    if order != [] {
      VisibleAll(d, order[1..]);
      assert !d.entries[order[0]].isMetadataStub;
      var tail := Visible(d, order[1..]);
      assert Visible(d, order) == [Summarize(d.entries[order[0]])] + tail;
      forall i | 0 < i < |order| ensures Visible(d, order)[i] == Summarize(d.entries[order[i]]) {
        assert order[i] == order[1..][i - 1];
      }
    }
  }

  lemma ListSpec(env: Env, g: Gate, st: Store, replies: seq<BatchReply>)
    requires Wf(st.downloads)
    ensures var out := List(env, g, st, replies); var d' := out.0.downloads;
      Wf(d') && |out.1| == |d'.order| == |d'.entries|
      && (forall i :: 0 <= i < |d'.order| ==> out.1[i] == Summarize(d'.entries[d'.order[i]]))
      && (!g.Ready() ==> out.0 == st)
  {
    var out := List(env, g, st, replies);
    RefreshWf(env, g.Ready(), st, [], replies);
    VisibleAll(out.0.downloads, out.0.downloads.order);
    SizeIsOrderLength(out.0.downloads.entries, out.0.downloads.order);
  }
}
