/** The library data of server/libraryManager.js as values: videos with their sources, the list of
    files that found no metadata, and the pure rules that LibraryManager applies to them in place.
    The empty string stands for a missing or falsy text field, as `||` treats both alike. */
module LibraryData {
  import opened Wrappers
  import opened Text
  import opened MediaNames

  /** A playable source of a video (`label` in the source). */
  datatype Source = Source(caption: string, resolution: string, src: string)

  datatype Video = Video(
    id: string, title: string, originalTitle: string, year: string, duration: string,
    description: string, poster: string, backdrop: string, collection: string,
    tags: Option<seq<string>>, sources: seq<Source>, fileName: string, createdAt: string,
    status: string, source: string, lastSync: Option<string>)

  /** An entry of `data.unmatched`. */
  datatype Unmatched = Unmatched(id: string, title: string, fileName: string, reason: string, lastAttempt: string)

  /** What fetchMetadata returns on success. */
  datatype Metadata = Metadata(
    title: string, originalTitle: string, year: string, duration: string, description: string,
    poster: string, backdrop: string, tags: Option<seq<string>>, collection: string, source: string)

  /** The reply of the metadata lookup for one file: metadata, or an object carrying an error message. */
  datatype MetaReply = Found(metadata: Metadata) | Failed(error: string)

  /** this.data */
  datatype Data = Data(videos: seq<Video>, unmatched: seq<Unmatched>, lastScan: string)

  const DefaultCaption: string := "Yerel Dosya"
  const DefaultResolution: string := "Otomatik"
  const DefaultCollection: string := "Diğer Videolar"
  const UnknownError: string := "Bilinmeyen hata"

  /** `a || b` on texts. */
  function Or(a: string, b: string): (r: string)
    ensures r == a || r == b
    ensures r == "" <==> a == "" && b == ""
  {
    if a != "" then a else b
  }

  /** `a && b` on texts: a when it is empty (falsy), b otherwise. */
  function And(a: string, b: string): (r: string)
    ensures r == a || r == b
    ensures r == "" <==> a == "" || b == ""
  {
    if a == "" then a else b
  }

  /** isMetadataComplete: a description and a poster are present. */
  predicate IsMetadataComplete(v: Video)
    ensures IsMetadataComplete(v) <==> And(v.description, v.poster) != ""
  {
    v.description != "" && v.poster != ""
  }

  // ----- sources -----

  /** The index of the first source with this src (Array.prototype.find). */
  function FindSource(sources: seq<Source>, src: string): (r: Option<nat>)
    ensures r.None? <==> forall i :: 0 <= i < |sources| ==> sources[i].src != src
    ensures r.Some? ==> (r.value < |sources| && sources[r.value].src == src
      && forall j :: 0 <= j < r.value ==> sources[j].src != src)
  {
    if sources == [] then None
    else if sources[0].src == src then Some(0)
    else
      match FindSource(sources[1..], src)
      case Some(i) => Some(i + 1)
      case None => None
  }

  /** ensureSource on the sources of a video, for the encoded URL of its file. */
  function WithSource(sources: seq<Source>, encoded: string): (r: seq<Source>)
    ensures |r| == if sources == [] then 1 else |sources|
    ensures exists i :: 0 <= i < |r| && r[i].src == encoded && r[i].caption != "" && r[i].resolution != ""
    ensures FindSource(sources, encoded).Some? ==>
      var i := FindSource(sources, encoded).value;
      r[i] == sources[i].(caption := Or(sources[i].caption, DefaultCaption), resolution := Or(sources[i].resolution, DefaultResolution))
      && forall j :: 0 <= j < |sources| && j != i ==> r[j] == sources[j]
    ensures FindSource(sources, encoded).None? ==>
      r[0] == Source(DefaultCaption, DefaultResolution, encoded) && r[1..] == if sources == [] then [] else sources[1..]
  {
    match FindSource(sources, encoded)
    case Some(i) =>
      var s := sources[i];
      var r := sources[i := s.(caption := Or(s.caption, DefaultCaption), resolution := Or(s.resolution, DefaultResolution))];
      assert r[i].src == encoded && r[i].caption != "" && r[i].resolution != "";
      r
    case None =>
      var base := Source(DefaultCaption, DefaultResolution, encoded);
      var r := if sources == [] then [base] else [base] + sources[1..];
      assert r[0] == base;
      r
  }

  /** A second ensureSource for the same file changes nothing. */
  lemma WithSourceIdempotent(sources: seq<Source>, encoded: string)
    ensures WithSource(WithSource(sources, encoded), encoded) == WithSource(sources, encoded)
  {
    var once := WithSource(sources, encoded);
    match FindSource(sources, encoded)
    case Some(i) =>
      assert FindSource(once, encoded) == Some(i);
    case None =>
      assert once[0].src == encoded;
      assert FindSource(once, encoded) == Some(0);
  }

  // ----- the unmatched list -----

  function UnmatchedIds(u: seq<Unmatched>): set<string> {
    set i | 0 <= i < |u| :: u[i].id
  }

  predicate DistinctUnmatched(u: seq<Unmatched>) {
    forall i, j :: 0 <= i < j < |u| ==> u[i].id != u[j].id
  }

  /** The index of the first entry with this id. */
  function FindUnmatched(u: seq<Unmatched>, id: string): (r: Option<nat>)
    ensures r.None? <==> id !in UnmatchedIds(u)
    ensures r.Some? ==> r.value < |u| && u[r.value].id == id && forall j :: 0 <= j < r.value ==> u[j].id != id
  {
    if u == [] then None
    else if u[0].id == id then Some(0)
    else
      match FindUnmatched(u[1..], id)
      case Some(i) => Some(i + 1)
      case None =>
        assert forall j :: 1 <= j < |u| ==> u[j] == u[1..][j - 1];
        None
  }

  /** markUnmatched: the first entry with the payload's id is overwritten by it, or the payload is
      appended. The payload is in the list afterwards, the ids gain at most its id, the list grows
      only when the id was new, and entries with other ids keep their place. */
  function MarkUnmatched(u: seq<Unmatched>, payload: Unmatched): (r: seq<Unmatched>)
    ensures payload in r
    ensures UnmatchedIds(r) == UnmatchedIds(u) + {payload.id}
    ensures |r| == (if payload.id in UnmatchedIds(u) then |u| else |u| + 1)
    ensures forall i :: 0 <= i < |u| && u[i].id != payload.id ==> r[i] == u[i]
  {
    match FindUnmatched(u, payload.id)
    case Some(i) =>
      ReplacedIds(u, i, payload);
      var r := u[i := payload];
      assert r[i] == payload;
      r
    case None =>
      AppendedIds(u, payload);
      u + [payload]
  }

  lemma ReplacedIds(u: seq<Unmatched>, i: nat, payload: Unmatched)
    requires i < |u| && u[i].id == payload.id
    ensures UnmatchedIds(u[i := payload]) == UnmatchedIds(u)
  {
    var r := u[i := payload];
    forall x ensures x in UnmatchedIds(r) <==> x in UnmatchedIds(u) {
      if x in UnmatchedIds(u) {
        var j :| 0 <= j < |u| && u[j].id == x;
        assert r[j].id == x;
      }
      if x in UnmatchedIds(r) {
        var j :| 0 <= j < |r| && r[j].id == x;
        assert u[j].id == x;
      }
    }
  }

  lemma AppendedIds(u: seq<Unmatched>, payload: Unmatched)
    ensures UnmatchedIds(u + [payload]) == UnmatchedIds(u) + {payload.id}
  {
    var r := u + [payload];
    assert r[|u|] == payload;
    forall x | x in UnmatchedIds(r) ensures x in UnmatchedIds(u) + {payload.id} {
      var j :| 0 <= j < |r| && r[j].id == x;
      if j < |u| { assert u[j].id == x; }
    }
    forall x | x in UnmatchedIds(u) ensures x in UnmatchedIds(r) {
      var j :| 0 <= j < |u| && u[j].id == x;
      assert r[j].id == x;
    }
  }

  /** Upserting by id keeps the ids of the list distinct. */
  lemma MarkUnmatchedDistinct(u: seq<Unmatched>, payload: Unmatched)
    requires DistinctUnmatched(u)
    ensures DistinctUnmatched(MarkUnmatched(u, payload))
  {
    match FindUnmatched(u, payload.id)
    case Some(i) =>
    case None =>
      var r := MarkUnmatched(u, payload);
      forall i, j | 0 <= i < j < |r| ensures r[i].id != r[j].id {
        if j == |u| {
          assert u[i].id in UnmatchedIds(u);
        }
      }
  }

  /** clearUnmatched: the entries without this id, in their order. */
  function ClearUnmatched(u: seq<Unmatched>, id: string): (r: seq<Unmatched>)
    ensures |r| <= |u|
    decreases |u|
  {
    if u == [] then []
    else
      var rest := ClearUnmatched(u[1..], id);
      if u[0].id == id then rest else [u[0]] + rest
  }

  /** Exactly the entries with the id are removed, and with them exactly that id. */
  lemma {:induction false} ClearUnmatchedSpec(u: seq<Unmatched>, id: string)
    ensures var r := ClearUnmatched(u, id);
      (forall x :: x in r <==> x in u && x.id != id) && UnmatchedIds(r) == UnmatchedIds(u) - {id}
    decreases |u|
  {
    if u != [] {
      ClearUnmatchedSpec(u[1..], id);
      var r := ClearUnmatched(u, id);
      assert forall x :: x in u <==> x == u[0] || x in u[1..];
      forall x ensures x in UnmatchedIds(r) <==> x in UnmatchedIds(u) - {id} {
        if x in UnmatchedIds(r) {
          var j :| 0 <= j < |r| && r[j].id == x;
          assert r[j] in u;
          var k :| 0 <= k < |u| && u[k] == r[j];
        }
        if x in UnmatchedIds(u) - {id} {
          var j :| 0 <= j < |u| && u[j].id == x;
          assert u[j] in r;
          var k :| 0 <= k < |r| && r[k] == u[j];
        }
      }
    }
  }

  /** Clearing an id that was just marked leaves what clearing alone leaves. */
  lemma ClearAfterMark(u: seq<Unmatched>, payload: Unmatched)
    ensures ClearUnmatched(MarkUnmatched(u, payload), payload.id) == ClearUnmatched(u, payload.id)
  {
    match FindUnmatched(u, payload.id)
    case Some(i) => ClearReplaced(u, i, payload);
    case None => ClearAppended(u, payload);
  }

  lemma {:induction false} ClearReplaced(u: seq<Unmatched>, i: nat, payload: Unmatched)
    requires i < |u| && u[i].id == payload.id
    ensures ClearUnmatched(u[i := payload], payload.id) == ClearUnmatched(u, payload.id)
    decreases |u|
  {
    if i > 0 {
      assert u[i := payload][1..] == u[1..][i - 1 := payload];
      ClearReplaced(u[1..], i - 1, payload);
    } else {
      assert u[i := payload][1..] == u[1..];
    }
  }

  lemma {:induction false} ClearAppended(u: seq<Unmatched>, payload: Unmatched)
    ensures ClearUnmatched(u + [payload], payload.id) == ClearUnmatched(u, payload.id)
    decreases |u|
  {
    if u == [] {
      assert ClearUnmatched([payload][1..], payload.id) == [];
    } else {
      assert (u + [payload])[1..] == u[1..] + [payload];
      ClearAppended(u[1..], payload);
    }
  }

  /** `xs.filter(x => seenIds.has(key(x)))`: the scan filters both the videos and the unmatched
      entries this way. */
  function KeepSeen<T>(xs: seq<T>, key: T -> string, seen: set<string>): (r: seq<T>)
    ensures |r| <= |xs|
    decreases |xs|
  {
    if xs == [] then []
    else
      var rest := KeepSeen(xs[1..], key, seen);
      if key(xs[0]) in seen then [xs[0]] + rest else rest
  }

  /** Exactly the elements with a seen key stay. */
  lemma {:induction false} KeepSeenMembers<T(!new)>(xs: seq<T>, key: T -> string, seen: set<string>)
    ensures forall x :: x in KeepSeen(xs, key, seen) <==> x in xs && key(x) in seen
    decreases |xs|
  {
    if xs != [] {
      KeepSeenMembers(xs[1..], key, seen);
      assert forall x :: x in xs <==> x == xs[0] || x in xs[1..];
    }
  }

  /** The filter over a suffix takes or drops its first element. */
  lemma KeepSeenNext<T>(xs: seq<T>, k: nat, key: T -> string, seen: set<string>)
    requires k < |xs|
    ensures KeepSeen(xs[k..], key, seen) == (if key(xs[k]) in seen then [xs[k]] else []) + KeepSeen(xs[k + 1..], key, seen)
  {
    assert xs[k..][1..] == xs[k + 1..];
  }

  function UnmatchedId(e: Unmatched): string { e.id }

  /** Only entries of seen ids stay. */
  lemma KeepSeenUnmatchedIds(u: seq<Unmatched>, seen: set<string>)
    ensures UnmatchedIds(KeepSeen(u, UnmatchedId, seen)) <= seen
  {
    var r := KeepSeen(u, UnmatchedId, seen);
    KeepSeenMembers(u, UnmatchedId, seen);
    forall x | x in UnmatchedIds(r) ensures x in seen {
      var j :| 0 <= j < |r| && r[j].id == x;
      assert r[j] in r && UnmatchedId(r[j]) == x;
    }
  }

  /** Clearing an unseen id before keeping the seen entries changes nothing. */
  lemma {:induction false} KeepSeenAfterClear(u: seq<Unmatched>, id: string, seen: set<string>)
    requires id !in seen
    ensures KeepSeen(ClearUnmatched(u, id), UnmatchedId, seen) == KeepSeen(u, UnmatchedId, seen)
    decreases |u|
  {
    if u != [] {
      KeepSeenAfterClear(u[1..], id, seen);
      if u[0].id != id {
        assert ([u[0]] + ClearUnmatched(u[1..], id))[1..] == ClearUnmatched(u[1..], id);
      }
    }
  }

  // ----- metadata -----

  /** applyMetadata without the clearing of the unmatched entry: present metadata wins, the video's own
      values stay otherwise, and the status becomes ready. */
  function ApplyMetadata(v: Video, m: Metadata): (r: Video)
    ensures r.status == "ready"
    ensures r.id == v.id && r.sources == v.sources && r.fileName == v.fileName && r.createdAt == v.createdAt
      && r.lastSync == v.lastSync
    ensures r.collection != "" && r.source != "" && r.tags.Some?
    ensures r.originalTitle == "" ==> r.title == ""
  {
    v.(
      title := Or(m.title, v.title),
      originalTitle := Or(m.originalTitle, Or(m.title, Or(v.originalTitle, v.title))),
      year := Or(m.year, v.year),
      duration := Or(m.duration, v.duration),
      description := Or(m.description, v.description),
      poster := Or(m.poster, v.poster),
      backdrop := Or(m.backdrop, v.backdrop),
      tags := if m.tags.Some? then m.tags else if v.tags.Some? then v.tags else Some([]),
      collection := Or(m.collection, Or(v.collection, DefaultCollection)),
      source := Or(m.source, Or(v.source, "manual")),
      status := "ready")
  }

  /** Metadata never takes away a field: a complete video stays complete, and metadata with a
      description and a poster completes any video. */
  lemma ApplyCompletes(v: Video, m: Metadata)
    ensures IsMetadataComplete(v) ==> IsMetadataComplete(ApplyMetadata(v, m))
    ensures m.description != "" && m.poster != "" ==> IsMetadataComplete(ApplyMetadata(v, m))
  {
  }

  /** Applying the same metadata twice is applying it once. */
  lemma ApplyIdempotent(v: Video, m: Metadata)
    ensures ApplyMetadata(ApplyMetadata(v, m), m) == ApplyMetadata(v, m)
  {
  }

  /** What applyMetadata reads from an object that carries only an empty error message. */
  const NoMetadata: Metadata := Metadata("", "", "", "", "", "", "", None, "", "")

  // ----- the scan -----

  function VideoIds(vs: seq<Video>): set<string> {
    set i | 0 <= i < |vs| :: vs[i].id
  }

  predicate DistinctVideos(vs: seq<Video>) {
    forall i, j :: 0 <= i < j < |vs| ==> vs[i].id != vs[j].id
  }

  /** The index of the first video with this id. */
  function FindVideo(vs: seq<Video>, id: string): (r: Option<nat>)
    ensures r.None? <==> id !in VideoIds(vs)
    ensures r.Some? ==> r.value < |vs| && vs[r.value].id == id && forall j :: 0 <= j < r.value ==> vs[j].id != id
  {
    if vs == [] then None
    else if vs[0].id == id then Some(0)
    else
      match FindVideo(vs[1..], id)
      case Some(i) => Some(i + 1)
      case None =>
        assert forall j :: 1 <= j < |vs| ==> vs[j] == vs[1..][j - 1];
        None
  }

  /** The record scan creates for a file without a video. */
  function NewVideo(parsed: ParsedName, relativePath: string, now: string): (r: Video)
    ensures r.id == parsed.id && r.title == parsed.title && r.originalTitle == parsed.title && r.year == parsed.year
    ensures r.fileName == relativePath && r.createdAt == now && r.sources == []
    ensures r.status == "pending" && !IsMetadataComplete(r)
    ensures ShouldFetch(r, false)
  {
    Video(parsed.id, parsed.title, parsed.title, parsed.year, "", "", "", "", DefaultCollection,
      Some([]), [], relativePath, now, "pending", "auto", None)
  }

  /** The video list with one video for the parsed id, and that video's index. */
  function Tracked(vs: seq<Video>, parsed: ParsedName, relativePath: string, now: string): (r: (seq<Video>, nat))
    ensures r.1 < |r.0| && r.0[r.1].id == parsed.id
  {
    match FindVideo(vs, parsed.id)
    case Some(i) => (vs, i)
    case None => (vs + [NewVideo(parsed, relativePath, now)], |vs|)
  }

  /** The tracked list keeps every video, adds at most the parsed id, and keeps ids distinct. */
  lemma TrackedIds(vs: seq<Video>, parsed: ParsedName, relativePath: string, now: string)
    ensures var r := Tracked(vs, parsed, relativePath, now);
      VideoIds(r.0) == VideoIds(vs) + {parsed.id}
      && |r.0| >= |vs| && (forall i :: 0 <= i < |vs| ==> r.0[i] == vs[i])
      && (DistinctVideos(vs) ==> DistinctVideos(r.0))
  {
    match FindVideo(vs, parsed.id)
    case Some(i) =>
    case None =>
      var r := vs + [NewVideo(parsed, relativePath, now)];
      assert r[|vs|].id == parsed.id;
      assert VideoIds(r) == VideoIds(vs) + {parsed.id} by {
        forall x | x in VideoIds(r) ensures x in VideoIds(vs) + {parsed.id} {
          var j :| 0 <= j < |r| && r[j].id == x;
          if j < |vs| { assert vs[j].id == x; }
        }
        forall x | x in VideoIds(vs) ensures x in VideoIds(r) {
          var j :| 0 <= j < |vs| && vs[j].id == x;
          assert r[j].id == x;
        }
      }
      assert DistinctVideos(vs) ==> DistinctVideos(r) by {
        if DistinctVideos(vs) {
          forall i, j | 0 <= i < j < |r| ensures r[i].id != r[j].id {
            if j == |vs| { assert vs[i].id in VideoIds(vs); }
          }
        }
      }
  }

  /** shouldFetch */
  predicate ShouldFetch(v: Video, forceRefresh: bool) {
    forceRefresh || !IsMetadataComplete(v) || v.status != "ready"
  }

  /** The payload markUnmatched records for a video. */
  function UnmatchedEntry(v: Video, reason: string, now: string): Unmatched {
    Unmatched(v.id, v.title, v.fileName, reason, now)
  }

  /** The outcome of the metadata step for one video: the video and the unmatched list after it. A
      lookup with metadata (or with an empty error) makes the video ready and clears its entry; a
      failed one leaves a video that was not ready pending and records the error as its reason. The
      video keeps its id, file and sources, and no id other than its own enters the unmatched list. */
  function Fetched(v: Video, u: seq<Unmatched>, reply: MetaReply, now: string): (r: (Video, seq<Unmatched>))
    ensures r.0.id == v.id && r.0.sources == v.sources && r.0.fileName == v.fileName
    ensures UnmatchedIds(r.1) <= UnmatchedIds(u) + {v.id}
    ensures r.0.status == "ready" <==> v.status == "ready" || reply.Found? || reply.error == ""
    ensures r.0.status != "ready" ==> r.0.status == "pending"
    ensures reply.Found? || reply.error == "" ==> r.1 == ClearUnmatched(u, v.id) && r.0.lastSync == Some(now)
    ensures reply.Failed? && reply.error != "" ==> r.1 == MarkUnmatched(u, UnmatchedEntry(r.0, reply.error, now)) && r.0.lastSync == v.lastSync
  {
    ClearUnmatchedSpec(u, v.id);
    match reply
    case Found(m) => (ApplyMetadata(v, m).(status := "ready", lastSync := Some(now)), ClearUnmatched(u, v.id))
    case Failed(e) =>
      if e == "" then (ApplyMetadata(v, NoMetadata).(status := "ready", lastSync := Some(now)), ClearUnmatched(u, v.id))
      else
        var v' := v.(status := if v.status == "ready" then "ready" else "pending");
        (v', MarkUnmatched(u, UnmatchedEntry(v', Or(e, UnknownError), now)))
  }

  /** The video after `fileName` is set and ensureSource ran. */
  function Located(v: Video, relativePath: string): (r: Video)
    ensures r.id == v.id && r.fileName == relativePath
  {
    v.(fileName := relativePath, sources := WithSource(v.sources, EncodeMediaPath(relativePath)))
  }

  /** The metadata step when shouldFetch holds, nothing otherwise. */
  function Refreshed(v: Video, u: seq<Unmatched>, reply: MetaReply, forceRefresh: bool, now: string): (r: (Video, seq<Unmatched>))
    ensures r.0.id == v.id
  {
    if ShouldFetch(v, forceRefresh) then Fetched(v, u, reply, now) else (v, u)
  }

  /** A lookup whose metadata has a description and a poster settles a video: the next scan without
      forceRefresh does not fetch it again. A failed lookup never settles an incomplete video. */
  lemma RefreshedSettles(v: Video, u: seq<Unmatched>, reply: MetaReply, forceRefresh: bool, now: string)
    ensures reply.Found? && reply.metadata.description != "" && reply.metadata.poster != "" ==>
      !ShouldFetch(Refreshed(v, u, reply, forceRefresh, now).0, false)
    ensures reply.Failed? && !IsMetadataComplete(v) ==> ShouldFetch(Refreshed(v, u, reply, forceRefresh, now).0, false)
  {
    if reply.Found? {
      ApplyCompletes(v, reply.metadata);
    }
  }

  /** One iteration of the scan loop for a listed file, its parsed name and the metadata reply its
      lookup would give. It adds the parsed id to the video ids, keeps them distinct, and adds at
      most that id to the unmatched ids. */
  function ScanFile(d: Data, relativePath: string, parsed: ParsedName, reply: MetaReply, forceRefresh: bool, now: string): (r: Data)
    ensures VideoIds(r.videos) == VideoIds(d.videos) + {parsed.id}
    ensures DistinctVideos(d.videos) ==> DistinctVideos(r.videos)
    ensures UnmatchedIds(r.unmatched) <= UnmatchedIds(d.unmatched) + {parsed.id}
    ensures r.lastScan == d.lastScan
  {
    var tracked := Tracked(d.videos, parsed, relativePath, now);
    var vs := tracked.0;
    var i := tracked.1;
    var outcome := Refreshed(Located(vs[i], relativePath), d.unmatched, reply, forceRefresh, now);
    TrackedIds(d.videos, parsed, relativePath, now);
    ReplaceSameId(vs, i, outcome.0);
    Data(vs[i := outcome.0], outcome.1, d.lastScan)
  }

  lemma ReplaceSameId(vs: seq<Video>, i: nat, v: Video)
    requires i < |vs| && vs[i].id == v.id
    ensures VideoIds(vs[i := v]) == VideoIds(vs)
    ensures DistinctVideos(vs) ==> DistinctVideos(vs[i := v])
  {
    var r := vs[i := v];
    forall x ensures x in VideoIds(r) <==> x in VideoIds(vs) {
      if x in VideoIds(vs) {
        var j :| 0 <= j < |vs| && vs[j].id == x;
        assert r[j].id == x;
      }
      if x in VideoIds(r) {
        var j :| 0 <= j < |r| && r[j].id == x;
        assert vs[j].id == x;
      }
    }
  }

  /** The listed files with their replies, in order. */
  type Listing = seq<(string, MetaReply)>

  /** parseFileName of every listed file. */
  function ParsedNames(files: Listing): (r: seq<ParsedName>)
    ensures |r| == |files| && forall k :: 0 <= k < |files| ==> r[k] == ParseFileName(files[k].0)
  {
    seq(|files|, k requires 0 <= k < |files| => ParseFileName(files[k].0))
  }

  /** The ids collected in seenIds. */
  function SeenIds(names: seq<ParsedName>): set<string> {
    if names == [] then {} else SeenIds(names[..|names| - 1]) + {names[|names| - 1].id}
  }

  /** Exactly the ids of the names are seen. */
  lemma {:induction false} SeenIdsAre(names: seq<ParsedName>)
    ensures forall x :: x in SeenIds(names) <==> exists k :: 0 <= k < |names| && names[k].id == x
    decreases |names|
  {
    if names != [] {
      var init := names[..|names| - 1];
      SeenIdsAre(init);
      forall x ensures x in SeenIds(names) <==> exists k :: 0 <= k < |names| && names[k].id == x {
        if x in SeenIds(init) {
          var k :| 0 <= k < |init| && init[k].id == x;
          assert names[k].id == x;
        }
        if exists k :: 0 <= k < |names| && names[k].id == x {
          var k :| 0 <= k < |names| && names[k].id == x;
          if k < |init| { assert init[k].id == x; }
        }
      }
    }
  }

  /** The loop over the files of the listing, in order, with their parsed names. It adds a video for
      every seen id and no other, keeps the video ids distinct, records unmatched entries only for
      seen ids, and keeps the time of the last scan. */
  function ScanFiles(d: Data, files: Listing, names: seq<ParsedName>, forceRefresh: bool, now: string): (r: Data)
    requires |names| == |files|
    ensures VideoIds(r.videos) == VideoIds(d.videos) + SeenIds(names)
    ensures DistinctVideos(d.videos) ==> DistinctVideos(r.videos)
    ensures UnmatchedIds(r.unmatched) <= UnmatchedIds(d.unmatched) + SeenIds(names)
    ensures r.lastScan == d.lastScan
    decreases |files|
  {
    if files == [] then d
    else
      var n := |files| - 1;
      var before := ScanFiles(d, files[..n], names[..n], forceRefresh, now);
      assert SeenIds(names) == SeenIds(names[..n]) + {names[n].id};
      ScanFile(before, files[n].0, names[n], files[n].1, forceRefresh, now)
  }

  /** The loop over one more file is one more iteration. */
  lemma ScanFilesNext(d: Data, files: Listing, names: seq<ParsedName>, k: nat, forceRefresh: bool, now: string)
    requires |names| == |files| && k < |files|
    ensures ScanFiles(d, files[..k + 1], names[..k + 1], forceRefresh, now)
      == ScanFile(ScanFiles(d, files[..k], names[..k], forceRefresh, now), files[k].0, names[k], files[k].1, forceRefresh, now)
  {
    assert files[..k + 1][..k] == files[..k] && names[..k + 1][..k] == names[..k];
  }

  function VideoId(v: Video): string { v.id }

  /** Exactly the seen ids among the videos' ids stay. */
  lemma KeepSeenVideoIds(vs: seq<Video>, seen: set<string>)
    ensures VideoIds(KeepSeen(vs, VideoId, seen)) == VideoIds(vs) * seen
  {
    var r := KeepSeen(vs, VideoId, seen);
    KeepSeenMembers(vs, VideoId, seen);
    forall x ensures x in VideoIds(r) <==> x in VideoIds(vs) * seen {
      if x in VideoIds(r) {
        var j :| 0 <= j < |r| && r[j].id == x;
        assert r[j] in r && VideoId(r[j]) == x;
        var k :| 0 <= k < |vs| && vs[k] == r[j];
      }
      if x in VideoIds(vs) * seen {
        var j :| 0 <= j < |vs| && vs[j].id == x;
        assert vs[j] in vs && VideoId(vs[j]) == x;
        var k :| 0 <= k < |r| && r[k] == vs[j];
      }
    }
  }

  lemma {:induction false} KeepSeenDistinct(vs: seq<Video>, seen: set<string>)
    requires DistinctVideos(vs)
    ensures DistinctVideos(KeepSeen(vs, VideoId, seen))
    decreases |vs|
  {
    if vs != [] {
      var tail := vs[1..];
      DistinctTail(vs);
      KeepSeenDistinct(tail, seen);
      if vs[0].id in seen {
        var rest := KeepSeen(tail, VideoId, seen);
        KeepSeenMembers(tail, VideoId, seen);
        forall j | 0 <= j < |rest| ensures rest[j].id != vs[0].id {
          assert rest[j] in rest;
          var k :| 0 <= k < |tail| && tail[k] == rest[j];
          assert vs[k + 1] == rest[j];
        }
        DistinctCons(vs[0], rest);
      }
    }
  }

  lemma DistinctTail(vs: seq<Video>)
    requires vs != [] && DistinctVideos(vs)
    ensures DistinctVideos(vs[1..])
  {
    var tail := vs[1..];
    forall i, j | 0 <= i < j < |tail| ensures tail[i].id != tail[j].id {
      assert tail[i] == vs[i + 1] && tail[j] == vs[j + 1];
    }
  }

  lemma DistinctCons(v: Video, rest: seq<Video>)
    requires DistinctVideos(rest) && forall j :: 0 <= j < |rest| ==> rest[j].id != v.id
    ensures DistinctVideos([v] + rest)
  {
    var r := [v] + rest;
    forall i, j | 0 <= i < j < |r| ensures r[i].id != r[j].id {
      assert r[j] == rest[j - 1];
      if i > 0 { assert r[i] == rest[i - 1]; }
    }
  }

  /** The whole scan of a listing: the loop, then only seen videos and entries are kept. After it there
      is exactly one video for each id parsed from a listed file, and every unmatched entry belongs to
      such an id. */
  function ScanResult(d: Data, files: Listing, forceRefresh: bool, now: string): (r: Data)
    ensures var names := ParsedNames(files);
      forall x :: x in VideoIds(r.videos) <==> exists k :: 0 <= k < |files| && names[k].id == x
    ensures DistinctVideos(d.videos) ==> DistinctVideos(r.videos)
    ensures var names := ParsedNames(files);
      forall x :: x in UnmatchedIds(r.unmatched) ==> exists k :: 0 <= k < |files| && names[k].id == x
    ensures r.lastScan == now
  {
    var names := ParsedNames(files);
    var looped := ScanFiles(d, files, names, forceRefresh, now);
    KeptIds(d, looped, names, now);
    Kept(looped, SeenIds(names), now)
  }

  /** The data after the filters of the scan. */
  function Kept(looped: Data, seen: set<string>, now: string): Data {
    Data(KeepSeen(looped.videos, VideoId, seen), KeepSeen(looped.unmatched, UnmatchedId, seen), now)
  }

  /** The filters keep one video per seen id and the entries of seen ids only. */
  lemma KeptIds(d: Data, looped: Data, names: seq<ParsedName>, now: string)
    requires VideoIds(looped.videos) == VideoIds(d.videos) + SeenIds(names)
    requires DistinctVideos(d.videos) ==> DistinctVideos(looped.videos)
    ensures var r := Kept(looped, SeenIds(names), now);
      (forall x :: x in VideoIds(r.videos) <==> exists k :: 0 <= k < |names| && names[k].id == x)
      && (DistinctVideos(d.videos) ==> DistinctVideos(r.videos))
      && (forall x :: x in UnmatchedIds(r.unmatched) ==> exists k :: 0 <= k < |names| && names[k].id == x)
  {
    var seen := SeenIds(names);
    KeepSeenVideoIds(looped.videos, seen);
    if DistinctVideos(d.videos) { KeepSeenDistinct(looped.videos, seen); }
    KeepSeenUnmatchedIds(looped.unmatched, seen);
    SeenIdsAre(names);
  }
}
