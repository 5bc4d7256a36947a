/** The LibraryManager class of server/libraryManager.js: the library data and the scanning flag as
    fields, and the list maintenance and the scan as methods that update them in place. Each method's
    new state is the one LibraryData gives. */
module Library {
  import opened Wrappers
  import opened MediaNames
  import opened LibraryData

  lemma UpdateTwice<T>(s: seq<T>, i: nat, a: T, b: T)
    requires i < |s|
    ensures s[i := a][i := b] == s[i := b]
  {
  }

  lemma PrefixAll<A, B>(a: seq<A>, b: seq<B>)
    ensures a[..|a|] == a && b[..|b|] == b
  {
  }

  class LibraryManager {
    /** this.data */
    var data: Data
    /** this.scanning */
    var scanning: bool

    constructor(initial: Data)
      ensures data == initial && !scanning
    {
      data := initial;
      scanning := false;
    }

    /** ensureSource for the video at index i. */
    method EnsureSource(i: nat, relativePath: string)
      requires i < |data.videos|
      modifies this
      ensures data == old(data).(videos := old(data).videos[i :=
        old(data).videos[i].(sources := WithSource(old(data).videos[i].sources, EncodeMediaPath(relativePath)))])
      ensures scanning == old(scanning)
    {
      var video := data.videos[i];
      data := data.(videos := data.videos[i := video.(sources := WithSource(video.sources, EncodeMediaPath(relativePath)))]);
    }

    /** markUnmatched for the video at index i, at clock reading now. */
    method MarkUnmatched(i: nat, reason: string, now: string)
      requires i < |data.videos|
      modifies this
      ensures data == old(data).(unmatched := LibraryData.MarkUnmatched(old(data).unmatched, UnmatchedEntry(old(data).videos[i], reason, now)))
      ensures scanning == old(scanning)
    {
      var payload := UnmatchedEntry(data.videos[i], reason, now);
      data := data.(unmatched := LibraryData.MarkUnmatched(data.unmatched, payload));
    }

    /** clearUnmatched */
    method ClearUnmatched(videoId: string)
      modifies this
      ensures data == old(data).(unmatched := LibraryData.ClearUnmatched(old(data).unmatched, videoId))
      ensures scanning == old(scanning)
    {
      data := data.(unmatched := LibraryData.ClearUnmatched(data.unmatched, videoId));
    }

    /** applyMetadata for the video at index i: the metadata is merged in and its unmatched entry is
        cleared. */
    method ApplyMetadata(i: nat, metadata: Metadata)
      requires i < |data.videos|
      modifies this
      ensures data == old(data).(
        videos := old(data).videos[i := LibraryData.ApplyMetadata(old(data).videos[i], metadata)],
        unmatched := LibraryData.ClearUnmatched(old(data).unmatched, old(data).videos[i].id))
      ensures scanning == old(scanning)
    {
      var video := data.videos[i];
      data := data.(videos := data.videos[i := LibraryData.ApplyMetadata(video, metadata)]);
      ClearUnmatched(video.id);
    }

    /** The video of the parsed id, pushed when missing, with its file name set; its index. */
    method Track(relativePath: string, parsed: ParsedName, now: string) returns (i: nat)
      modifies this
      ensures i == Tracked(old(data.videos), parsed, relativePath, now).1
      ensures data == old(data).(videos := Tracked(old(data.videos), parsed, relativePath, now).0[i :=
        Tracked(old(data.videos), parsed, relativePath, now).0[i].(fileName := relativePath)])
      ensures scanning == old(scanning)
    {
      var found := FindVideo(data.videos, parsed.id);
      if found.None? {
        data := data.(videos := data.videos + [NewVideo(parsed, relativePath, now)]);
        i := |data.videos| - 1;
      } else {
        i := found.value;
      }
      data := data.(videos := data.videos[i := data.videos[i].(fileName := relativePath)]);
    }

    /** One iteration of the scan loop. */
    method ScanOne(relativePath: string, parsed: ParsedName, reply: MetaReply, forceRefresh: bool, now: string)
      modifies this
      ensures data == ScanFile(old(data), relativePath, parsed, reply, forceRefresh, now)
      ensures scanning == old(scanning)
    {
      ghost var d0 := data;
      ghost var t := Tracked(d0.videos, parsed, relativePath, now);
      var i := Track(relativePath, parsed, now);
      ghost var named := t.0[i].(fileName := relativePath);
      EnsureSource(i, relativePath);
      ghost var v := Located(t.0[i], relativePath);
      assert v == named.(sources := WithSource(named.sources, EncodeMediaPath(relativePath)));
      UpdateTwice(t.0, i, named, v);
      assert data.videos == t.0[i := v];
      Lookup(i, reply, forceRefresh, now);
    }

    /** The metadata step of the scan loop for the video at index i. */
    method Lookup(i: nat, reply: MetaReply, forceRefresh: bool, now: string)
      requires i < |data.videos|
      modifies this
      ensures var outcome := Refreshed(old(data).videos[i], old(data).unmatched, reply, forceRefresh, now);
        data == Data(old(data).videos[i := outcome.0], outcome.1, old(data).lastScan)
      ensures scanning == old(scanning)
    {
      var video := data.videos[i];
      if ShouldFetch(video, forceRefresh) {
        match reply
        case Found(metadata) =>
          Accept(i, metadata, now);
        case Failed(error) =>
          if error == "" {
            Accept(i, NoMetadata, now);
          } else {
            Reject(i, error, now);
          }
      }
    }

    /** A lookup that gave metadata (or an empty error): merged in, ready and synced now. */
    method Accept(i: nat, metadata: Metadata, now: string)
      requires i < |data.videos|
      modifies this
      ensures data == old(data).(
        videos := old(data).videos[i := LibraryData.ApplyMetadata(old(data).videos[i], metadata).(status := "ready", lastSync := Some(now))],
        unmatched := LibraryData.ClearUnmatched(old(data).unmatched, old(data).videos[i].id))
      ensures scanning == old(scanning)
    {
      ApplyMetadata(i, metadata);
      data := data.(videos := data.videos[i := data.videos[i].(status := "ready", lastSync := Some(now))]);
    }

    /** A lookup that failed: a ready video stays ready, any other is pending, and the file is marked
        unmatched with the error as its reason. */
    method Reject(i: nat, error: string, now: string)
      requires i < |data.videos|
      modifies this
      ensures var v := old(data).videos[i].(status := if old(data).videos[i].status == "ready" then "ready" else "pending");
        data == old(data).(
          videos := old(data).videos[i := v],
          unmatched := LibraryData.MarkUnmatched(old(data).unmatched, UnmatchedEntry(v, Or(error, UnknownError), now)))
      ensures scanning == old(scanning)
    {
      var video := data.videos[i];
      data := data.(videos := data.videos[i := video.(status := if video.status == "ready" then "ready" else "pending")]);
      MarkUnmatched(i, Or(error, UnknownError), now);
    }

    /** The retain-seen filter of the videos; each dropped video has its unmatched entry cleared, and
        then only the entries of seen ids stay. */
    method RetainSeen(seen: set<string>)
      modifies this
      ensures data == old(data).(videos := KeepSeen(old(data).videos, VideoId, seen), unmatched := KeepSeen(old(data).unmatched, UnmatchedId, seen))
      ensures scanning == old(scanning)
    {
      var videos := data.videos;
      var kept: seq<Video> := [];
      var k := 0;
      while k < |videos|
        invariant k <= |videos|
        invariant data == old(data).(unmatched := data.unmatched)
        invariant kept + KeepSeen(videos[k..], VideoId, seen) == KeepSeen(videos, VideoId, seen)
        invariant KeepSeen(data.unmatched, UnmatchedId, seen) == KeepSeen(old(data).unmatched, UnmatchedId, seen)
        invariant scanning == old(scanning)
      {
        var video := videos[k];
        KeepSeenNext(videos, k, VideoId, seen);
        if video.id in seen {
          assert kept + [video] + KeepSeen(videos[k + 1..], VideoId, seen) == kept + ([video] + KeepSeen(videos[k + 1..], VideoId, seen));
          kept := kept + [video];
        } else {
          KeepSeenAfterClear(data.unmatched, video.id, seen);
          ClearUnmatched(video.id);
        }
        k := k + 1;
      }
      data := data.(videos := kept, unmatched := KeepSeen(data.unmatched, UnmatchedId, seen));
    }

    /** The iteration of the scan loop for the k-th listed file. */
    method ScanNext(ghost loaded: Data, files: Listing, names: seq<ParsedName>, k: nat, forceRefresh: bool, now: string)
      requires |names| == |files| && k < |files|
      requires data == ScanFiles(loaded, files[..k], names[..k], forceRefresh, now)
      modifies this
      ensures data == ScanFiles(loaded, files[..k + 1], names[..k + 1], forceRefresh, now)
      ensures scanning == old(scanning)
    {
      ScanOne(files[k].0, names[k], files[k].1, forceRefresh, now);
      ScanFilesNext(loaded, files, names, k, forceRefresh, now);
    }

    /** The loop of scan over the listed files and their parsed names. */
    method ScanAll(files: Listing, names: seq<ParsedName>, forceRefresh: bool, now: string)
      requires |names| == |files|
      modifies this
      ensures data == ScanFiles(old(data), files, names, forceRefresh, now)
      ensures scanning == old(scanning)
    {
      ghost var loaded := data;
      var k := 0;
      while k < |files|
        invariant k <= |files| && scanning == old(scanning)
        invariant data == ScanFiles(loaded, files[..k], names[..k], forceRefresh, now)
      {
        ScanNext(loaded, files, names, k, forceRefresh, now);
        k := k + 1;
      }
      PrefixAll(files, names);
    }

    /** scan: a no-op while a scan runs; otherwise the stored data is loaded (stored is None when there
        is none to read), every listed file is visited with the reply its metadata lookup gives, and
        the videos and entries of files no longer listed are dropped. listing is None when the media
        directory could not be listed, which makes the call fail; scanning is false afterwards. */
    method Scan(stored: Option<Data>, listing: Option<Listing>, forceRefresh: bool, now: string) returns (r: Option<Data>)
      modifies this
      ensures old(scanning) ==> data == old(data) && scanning && r == Some(data)
      ensures !old(scanning) ==> !scanning
      ensures !old(scanning) && listing.None? ==> r.None? && data == stored.GetOr(old(data))
      ensures !old(scanning) && listing.Some? ==>
        data == ScanResult(stored.GetOr(old(data)), listing.value, forceRefresh, now) && r == Some(data)
    {
      if scanning {
        return Some(data);
      }
      scanning := true;
      if stored.Some? {
        data := stored.value;
      }
      if listing.None? {
        scanning := false;
        return None;
      }
      var files := listing.value;
      var names := ParsedNames(files);
      ScanAll(files, names, forceRefresh, now);
      RetainSeen(SeenIds(names));
      data := data.(lastScan := now);
      scanning := false;
      r := Some(data);
    }
  }
}
