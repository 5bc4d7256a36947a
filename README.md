# homeVideoDB core, modelled in Dafny

homeVideoDB is a home media server. The model covers its core:

- **Torrent manager** (`server/torrentService.js`). Search over two providers, magnet links, and the
  `TorrentManager` that drives the aria2 download daemon. It keeps a registry of downloads in insertion
  order, reconciles the registry with the daemon's `tellStatus` replies, replaces a metadata download
  by its follower downloads, and starts, pauses, resumes, cancels, adopts and lists downloads.
- **Library manager** (`server/libraryManager.js`). The naming and subtitle helpers (slugs, runtimes,
  media URLs, file-name parsing, SRT to WebVTT conversion, payload sanitising, language hints,
  subtitle track ids) and the `LibraryManager` scan. The scan keeps one video per parsed id, keeps
  each video's source, applies metadata, and maintains the list of unmatched files.
- **Storage service** (`server/storageService.js`). The `df -kP` report, the worklist walk that sizes
  a directory tree, the application/other split of used space, and the one-minute summary cache.
- **Subtitle downloader script** (`scripts/ta_downloader.py`). Result-row parsing, the
  most-downloaded pick per language, file-name sanitising, and the names extracted archive files get.
- **Front-end helpers** (`js/app.js`). The clock and ETA texts, the preview start time, the preferred
  subtitle track, provider labels, and count normalisation.

The model takes the same form as the code.

- **Classes with methods that change their fields.** `TorrentManager` (module `Torrents`),
  `LibraryManager` (module `Library`) and `StorageService` (module `Storage`) are `class`es. Their
  methods change those fields in place. Each method's `ensures` ties the new state to a
  specification function over values:
  - `Commands` and `Reconcile` specify the torrent manager;
  - `LibraryData` specifies the library manager;
  - `Sampled` and `CacheHit` specify the storage service.
  The lemmas beside those functions state what the source promises.
- **Loops.** The source's loops become `while` loops with invariants, proved against a specification
  function. These are:
  - the directory walk, the de-duplication of search hits, the subtitle id loop;
  - the row and rename loops of the script;
  - the scan loop and the retain-seen filter.
- **Pure helpers** are functions with named results, plus lemmas.

Every outside effect is an input of the operation that depends on it:
- the daemon's replies;
- the `df` output;
- what `lstat`/`readdir` report;
- the listing of the media directory;
- the metadata lookup's reply;
- the clock;
- `JSON.parse` success.

Some behaviours of the code that a reader might not expect, all modelled as written:
- The progress fraction is `completed / total` and is not clamped.
- The ETA is `Math.round` of the remaining time, not a ceiling.
- `cancelDownload` keeps the cancelled record and deletes only its followers.
- `cancelDownload` tries `forceRemove` before `remove`.
- The finished duplicates a start purges stay purged when `addUri` then fails.
- `mapAriaStatus` sends `waiting` to `starting`.

## Model

| member | source | states |
|---|---|---|
| Aria.MapAriaStatus | server/torrentService.js:168-188 | Each public state comes from exactly the native words listed for it. `waiting` and every unknown word give `starting` (both directions of each case). |
| Aria.FormatAriaError | server/torrentService.js:190-195 | A result exactly for a non-empty string (the string itself) or an object with a string message (that message); null otherwise. |
| Aria.NormaliseNumber | server/torrentService.js:46-49 | `undefined`, `null` and `false` give 0 and `true` gives 1. A number is kept when it is finite and becomes 0 otherwise. |
| Aria.NormaliseNumberOfText | server/torrentService.js:46-49 | The text of a natural number gives that number. |
| Aria.NormaliseNumberNoDigit | server/torrentService.js:46-49 | Text without a decimal digit gives 0. |
| JsNumbers.Round | server/torrentService.js:455-460 | `Math.round`: the integer within half of x, halves going up. |
| JsNumbers.StringToNumber | server/storageService.js:84-86 | `Number(text)`: blank text is 0, and text without a decimal digit gives 0 or a value that is not finite. |
| JsNumbers.ToNumber | server/torrentService.js:47 | `Number(value)`: a number is itself. NaN comes only from `undefined`, from NaN itself, or from text that is not blank. |
| Magnet.EncodeURIComponent | server/torrentService.js:25-26 | The encoding contains only unreserved characters and `%XX` escapes. So it never contains `&`, which keeps the name and trackers out of the info-hash capture. |
| Magnet.BuildMagnetLink | server/torrentService.js:21-28 | None exactly without a non-empty hash. Otherwise the link starts with `magnet:?xt=urn:btih:` and the hash. |
| Magnet.BuiltLinkStart | server/torrentService.js:21-28 | After the hash comes `&dn=` and the encoded name when there is a name, and `&tr=` otherwise. |
| Magnet.BuildMagnetLinkWith | server/torrentService.js:21-28 | Null exactly without an info hash. Otherwise the link starts with `magnet:?xt=urn:btih:` and the hash, followed by the end of the link or `&`. |
| Magnet.FindBtih | server/torrentService.js:34 | The leftmost case-insensitive match of `btih:` followed by a non-`&` character; none when there is no match. |
| Magnet.ExtractInfoHash | server/torrentService.js:30-44 | None exactly for a missing or empty value or a link without a `btih:` match. Otherwise the lower-cased text after the leftmost `btih:` up to the next `&`, which is non-empty, lower-case and free of `&`. |
| Magnet.ExtractBuildRoundTripWith | server/torrentService.js:21-44 | For any lower-case hex hash, display name and tracker list, extracting from the built link gives the hash back. |
| Magnet.ExtractBuildRoundTrip | server/torrentService.js:11-44 | The same round trip for the links built with the default trackers. |
| Registries.Without | server/torrentService.js:388 | Deleting keys keeps exactly the keys not deleted and never lengthens the order. |
| Registries.WithoutNoDuplicates | server/torrentService.js:388 | Deleting keys keeps the key order free of duplicates. |
| Registries.WithoutTwice | server/torrentService.js:633-635 | Two rounds of deletion are one deletion of the union. |
| Registries.Registry.Set | server/torrentService.js:434 | `Map.set`: the value is stored. An existing key keeps its position and a new key goes last. The order/keys invariant is kept. |
| Registries.Registry.DeleteAll | server/torrentService.js:387-389 | `Map.delete` for each key: exactly those entries leave, the order drops exactly those keys, and the invariant is kept. |
| Registries.Registry.Values | server/torrentService.js:475 | `[...map.values()]`: as many values as keys, every entry's value is listed and every listed value is an entry's. The i-th value belongs to the i-th key in insertion order. |
| Registries.Registry.Size | server/torrentService.js:472 | `map.size` is the number of entries. |
| Registries.SizeIsOrderLength | server/torrentService.js:472 | A duplicate-free order listing every key has one element per entry. |
| Downloads.Followers | server/torrentService.js:542-546 | Every follower id is non-empty and is listed in `followedBy`. |
| Downloads.CreateRecordFromStatus | server/torrentService.js:691-730 | Null exactly without a payload or id. Otherwise the record has: the mapped status; `finalized` true exactly for completed or cancelled; a completion time exactly when completed; the lower-cased info hash; a magnet exactly when there is a hash, and it starts with the prefix and that hash; provider `unknown`; no progress; a size exactly when `totalLength` is non-zero. |
| Downloads.CloneForFollower | server/torrentService.js:553-573 | The follower record has the parent's description, the follower id and `parentGid` set to the parent. All counters are zero and the state starts fresh. The hash and magnet are kept only when truthy. |
| Downloads.TriggerRescan | server/torrentService.js:643-656 | A scan is requested exactly when a library manager exists and the record has not asked before. The record remembers the request whenever a library manager exists, and nothing else changes. |
| Downloads.FinalFiles | server/torrentService.js:615-622 | One entry per daemon file, with the same absolute path and never a size of 0 (0 becomes null). |
| Downloads.Eta | server/torrentService.js:595 | An estimate exactly when the speed and total are positive. It is never negative and lies within half a second of `(total - completed) / speed`. |
| Downloads.Progress | server/torrentService.js:586 | `completed / total` when the total is positive (not clamped). Otherwise 1 for `complete` and 0 for anything else. |
| Downloads.ReadCounters | server/torrentService.js:581-596 | Only the counters and the state change. Each is the parsed reply field. The size falls back to the old non-zero size. The error is present only for a failed download and is then the formatted daemon error. |
| Downloads.ReadDescription | server/torrentService.js:598-622 | Only the description fields change. A truthy hash or magnet is never overwritten. A missing hash is filled from the reply, lower-cased. A missing magnet is built and starts with the prefix and the hash. The torrent name, directory and file list (one entry per daemon file, same paths) replace the old ones only when present. |
| Downloads.DescribedMagnetCarriesHash | server/torrentService.js:598-604 | A record that learns a hex info hash from a reply gets a magnet link from which `extractInfoHash` reads that lower-cased hash back. |
| Downloads.Finish | server/torrentService.js:624-629 | A completed record without a completion time is stamped and asks for a rescan. `finalized` becomes "completed or cancelled". Nothing else changes. |
| Downloads.ApplyStatus | server/torrentService.js:581-629 | The whole update of a tracked record from a reply without followers: identity kept, counters, description and completion as above. A consistent record stays consistent. |
| Downloads.RescanAtMostOnce | server/torrentService.js:624-656 | However many refreshes a record goes through, it requests at most one library scan. It requests none once it has asked, and none without a library manager. |
| Downloads.ToFixed4 | server/torrentService.js:454 | `Number(x.toFixed(4))` is within 0.00005 of x. |
| Downloads.Summarize | server/torrentService.js:447-468 | The API view keeps the identity, status and provider. Speeds, bytes, peers and the estimate are the rounded values clamped at 0. Progress is within 0.00005. The size is present exactly for a non-zero size and is then the rounded size clamped at 0. `finalPath` and `libraryRefreshAt` are present exactly when truthy, and are then the record's. |
| Reconcile.AddFollowers | server/torrentService.js:549-576 | The follower loop only appends to `newChildGids`. |
| Reconcile.AddFollowersSpec | server/torrentService.js:549-576 | The registry invariant is kept, and exactly the untracked non-empty followers are appended to the insertion order. Each gets a clone of the parent, and every tracked record is unchanged. |
| Reconcile.AddFollowersAdded | server/torrentService.js:549-576 | The queued ids are exactly the listed, non-empty, untracked followers. |
| Reconcile.AddFollowersValues | server/torrentService.js:553-574 | Tracked records are untouched, and each queued follower holds the parent's clone. |
| Reconcile.AddFollowersWf | server/torrentService.js:549-576 | The invariant holds afterwards, and the order grows by exactly the queued ids. |
| Reconcile.Admit | server/torrentService.js:532-540 | Afterwards the id is tracked. An existing record is kept as it is; a missing one is created from the reply and inserted last. |
| Reconcile.Step | server/torrentService.js:528-630 | One loop iteration requests at most one scan, never drops an id scheduled for deletion, and only appends to the queue of new followers. |
| Reconcile.Refresh | server/torrentService.js:481-641 | Nothing changes when the daemon is not ready or no reply is left. The scan count never decreases. |
| Reconcile.Unfinalized | server/torrentService.js:487-489 | Exactly the listed ids whose record is missing or not finalized. |
| Reconcile.UnscopedTargets | server/torrentService.js:485-490 | A refresh without ids asks about exactly the tracked, non-empty, non-finalized ids. |
| Reconcile.StepWf | server/torrentService.js:528-630 | One iteration of the loop keeps the registry invariant. |
| Reconcile.RunTargetsWf | server/torrentService.js:528-630 | The loop over the targets keeps the invariant. |
| Reconcile.RefreshLevelWf | server/torrentService.js:528-636 | The loop followed by the deletion of the replaced parents keeps the invariant. |
| Reconcile.RefreshWf | server/torrentService.js:481-641 | Every refresh, followers included, keeps the invariant. Records stay under their own id; `finalized` means completed or cancelled; no record becomes a stub or its own parent; a rescan implies a completion time. |
| Reconcile.StepFrame | server/torrentService.js:528-630 | A step for another id does not change, delete or queue a record. |
| Reconcile.RunTargetsFrame | server/torrentService.js:528-630 | A record that is not targeted survives the loop unchanged. |
| Reconcile.RefreshFrame | server/torrentService.js:481-641 | A tracked record outside the targets keeps its value through the whole recursive refresh. |
| Reconcile.UnscopedRefreshKeepsFinalized | server/torrentService.js:485-489 | A refresh without ids leaves every completed or cancelled record as it was. |
| Reconcile.RefreshWithoutAnswer | server/torrentService.js:482-484 | Nothing changes when the daemon is unavailable or the batch call fails. |
| Reconcile.FanOut | server/torrentService.js:542-579 | A target whose reply lists followers: the target is deleted, and exactly the untracked followers get clones and are queued. Every other record keeps its value, and no scan is requested. |
| Reconcile.PlainUpdate | server/torrentService.js:581-629 | A target without followers is updated by `ApplyStatus`. Nothing is queued, and one scan is counted exactly when the update requested it. |
| Reconcile.PlainStep | server/torrentService.js:581-629 | The loop step for a reply without followers stores the update and counts its scan. |
| Reconcile.FanStep | server/torrentService.js:548-579 | The loop step for a reply with followers runs the follower loop and schedules the parent's deletion. |
| Reconcile.MissingReply | server/torrentService.js:531 | A target without a reply is skipped. |
| Commands.ReadyError | server/torrentService.js:346-354 | No error exactly when the daemon is available and a client exists. Otherwise the error is the start-up error, or the generic message when there is none. |
| Commands.GetStatus | server/torrentService.js:846-851 | `available` needs the flag and the client. The message is null exactly when the flag is set, and is otherwise the start-up error or the default text. |
| Commands.Purge | server/torrentService.js:379-389 | Exactly the finished, failed or cancelled records of the same torrent are removed. The others keep their value, and the invariant is kept. |
| Commands.RequestedSize | server/torrentService.js:415 | A size exactly when `Number(size)` is finite and positive. |
| Commands.NewRecord | server/torrentService.js:391-432 | The inserted record is tracked under the daemon's id and is `starting` with zero counters. Its name is the trimmed name or the default, and its provider is the given one or `unknown`. |
| Commands.StartSummary | server/torrentService.js:436-444 | The summary is of the record now under gid if there is one, else of its first follower in insertion order, else of the record as inserted. |
| Commands.Start | server/torrentService.js:356-445 | The start fails exactly without a magnet, with the daemon not ready, with a running duplicate, or when `addUri` is rejected. A failure has a message and counts no scan. The scan count never decreases. |
| Commands.StartRefused | server/torrentService.js:357-377 | A missing magnet, an unavailable daemon or a running duplicate is refused with its message, and the registry is unchanged. |
| Commands.StartSingleMatch | server/torrentService.js:362-434 | After the purge and the insertion, the new record is the only one for the torrent. Every other record stays unless it was a finished duplicate. |
| Commands.StartRejected | server/torrentService.js:394-406 | A rejected `addUri` leaves the purged registry and reports the daemon's message or the default. |
| Commands.StartWithoutReply | server/torrentService.js:434-444 | Without a status reply, the start is reported as inserted: starting, with no progress. |
| Commands.StartWf | server/torrentService.js:356-445 | Every start keeps the registry invariant. |
| Commands.Mark | server/torrentService.js:785-789 | Only the record under gid changes: its new status, not finalized. The invariant is kept. |
| Commands.Toggle | server/torrentService.js:775-811 | A pause or resume fails exactly without a gid, with the daemon not ready, or when the daemon rejects it. A failure changes nothing and has a message whenever there is a default message. A success reports null exactly when gid is tracked neither before nor after. |
| Commands.ToggleRefused | server/torrentService.js:775-784 | A pause or resume without a gid, with the daemon not ready, or rejected by the daemon fails and changes nothing. A rejection reports the daemon's message, or the default. |
| Commands.ToggleWithoutReply | server/torrentService.js:785-791 | Without a status reply, a paused or resumed record has the new status and is not finalized. Every other record is untouched, and the result is its summary. |
| Commands.ToggleWf | server/torrentService.js:775-811 | Pause and resume keep the invariant. |
| Commands.CancelRecord | server/torrentService.js:829-837 | The cancelled record is final and stamped, with no error, speed or estimate. Consistency is kept. |
| Commands.Cancel | server/torrentService.js:813-844 | A cancel fails exactly without a gid, with the daemon not ready, or when both calls are rejected. A failure changes nothing and has a message. A success reports null exactly when gid is not tracked. No scan is counted. |
| Commands.CancelError | server/torrentService.js:824 | The message of a cancel whose two calls fail is never empty: the message of `remove`, else that of `forceRemove`. |
| Commands.CancelIn | server/torrentService.js:828-841 | On a well-formed registry the cancelled record is kept, exactly its followers are deleted, no other record changes, and the invariant holds. |
| Commands.CancelSpec | server/torrentService.js:813-844 | The command fails and changes nothing only when both calls are rejected. Otherwise it cancels as above and reports the record, or null. |
| Commands.CancelWf | server/torrentService.js:813-844 | Cancel keeps the invariant. |
| Commands.FilterResumable | server/torrentService.js:752 | Exactly the stopped downloads that are paused or waiting. |
| Commands.Adopt | server/torrentService.js:754-766 | The adoption loop only appends to `gids`. |
| Commands.AdoptAdded | server/torrentService.js:754-766 | The adopted ids are exactly the non-empty candidate ids that were not tracked. |
| Commands.AdoptWf | server/torrentService.js:754-766 | The loop keeps every tracked record and the invariant. |
| Commands.AdoptOrder | server/torrentService.js:764-765 | The adopted ids are appended to the insertion order in the order they are collected. |
| Commands.HydrateWf | server/torrentService.js:732-773 | Hydration keeps the invariant. |
| Commands.Hydrate | server/torrentService.js:732-773 | Without a client, or when the active or waiting listing fails, nothing changes. The scan count never decreases. |
| Commands.HydrateSpec | server/torrentService.js:732-773 | A failed active or waiting listing changes nothing. Otherwise exactly the listed, non-empty, untracked ids are adopted, and tracked records keep their value. |
| Commands.FirstChild | server/torrentService.js:440 | `[...values()].find`: the record of the first id in insertion order whose parent is gid, or none exactly when no listed record has gid as its parent. |
| Commands.Visible | server/torrentService.js:475-478 | At most one summary per listed id. |
| Commands.List | server/torrentService.js:470-479 | At most one summary per tracked id. Without an available daemon, or with no downloads, nothing changes. The scan count never decreases. |
| Commands.VisibleAll | server/torrentService.js:475-478 | No record is a stub, so there is one summary per tracked download, in insertion order. |
| Commands.ListSpec | server/torrentService.js:470-479 | After the refresh the invariant holds, and the list has one summary per tracked download, in insertion order. Without a ready daemon nothing changes. |
| Torrents.TorrentManager.constructor | server/torrentService.js:198-216 | The fields as the constructor sets them: the download root under the media directory, an empty registry, unavailable, and no hooks. |
| Torrents.TorrentManager.New | server/torrentService.js:198-201 | Construction is refused exactly without a media directory. |
| Torrents.TorrentManager.RegisterShutdownHooks | server/torrentService.js:658-689 | The handlers are installed once, however often it is called. Nothing else changes. |
| Torrents.TorrentManager.Initialize | server/torrentService.js:218-237 | On success the daemon is available and hooked, and the existing downloads are adopted (`Hydrate`). On failure it stays unavailable with the error message (the connect failure keeps the client). |
| Torrents.TorrentManager.EnsureReady | server/torrentService.js:346-354 | The error is `ReadyError` of the current flags. |
| Torrents.TorrentManager.GetStatus | server/torrentService.js:846-851 | The reply of `Commands.GetStatus` for the current flags. |
| Torrents.TorrentManager.DeleteEach | server/torrentService.js:633-635 | The registry after deleting each id of the set, with the invariant kept. |
| Torrents.TorrentManager.CloneFollowers | server/torrentService.js:549-576 | The state and queue of `AddFollowers`. |
| Torrents.TorrentManager.Track | server/torrentService.js:532-540 | The registry of `Admit`. |
| Torrents.TorrentManager.ReconcileOne | server/torrentService.js:529-630 | One loop iteration changes the state as `Step` says. |
| Torrents.TorrentManager.FanOutOne | server/torrentService.js:548-579 | The follower branch of `Step`. |
| Torrents.TorrentManager.UpdateOne | server/torrentService.js:581-629 | The update branch of `Step`. |
| Torrents.TorrentManager.Save | server/torrentService.js:626 | The record is stored, and a requested scan is counted. |
| Torrents.TorrentManager.RefreshDownloadStatuses | server/torrentService.js:481-641 | The new registry and scan count are those of `Refresh`, and the invariant holds. |
| Torrents.TorrentManager.StartDownload | server/torrentService.js:356-445 | State and result are those of `Commands.Start`. |
| Torrents.TorrentManager.SetStatusAndRefresh | server/torrentService.js:775-811 | State and result are those of `Toggle`. |
| Torrents.TorrentManager.PauseDownload | server/torrentService.js:775-792 | `Toggle` with `paused` and its default message. |
| Torrents.TorrentManager.ResumeDownload | server/torrentService.js:794-811 | `Toggle` with `starting` and its default message. |
| Torrents.TorrentManager.CancelDownload | server/torrentService.js:813-844 | State and result are those of `Cancel`. |
| Torrents.TorrentManager.AdoptOne | server/torrentService.js:755-766 | One iteration of the adoption loop. |
| Torrents.TorrentManager.HydrateExistingDownloads | server/torrentService.js:732-773 | The state is that of `Hydrate`. |
| Torrents.TorrentManager.ListDownloads | server/torrentService.js:470-479 | State and list are those of `Commands.List`. |
| Torrents.DeleteOneThenRest | server/torrentService.js:633-635 | Deleting one id of a set and then the rest is deleting the whole set, so the deletion loop's order does not matter. |
| Torrents.DeleteNothing | server/torrentService.js:632 | An empty deletion set changes nothing. |
| Search.Key | server/torrentService.js:153 | The key is empty exactly when the hash, id and magnet all are. |
| Search.FirstOccurrences | server/torrentService.js:150-159 | The first-occurrence hits among the first n are at most n. |
| Search.Dedupe | server/torrentService.js:150-159 | The loop with its `seen` set yields exactly the first occurrences. |
| Search.DedupeStep | server/torrentService.js:153-158 | A hit is kept exactly when its key is non-empty and not seen yet. |
| Search.FirstOccurrencesDistinct | server/torrentService.js:150-159 | The kept hits have distinct non-empty keys. |
| Search.FirstOccurrencesMembers | server/torrentService.js:150-159 | Every kept hit is one of the merged hits. |
| Search.FirstOccurrencesCover | server/torrentService.js:150-159 | Every non-empty key among the merged hits is the key of a kept hit. |
| Search.DedupeCovers | server/torrentService.js:150-159 | Every provider hit with a key is represented in the result of the de-duplication. |
| Search.Insert | server/torrentService.js:160-164 | Insertion adds exactly that hit: the multiset gains it. |
| Search.SortHits | server/torrentService.js:160-164 | The sort is a permutation. |
| Search.InsertOrdered | server/torrentService.js:160-164 | Insertion keeps comparator order. |
| Search.SortHitsOrdered | server/torrentService.js:160-164 | Sorted by seeders, then size, both descending. |
| Search.InsertTies | server/torrentService.js:160-164 | Among the hits that tie with any given hit, the inserted one comes first and the others keep their order. |
| Search.SortHitsStable | server/torrentService.js:160-164 | The sort is stable: hits that compare equal keep their order. |
| Search.SearchTorrents | server/torrentService.js:143-166 | The merge, de-duplication, sort and slice give `SearchResult`. |
| Search.SearchResultSpec | server/torrentService.js:143-166 | A query under two characters once trimmed gives nothing. Otherwise at most 30 hits, all from the providers, with distinct keys, in comparator order. |
| Search.SortedMerge | server/torrentService.js:150-164 | The sorted de-duplicated merge has distinct keys and comparator order, and holds only merged hits. |
| Search.PermutationKeys | server/torrentService.js:160-164 | Distinct keys survive the permutation the sort makes. |
| Search.DistinctAfterPermutation | server/torrentService.js:160-164 | Two positions of any permutation of a list with distinct keys never share a key. |
| Paths.Segments | server/torrentService.js:618 | Segments are non-empty and contain no `/`. |
| Paths.NonEmpty | server/torrentService.js:490 | `filter(Boolean)` keeps exactly the non-empty strings of the list and never lengthens it. |
| Paths.CommonPrefixLength | server/torrentService.js:618 | The longest common prefix of two segment lists. |
| Paths.Relative | server/torrentService.js:618 | `path.relative` of two paths that resolve to the same segments is empty. |
| Paths.JoinPath | server/torrentService.js:204 | `path.join` is never empty, is absolute exactly when its first part is, and has the segments of both parts in order. |
| Paths.Basename | server/torrentService.js:701 | `path.basename` contains no `/`. |
| Paths.CommonPrefixOfExtension | server/torrentService.js:618 | A list is the common prefix of itself and any extension. |
| Paths.RelativeBelow | server/torrentService.js:618 | A file below the media directory is given relative to it by the segments it adds. |
| MediaNames.Slugify | server/libraryManager.js:226-235 | The result is a slug: a-z, 0-9 and single dashes, no leading dash, at most 120 characters. |
| MediaNames.SlugifySlug | server/libraryManager.js:226-235 | A slug without a trailing dash is its own slugify. (A result cut at 120 characters can end in a dash, and slugify then drops it.) |
| MediaNames.FormatRuntime | server/libraryManager.js:242-256 | Empty for 0 or a non-number. For positive minutes, "h sa m dk" with `60h + m` equal to the minutes. Negative minutes become "n dk". |
| MediaNames.RuntimeRoundTrip | server/libraryManager.js:242-256 | The hours and minutes shown give the runtime back. |
| MediaNames.EncodeMediaPath | server/libraryManager.js:237-240 | The URL starts with `/media/`. |
| MediaNames.EncodeMediaPathSegments | server/libraryManager.js:237-240 | The URL has one percent-encoded segment per path segment. |
| MediaNames.StripExtension | server/libraryManager.js:335 | `path.parse(p).name` is a prefix of the base name. |
| MediaNames.FindYear | server/libraryManager.js:340 | The first whole-word `19xx` or `20xx` token, or none. |
| MediaNames.CleanName | server/libraryManager.js:336-339 | No dots, no underscores, no double spaces, and no white space at either end. |
| MediaNames.YearText | server/libraryManager.js:340-348 | The year is the first year token, or empty exactly when there is none. |
| MediaNames.RemoveTags | server/libraryManager.js:343 | The replacement never lengthens the text, and only adds spaces. |
| MediaNames.TitleText | server/libraryManager.js:341-347 | The title is empty exactly when both the cleaned name and the base name are. It is the cleaned name, the base name, or a text with single spaces and no white space at either end. |
| MediaNames.ParseFileName | server/libraryManager.js:334-356 | The id is a slug, and it is the slug of title-year (or of the title without a year). The raw title has no dots, underscores or double spaces. The year is the first whole-word year token of the raw title, and empty exactly when there is none. |
| MediaNames.SubtitleHint | server/libraryManager.js:507-508 | The hint contains no `.`, `_` or `-`. |
| MediaNames.RawSubtitleId | server/libraryManager.js:534 | The raw id is never empty. |
| MediaNames.FreshId | server/libraryManager.js:535-538 | The inner loop ends with an id not used yet that starts with the raw id. |
| MediaNames.AssignSubtitleIds | server/libraryManager.js:496-551 | One id per accepted file, all distinct, each starting with its file's raw id. |
| Subtitles.StripBom | server/libraryManager.js:180 | The text is the input or the input less one leading BOM, and it is shorter exactly when the input starts with a BOM. |
| Subtitles.StripBomOnce | server/libraryManager.js:180 | A leading BOM is removed and the rest is kept. Text without a BOM is unchanged. |
| Subtitles.ReplaceCrLf | server/libraryManager.js:180 | The replacement never lengthens the text, keeps non-empty text non-empty, and adds no new character. |
| Subtitles.NormalizeNewlines | server/libraryManager.js:180 | The text has no CR left, and every character of it is a newline or a character of the input. |
| Subtitles.NormalizeIdempotent | server/libraryManager.js:180 | Normalising twice is normalising once. |
| Subtitles.NormalizeAppend | server/libraryManager.js:180 | Normalisation works piece by piece unless a CR/LF pair is split. |
| Subtitles.CueLine | server/libraryManager.js:280-282 | A line with `-->` has every comma made a point and nothing else changed. Any other line is unchanged. |
| Subtitles.ConvertSrtToVtt | server/libraryManager.js:275-284 | The result starts with the WebVTT header. |
| Subtitles.ConvertSrtToVttLines | server/libraryManager.js:275-284 | The header, then one output line per input line with cue commas made points, and no CR. |
| Subtitles.EnsureVttContent | server/libraryManager.js:286-296 | WebVTT text is only normalised; other text gets the header. There is never a CR. |
| Subtitles.EnsureVttIdempotent | server/libraryManager.js:286-296 | Applying it twice is applying it once. |
| Subtitles.SanitizeSubtitlePayload | server/libraryManager.js:175-213 | Empty input is rejected. What is kept is the BOM-less normalised text, not blank. |
| Subtitles.DropWebvttHeader | server/libraryManager.js:186 | The result is a suffix of the text. A leading `webvtt` in any case is dropped with the white space after it. Other text is unchanged. |
| Subtitles.SanitizeRejects | server/libraryManager.js:175-213 | A payload is rejected exactly when it is blank, or its text past a WEBVTT header is an error message, HTML or JSON. |
| Subtitles.SanitizeKeepsCues | server/libraryManager.js:175-213 | Text whose first visible character is a digit (an SRT cue number) is always kept. |
| Subtitles.NormalizeSubtitleToVtt | server/libraryManager.js:215-224 | Null exactly when sanitising rejects. Otherwise the visible text starts with WEBVTT and has no CR. |
| Subtitles.SrtStarts | server/libraryManager.js:275-284 | The converted text starts with WEBVTT and has no CR. |
| Subtitles.VttStarts | server/libraryManager.js:286-296 | The visible text after `ensureVttContent` starts with WEBVTT. |
| Subtitles.Alias | server/libraryManager.js:151-167 | Every alias names one of the four languages with its fixed caption, and each of the four codes `tr`, `en`, `es`, `de` is its own alias; a two-letter alias is always such a code. |
| Subtitles.ResolveLanguage | server/libraryManager.js:258-273 | Each branch: `und` for no hint, the alias table, a 2-letter code, the first two letters of a 3-letter code, or `und` with the hint upper-cased. |
| Subtitles.ResolveLanguageCode | server/libraryManager.js:258-273 | The code is `und`, one of the four alias codes, or two letters of the hint. |
| LibraryData.FindSource | server/libraryManager.js:460 | The first source with this src, or none exactly when no source has it. |
| LibraryData.WithSource | server/libraryManager.js:455-476 | An existing source gets default labels and the others stay. Otherwise the default source replaces the first source, or is pushed onto an empty list. |
| LibraryData.WithSourceIdempotent | server/libraryManager.js:455-476 | A second `ensureSource` for the same file changes nothing. |
| LibraryData.MarkUnmatched | server/libraryManager.js:744-758 | The payload is present afterwards, and the id set gains only its id. The list grows only for a new id, and entries with other ids stay in place. |
| LibraryData.MarkUnmatchedDistinct | server/libraryManager.js:744-758 | Upserting keeps the ids distinct. |
| LibraryData.ClearUnmatched | server/libraryManager.js:760-762 | The filter never lengthens the list. |
| LibraryData.ClearUnmatchedSpec | server/libraryManager.js:760-762 | Exactly the entries with the id are removed, and with them exactly that id. |
| LibraryData.ClearAfterMark | server/libraryManager.js:744-762 | Clearing right after marking is clearing alone. |
| LibraryData.KeepSeen | server/libraryManager.js:918-926 | The filter never lengthens the list. |
| LibraryData.KeepSeenMembers | server/libraryManager.js:918-926 | Exactly the elements whose id was seen stay. |
| LibraryData.KeepSeenUnmatchedIds | server/libraryManager.js:926 | Only entries of seen ids stay in the unmatched list. |
| LibraryData.KeepSeenVideoIds | server/libraryManager.js:918-924 | The ids kept are exactly the listed ids that were seen. |
| LibraryData.ApplyMetadata | server/libraryManager.js:841-854 | Status `ready`. Identity, sources and file are kept, and collection, source and tags are always set. |
| LibraryData.IsMetadataComplete | server/libraryManager.js:358-360 | The truth value of `description && poster`: true exactly when the JavaScript `&&` of the two texts is non-empty. |
| LibraryData.ApplyCompletes | server/libraryManager.js:841-854 | A complete video stays complete, and metadata with a description and a poster completes any video. |
| LibraryData.ApplyIdempotent | server/libraryManager.js:841-854 | Applying the same metadata twice is applying it once. |
| LibraryData.FindVideo | server/libraryManager.js:872 | The first video with the id, or none exactly when no video has it. |
| LibraryData.NewVideo | server/libraryManager.js:874-891 | A new video has the parsed id, title and year, its file and creation time, no sources, and is pending and incomplete, so the scan that creates it always fetches its metadata. |
| LibraryData.Tracked | server/libraryManager.js:872-893 | Afterwards a video has the parsed id. |
| LibraryData.TrackedIds | server/libraryManager.js:872-893 | The ids gain only the parsed id, every video is kept, and ids stay distinct. |
| LibraryData.Fetched | server/libraryManager.js:899-911 | Identity, sources and file are kept. Metadata or an empty error makes the video ready and synced, and clears its entry. A failure keeps a ready video ready, makes any other pending, and records the error. Only the video's id can enter the list. |
| LibraryData.ScanFile | server/libraryManager.js:869-911 | One iteration adds the parsed id and keeps ids distinct. Only that id can enter the unmatched list, and `lastScan` is kept. |
| LibraryData.ScanFiles | server/libraryManager.js:869-916 | The loop adds a video for every seen id and no other, keeps video ids distinct, and records unmatched entries only for seen ids. |
| LibraryData.Refreshed | server/libraryManager.js:899-911 | The metadata step keeps the video's id. |
| LibraryData.RefreshedSettles | server/libraryManager.js:899-911 | After a lookup whose metadata has a description and a poster, `shouldFetch` without forceRefresh is false, so the next scan does not fetch again. After a failed lookup an incomplete video is still fetched on the next scan. |
| LibraryData.KeepSeenDistinct | server/libraryManager.js:918-924 | Filtering the videos keeps ids distinct. |
| LibraryData.ScanResult | server/libraryManager.js:858-933 | After a scan the video ids are exactly the ids parsed from the listed files and stay distinct. Every unmatched entry belongs to such an id, and `lastScan` is now. |
| Library.LibraryManager.constructor | server/libraryManager.js:363-370 | Starts with the given data and not scanning. |
| Library.LibraryManager.EnsureSource | server/libraryManager.js:455-476 | Only the video's sources change, as `WithSource` says. |
| Library.LibraryManager.MarkUnmatched | server/libraryManager.js:744-758 | Only the unmatched list changes, as `MarkUnmatched` says. |
| Library.LibraryManager.ClearUnmatched | server/libraryManager.js:760-762 | Only the unmatched list changes, as `ClearUnmatched` says. |
| Library.LibraryManager.ApplyMetadata | server/libraryManager.js:841-856 | The video is merged and its unmatched entry cleared. |
| Library.LibraryManager.Track | server/libraryManager.js:872-895 | The video list of `Tracked`, with the file name set. |
| Library.LibraryManager.ScanOne | server/libraryManager.js:870-911 | One scan iteration gives `ScanFile`. |
| Library.LibraryManager.Lookup | server/libraryManager.js:899-911 | The metadata step gives `Refreshed`. |
| Library.LibraryManager.Accept | server/libraryManager.js:902-905 | Merged, ready, synced now, and the entry cleared. |
| Library.LibraryManager.Reject | server/libraryManager.js:906-910 | Ready or pending, and marked unmatched with the error or the default reason. |
| Library.LibraryManager.RetainSeen | server/libraryManager.js:918-926 | The filters give exactly the seen videos and entries. |
| Library.LibraryManager.ScanAll | server/libraryManager.js:869-916 | The loop gives `ScanFiles`. |
| Library.LibraryManager.ScanNext | server/libraryManager.js:870-911 | One more iteration of the loop gives `ScanFiles` of one more file. |
| Library.LibraryManager.Scan | server/libraryManager.js:858-933 | A running scan returns the data unchanged. A failed listing fails the call and leaves the loaded data. Otherwise the data becomes `ScanResult`. A scan that was not already running ends with `scanning` false. |
| Storage.ParseDf | server/storageService.js:73-101 | An error exactly when `df` fails, prints fewer than two lines, or its last line has fewer than six fields, each with its own message. Every failure carries the `Disk bilgisi alınamadı:` prefix, and a failed `df` passes its message on. |
| Storage.SplitSpace | server/storageService.js:80 | At least one piece, and no piece holds white space. |
| Storage.PaddedJoinEnds | server/storageService.js:80 | Fields laid out in columns with any padding of white space other than newlines form one line that starts and ends with a field character. |
| Storage.CollapsePadded | server/storageService.js:80 | Collapsing the padding of such a line gives its fields joined by single spaces. |
| Storage.SplitSpacePadded | server/storageService.js:80 | `split(/\s+/)` of fields padded by any white space other than newlines gives the fields back. |
| Storage.ParseDfReport | server/storageService.js:73-101 | A header plus one report line, whatever white space other than newlines pads its columns, reads back as that line's sizes in bytes and its texts. |
| Text.JoinSplit | server/storageService.js:76-80 | `split('\n')` loses nothing: joining the pieces with the separator gives the text back. |
| Text.SplitJoin | server/storageService.js:76-80 | Splitting a join of separator-free pieces gives the pieces back. |
| Storage.Kibibytes | server/storageService.js:84-86 | Multiplying by 1024 gives NaN exactly for NaN. |
| Storage.NodeSize | server/storageService.js:22-71 | The size of a listed directory fails exactly when the walk of one of its entries fails, and otherwise is at least each entry's size. |
| Storage.EntriesSize | server/storageService.js:38-66 | The walk of a listing fails exactly when the walk of one of its entries fails, and otherwise counts at least each entry's bytes. |
| Storage.DirectorySize | server/storageService.js:22-71 | The worklist walk gives the size of the tree, or fails exactly when an unexpected lstat or readdir error occurs. |
| Storage.VisitEntries | server/storageService.js:46-67 | Per directory, the total plus the queued directories account for exactly what the entries add. |
| Storage.CountedSize | server/storageService.js:47-55 | Hidden entries, links and entries that vanished add nothing. |
| Storage.Counted | server/storageService.js:47-55 | Filtering the entries never lengthens the list. |
| Storage.EntriesSizeConcat | server/storageService.js:46-67 | A directory's size does not depend on how its entries are split. |
| Storage.AppUsageBounds | server/storageService.js:111-119 | The usage is at least each measurable directory's size. |
| Storage.AppUsage | server/storageService.js:111-119 | The usage is 0 when no tracked directory can be measured. |
| Storage.AppUsageNext | server/storageService.js:113-117 | One more directory adds its size, or 0 on error. |
| Storage.Max | server/storageService.js:124-127 | `Math.max` is NaN exactly when an argument is NaN. Otherwise it is one of the two and at least both. |
| Storage.SampleFigures | server/storageService.js:124-137 | The sample keeps the app usage, file system and mount point. Every figure is NaN or at least 0. The total covers used + free, and other lies in [0, used]. |
| Storage.Sampled | server/storageService.js:121-138 | The sample fails exactly when `df` does, with its message. Otherwise it carries the app usage and the mount point. |
| Storage.SampleFinite | server/storageService.js:121-138 | With finite df figures, all figures are finite, used + free ≤ total, 0 ≤ other ≤ used, and other = used − app when used ≥ app. |
| Storage.StorageService.constructor | server/storageService.js:104-109 | The root directory falls back to the server's parent, the tracked directories to the default list, and the cache starts empty. |
| Storage.StorageService.ComputeAppUsage | server/storageService.js:111-119 | The loop gives `AppUsage` of the tracked directories. |
| Storage.StorageService.Sample | server/storageService.js:121-138 | The sample is `Sampled`, and fails when `df` does. |
| Storage.CacheHitWindow | server/storageService.js:142 | A summary cached at t answers every request that does not ask for a fresh one until one minute after t, and none from then on. A request for a fresh summary never gets the cache. |
| Storage.StorageService.GetSummary | server/storageService.js:140-149 | Answers from a cache under a minute old unless fresh is asked. Otherwise it samples and caches the successful sample, which then answers every unforced request for the next minute. A failure leaves the cache. |
| SubtitleDownloader.SanitizeFilename | scripts/ta_downloader.py:478-481 | A sanitised name has no unsafe character and no line break, and no white space at either end. |
| SubtitleDownloader.SanitizeFilenameIdempotent | scripts/ta_downloader.py:478-481 | Sanitising twice is sanitising once. |
| SubtitleDownloader.SubtitleUrl | scripts/ta_downloader.py:86-92 | The url always starts with `/sub/`. |
| SubtitleDownloader.SubtitleUrlNormal | scripts/ta_downloader.py:86-92 | An href is kept exactly when it already starts with `/sub/`, and normalising is idempotent. |
| SubtitleDownloader.FlagLanguage | scripts/ta_downloader.py:99-108 | The language of a row is `tr`, `en` or `unknown`. |
| SubtitleDownloader.Translator | scripts/ta_downloader.py:111-121 | The translator text is never empty (`Bilinmiyor` when no translator is named). |
| SubtitleDownloader.ParseRow | scripts/ta_downloader.py:77-146 | A row gives a subtitle exactly when it has a link with an href. |
| SubtitleDownloader.ParseSubs | scripts/ta_downloader.py:77-148 | The loop builds `ParsedRows`. |
| SubtitleDownloader.ParsedRows | scripts/ta_downloader.py:77-148 | Every subtitle has a `/sub/` url, a title, a translator and a known language, and there is one per row with an href. |
| SubtitleDownloader.DownloadCount | scripts/ta_downloader.py:129-131 | A non-zero count comes only from text made of digits, commas and points. |
| SubtitleDownloader.DownloadCountSeparator | scripts/ta_downloader.py:129-131 | Thousands separators do not change a count. |
| SubtitleDownloader.DownloadCountOfNat | scripts/ta_downloader.py:129-131 | A printed count reads back as itself. |
| SubtitleDownloader.MostDownloadedIndex | scripts/ta_downloader.py:163-175 | None exactly without a subtitle of the language. Otherwise the first subtitle with the greatest count. |
| SubtitleDownloader.FirstMaximalUnique | scripts/ta_downloader.py:163-175 | There is only one first subtitle with the greatest count, so the choice is determined. |
| SubtitleDownloader.GetMostDownloaded | scripts/ta_downloader.py:150-180 | Each choice is missing exactly when no subtitle has its language. Otherwise it is the first one with the greatest count. |
| SubtitleDownloader.PagePath | scripts/ta_downloader.py:188-189 | The path always starts with `/`, and a path that already does is kept. |
| SubtitleDownloader.PageAddress | scripts/ta_downloader.py:188-191 | The address is the site root and a slash, and it ends with the url; a url that already starts with `/` is appended as it is. |
| SubtitleDownloader.PageAddressOfRow | scripts/ta_downloader.py:188-191 | A url from the result page is requested as the site root followed by `/sub/…`. |
| SubtitleDownloader.CleanQuery | scripts/ta_downloader.py:504 | The clean query contains no space and no unsafe character. |
| SubtitleDownloader.NewName | scripts/ta_downloader.py:536-545 | Each new name starts with `<query>.<lang>.`, and a `.srt` file keeps the `.srt` ending. |
| SubtitleDownloader.Extension | scripts/ta_downloader.py:534 | `os.path.splitext(p)[1]` is empty or starts with `.`. |
| SubtitleDownloader.RenameExtracted | scripts/ta_downloader.py:526-554 | The loop with `subtitle_counter` gives `Renamed`. |
| SubtitleDownloader.ExtractAndCleanup | scripts/ta_downloader.py:484-620 | The new names for each archive, or none when the archive is missing or fails. |
| SubtitleDownloader.Renamed | scripts/ta_downloader.py:529-551 | One name per extracted file, each starting with `<query>.<lang>.`. |
| SubtitleDownloader.RenamedSrtDistinct | scripts/ta_downloader.py:536-542 | No two `.srt` files of an archive get the same name. |
| AppHelpers.FormatTime | js/app.js:1056-1060 | A finite non-negative time gives `m:ss` with two digits after the colon. A time that is not finite ends in `:NaN`. |
| AppHelpers.FormatTimeRoundTrip | js/app.js:1056-1060 | The clock text of n seconds reads back as `n / 60` and `n % 60`. |
| AppHelpers.FloorsOfTime | js/app.js:1057-1058 | For any time x ≥ 0, the floors of `x / 60` and of `x % 60` are the minutes and the seconds of the minute of x's whole seconds. |
| AppHelpers.FormatTimeOfFraction | js/app.js:1056-1060 | For any time x ≥ 0, the clock text of x is that of its whole seconds. |
| AppHelpers.FormatTimeRoundTripReal | js/app.js:1056-1060 | For any time x ≥ 0, the clock text reads back as the whole minutes and the whole seconds of the minute of x. |
| Text.PadStart2 | js/app.js:1059 | `padStart(2, '0')`: a text of two or more characters is kept, a shorter one ends the two-character result and is preceded by zeros. |
| AppHelpers.PadTwoDigits | js/app.js:1059 | `padStart(2, '0')` of a number under 100 is two digits that read back as that number. |
| AppHelpers.FormatEta | js/app.js:2310-2313 | Empty exactly unless the estimate is a positive finite number. |
| AppHelpers.FormatEtaUnits | js/app.js:2314-2325 | The shown units account for the rounded estimate: h and m, or m and s, or s. |
| AppHelpers.PreviewStartTime | js/app.js:606-615 | At most 180 s, and before the end of a positive duration. It leaves 5 s for any duration of at least 5 s, and is 180 s for long videos. |
| AppHelpers.PreferredSubtitle | js/app.js:798-823 | `off` or the id of one of the video's tracks. |
| AppHelpers.PreferredSubtitleCases | js/app.js:798-823 | Case by case: off when disabled or empty; the first default track; the preferred id; the first track of the preferred language; off. |
| AppHelpers.FindTrack | js/app.js:807-819 | `Array.prototype.find`: the first track that satisfies the test, or none exactly when no track does. |
| AppHelpers.ProviderLabel | js/app.js:2327-2334 | Empty exactly for a missing or empty provider. |
| AppHelpers.ProviderLabelKeeps | js/app.js:2327-2334 | Only `apibay` and `yts` are renamed. |
| AppHelpers.NormalizeCount | js/app.js:2349-2355 | A finite number or NaN, and a finite number is kept. |
| AppHelpers.NormalizeCountNaN | js/app.js:2349-2355 | A value that is neither text nor a finite number gives NaN. |
| AppHelpers.NormalizeCountText | js/app.js:2349-2355 | `parseInt(text, 10)`: leading white space, then the text of an integer, then anything that does not start with a digit, gives that integer. |
| Text.ParseIntDefined | js/app.js:2352 | `Number.parseInt(s, 10)` is NaN exactly when no digit follows the leading white space and the optional sign, and is negative only after a `-`. |
| Text.ParseIntOfPrintedPrefix | js/app.js:2352 | Any leading white space, an integer's text, then text that does not start with a digit reads back as that integer. |
| AppHelpers.ParseIntNoDigit | js/app.js:2352 | Text that starts with neither white space, a sign nor a digit has no integer prefix. |
| AppHelpers.NormalizeCountIdempotent | js/app.js:2349-2355 | Normalising twice is normalising once. |

## Left out

- The aria2 process, its RPC connection (the 15 connection attempts and the 400 ms waits) and its event handlers are not modelled. Each daemon call is an input: a `BatchReply` per refresh depth, the `addUri` or `pause` outcome, the listings. `spawnAria2` is summarised by the `Startup` outcome of `Initialize`.
- Reconcile.Refresh: the recursion over follower levels is bounded by the length of `replies`. A daemon producing follower chains longer than the replies supplied is not modelled.
- The clock is a parameter (`now`). `triggerRescan`'s asynchronous `libraryRefreshAt` stamp is left out, because it happens after the scan promise resolves. The scan is counted in `scans` instead.
- Registries.Registry.Values: records are values. The aliasing between `current` and the object in the map after a refresh is captured only through `StartSummary` and `Toggle`'s summaries.
- Downloads.ToFixed4: binary floating point is not modelled. Progress is an exact rational, and `toFixed(4)` is stated only as a 0.00005 bound.
- Search: the apibay and YTS HTTP calls and their JSON mapping (`searchApibay`, `searchYts`) are not modelled. Their hit lists are inputs, with seeders and size already normalised.
- Text and Magnet: case mapping is ASCII-only. `decodeURIComponent` of the captured hash and `normalize('NFD')` in slugify are identities (the model has no Unicode tables).
- Paths: `.` and `..` segments are not interpreted by `path.relative`. `path.sep` is `/`.
- The library's JSON file read and write (`load` and `save`), `listMediaFiles` and the TMDB lookup (`fetchMetadata`) are inputs. The stored data is an `Option<Data>`, the listing an `Option<Listing>`, and each file comes with its lookup reply.
- ensureSubtitles: the directory reading, decoding, file rewriting and deleting, and the final sort by `localeCompare` are left out. The sort uses locale collation, which the model does not have. The id loop, the language hint and the sanitising are modelled.
- `tryFetchRemoteSubtitles`, the OpenSubtitles and subdl downloads, `renameVideo`, `updateManualMetadata` and the other asynchronous library operations are not part of this model.
- Subtitles.SanitizeSubtitlePayload: JSON parsing is a function parameter that says whether `JSON.parse` succeeds. Every value parsed from text starting with `{` or `[` is taken to be an object.
- Storage: `df`, `lstat` and `readdir` are inputs (the text `df` printed, the trees `lstat` reports). `path.join(rootDir, dir)` is `rootDir + "/" + dir`.
- JsNumbers: `Number()` of text is modelled for decimal integers and fractions and the `Infinity` spellings. Only exponent forms and hexadecimal literals read as NaN, where JavaScript would read a number.
- SubtitleDownloader: HTTP requests, BeautifulSoup parsing and zip extraction are left out. The parsed fields of each row and the member list of each archive are inputs. `strip` uses Python's full Unicode white-space set, but `lower` and `isdigit` are taken as ASCII.
- SubtitleDownloader.ExtractAndCleanup: the model returns the new file names, while the script returns them joined to the extraction directory. An `os.rename` failure is not modelled.
- AppHelpers.PreferredSubtitle: `isFeatureEnabled('subtitles')` and the stored preference are parameters. The localStorage loading is left out.
- AppHelpers.ProviderLabel: keys inherited from `Object.prototype` (such as `constructor`), which the object lookup would also find, are not modelled.
- AppHelpers.NormalizeCount: `String(value)` of values other than text (arrays, objects, booleans) is taken to start with no digit.
- The rest of `js/app.js` (DOM rendering, players, event handlers) and `server/index.js` are not part of this model.
