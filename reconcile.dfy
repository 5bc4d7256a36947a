/** refreshDownloadStatuses of server/torrentService.js as a specification: the registry of
    downloads is reconciled with one batch of tellStatus replies, a metadata download that reports
    followers is replaced by clones for the followers, and the new followers are refreshed in turn.
    The daemon is input data: replies[d] answers the batch call made at recursion depth d, so the
    length of `replies` bounds the depth of the recursion. */
module Reconcile {
  import opened Wrappers
  import opened Aria
  import opened Registries
  import opened Downloads
  import opened Paths

  /** TorrentManager.downloads: id to record, in insertion order. */
  type Table = Registry<Record>

  /** What the registry keeps for each entry: the record is stored under its own id, keeps the
      record facts, and is not its own parent. */
  predicate Tracked(k: string, r: Record) {
    r.id == k && Consistent(r) && r.parentGid != Some(k)
  }

  ghost predicate Wf(d: Table) {
    d.Valid() && forall k :: k in d.entries ==> Tracked(k, d.entries[k])
  }

  /** The answer to one batch of tellStatus calls: the call failed, or one optional reply per target
      (a missing position is a missing reply). */
  datatype BatchReply = BatchFailed | Replied(results: seq<Option<Payload>>)

  function ReplyAt(results: seq<Option<Payload>>, i: nat): Option<Payload> {
    if i < |results| then results[i] else None
  }

  /** The registry together with the number of library scans requested so far. */
  datatype Store = Store(downloads: Table, scans: nat)

  /** The state of one pass over the targets: the registry, the scans, the ids to delete after the pass
      (metadataToRemove) and the follower ids to refresh next (newChildGids). */
  datatype Pass = Pass(downloads: Table, scans: nat, removed: set<string>, children: seq<string>)

  /** The followedBy loop: every follower id that is not tracked yet gets a clone of the parent and is
      queued for the next refresh. */
  function AddFollowers(d: Table, parent: Record, fs: seq<string>, children: seq<string>): (out: (Table, seq<string>))
    ensures |out.1| >= |children| && out.1[..|children|] == children
    decreases |fs|
  {
    if fs == [] then (d, children)
    else if fs[0] == "" || fs[0] in d.entries then AddFollowers(d, parent, fs[1..], children)
    else AddFollowers(d.Set(fs[0], CloneForFollower(parent, fs[0])), parent, fs[1..], children + [fs[0]])
  }

  /** The registry with a record for gid: the tracked one, or one created from the reply. */
  function Admit(env: Env, d: Table, gid: string, reply: Option<Payload>): (d': Table)
    requires gid != "" && reply.Some?
    ensures gid in d'.entries
    ensures gid in d.entries ==> d' == d
    ensures gid !in d.entries ==> d' == d.Set(gid, CreateRecordFromStatus(env, reply, gid).value)
  {
    if gid in d.entries then d else d.Set(gid, CreateRecordFromStatus(env, reply, gid).value)
  }

  /** One iteration of the loop over the targets. */
  function Step(env: Env, s: Pass, gid: string, reply: Option<Payload>): (r: Pass)
    ensures s.scans <= r.scans <= s.scans + 1
    ensures s.removed <= r.removed
    ensures |s.children| <= |r.children| && r.children[..|s.children|] == s.children
  {
    if reply.None? || gid == "" then s
    else
      var p := reply.value;
      var d := Admit(env, s.downloads, gid, reply);
      var rec := d.entries[gid];
      var fs := Followers(p);
      if fs != [] then
        var added := AddFollowers(d, rec, fs, s.children);
        Pass(added.0, s.scans, s.removed + {rec.id}, added.1)
      else
        var out := ApplyStatus(env, rec, p);
        Pass(d.Set(gid, out.0), s.scans + (if out.1 then 1 else 0), s.removed, s.children)
  }

  /** The loop over the targets from position i on. */
  function RunTargets(env: Env, s: Pass, target: seq<string>, results: seq<Option<Payload>>, i: nat): (r: Pass)
    requires i <= |target|
    ensures s.scans <= r.scans <= s.scans + (|target| - i)
    decreases |target| - i
  {
    if i == |target| then s
    else RunTargets(env, Step(env, s, target[i], ReplyAt(results, i)), target, results, i + 1)
  }

  /** One level of the refresh: the pass, then the deletion of the replaced parents. The second
      component is the list of new follower ids. */
  function RefreshLevel(env: Env, st: Store, target: seq<string>, results: seq<Option<Payload>>): (out: (Store, seq<string>))
  {
    var p := RunTargets(env, Pass(st.downloads, st.scans, {}, []), target, results, 0);
    (Store(p.downloads.DeleteAll(p.removed), p.scans), p.children)
  }

  /** The ids, in order, whose records are not finalized. */
  function Unfinalized(order: seq<string>, entries: map<string, Record>): (r: seq<string>)
    ensures forall k :: k in r <==> k in order && (k !in entries || !entries[k].finalized)
    decreases |order|
  {
    if order == [] then []
    else
      var k := order[0];
      (if k !in entries || !entries[k].finalized then [k] else []) + Unfinalized(order[1..], entries)
  }

  /** The ids a refresh asks about: the given ones, or every tracked id that is not finalized, without
      empty ids. */
  function Targets(d: Table, scope: seq<string>): seq<string> {
    NonEmpty(if scope != [] then scope else Unfinalized(d.order, d.entries))
  }

  /** refreshDownloadStatuses(scope): nothing happens when the daemon is not ready, when there is no
      target, or when the batch call fails; otherwise one level, then the new followers. */
  function Refresh(env: Env, ready: bool, st: Store, scope: seq<string>, replies: seq<BatchReply>): (r: Store)
    ensures !ready || replies == [] ==> r == st
    ensures st.scans <= r.scans
    decreases |replies|
  {
    var target := Targets(st.downloads, scope);
    if !ready || target == [] || replies == [] || replies[0].BatchFailed? then st
    else
      var level := RefreshLevel(env, st, target, replies[0].results);
      if level.1 == [] then level.0 else Refresh(env, ready, level.0, level.1, replies[1..])
  }

  // ----- invariant -----

  lemma SetTracked(d: Table, k: string, v: Record)
    requires Wf(d) && Tracked(k, v)
    ensures Wf(d.Set(k, v))
  {
  }

  lemma CloneTracked(d: Table, parent: Record, c: string)
    requires Wf(d) && parent.id in d.entries && c !in d.entries
    ensures Wf(d.Set(c, CloneForFollower(parent, c)))
  {
    assert parent.id != c;
    SetTracked(d, c, CloneForFollower(parent, c));
  }

  /** The followedBy loop appends exactly the untracked followers, in the order they are listed. */
  lemma {:induction false} AddFollowersAdded(d: Table, parent: Record, fs: seq<string>, ch: seq<string>)
    ensures var out := AddFollowers(d, parent, fs, ch);
      forall c :: c in out.1[|ch|..] <==> c in fs && c != "" && c !in d.entries
    decreases |fs|
  {
    var out := AddFollowers(d, parent, fs, ch);
    if fs == [] {
      assert out.1[|ch|..] == [];
    } else if fs[0] == "" || fs[0] in d.entries {
      AddFollowersAdded(d, parent, fs[1..], ch);
      assert forall x :: x in fs <==> x == fs[0] || x in fs[1..];
    } else {
      var c := fs[0];
      var d1 := d.Set(c, CloneForFollower(parent, c));
      var ch1 := ch + [c];
      AddFollowersAdded(d1, parent, fs[1..], ch1);
      assert out == AddFollowers(d1, parent, fs[1..], ch1);
      var added := out.1[|ch|..];
      var added1 := out.1[|ch1|..];
      assert added == [c] + added1 by {
        assert out.1[..|ch1|] == ch1;
        assert out.1 == ch1 + added1;
        assert out.1 == ch + added;
      }
      assert forall x :: x in fs <==> x == c || x in fs[1..];
      assert forall x :: x in added <==> x == c || x in added1;
    }
  }

  /** The followedBy loop keeps every tracked record and gives each new follower a clone of the parent. */
  lemma {:induction false} AddFollowersValues(d: Table, parent: Record, fs: seq<string>, ch: seq<string>)
    ensures var out := AddFollowers(d, parent, fs, ch);
      (forall k :: k in d.entries ==> k in out.0.entries && out.0.entries[k] == d.entries[k])
      && (forall c :: c in out.1[|ch|..] ==> c in out.0.entries && out.0.entries[c] == CloneForFollower(parent, c))
    decreases |fs|
  {
    var out := AddFollowers(d, parent, fs, ch);
    if fs == [] {
      assert out.1[|ch|..] == [];
    } else if fs[0] == "" || fs[0] in d.entries {
      AddFollowersValues(d, parent, fs[1..], ch);
    } else {
      var c := fs[0];
      var d1 := d.Set(c, CloneForFollower(parent, c));
      var ch1 := ch + [c];
      AddFollowersValues(d1, parent, fs[1..], ch1);
      assert out == AddFollowers(d1, parent, fs[1..], ch1);
      var added := out.1[|ch|..];
      var added1 := out.1[|ch1|..];
      assert added == [c] + added1 by {
        assert out.1[..|ch1|] == ch1;
        assert out.1 == ch1 + added1;
        assert out.1 == ch + added;
      }
      assert c in d1.entries;
    }
  }

  /** The followedBy loop keeps the registry invariant and appends the new followers to the order. */
  lemma {:induction false} AddFollowersWf(d: Table, parent: Record, fs: seq<string>, ch: seq<string>)
    requires Wf(d) && parent.id in d.entries
    ensures var out := AddFollowers(d, parent, fs, ch);
      Wf(out.0) && out.0.order == d.order + out.1[|ch|..]
    decreases |fs|
  {
    var out := AddFollowers(d, parent, fs, ch);
    if fs == [] {
      assert out.1[|ch|..] == [];
    } else if fs[0] == "" || fs[0] in d.entries {
      AddFollowersWf(d, parent, fs[1..], ch);
    } else {
      var c := fs[0];
      var d1 := d.Set(c, CloneForFollower(parent, c));
      var ch1 := ch + [c];
      CloneTracked(d, parent, c);
      AddFollowersWf(d1, parent, fs[1..], ch1);
      assert out == AddFollowers(d1, parent, fs[1..], ch1);
      var added := out.1[|ch|..];
      var added1 := out.1[|ch1|..];
      assert added == [c] + added1 by {
        assert out.1[..|ch1|] == ch1;
        assert out.1 == ch1 + added1;
        assert out.1 == ch + added;
      }
      assert out.0.order == d1.order + added1 && d1.order == d.order + [c];
    }
  }

  /** The followedBy loop keeps the registry invariant, appends exactly the untracked followers (in the
      order they are listed, each once), gives each a clone of the parent, and changes nothing else. */
  lemma AddFollowersSpec(d: Table, parent: Record, fs: seq<string>, ch: seq<string>)
    requires Wf(d) && parent.id in d.entries
    ensures var out := AddFollowers(d, parent, fs, ch); var added := out.1[|ch|..];
      Wf(out.0)
      && out.0.order == d.order + added
      && (forall c :: c in added <==> c in fs && c != "" && c !in d.entries)
      && (forall k :: k in d.entries ==> k in out.0.entries && out.0.entries[k] == d.entries[k])
      && (forall c :: c in added ==> out.0.entries[c] == CloneForFollower(parent, c))
  {
    AddFollowersAdded(d, parent, fs, ch);
    AddFollowersValues(d, parent, fs, ch);
    AddFollowersWf(d, parent, fs, ch);
  }

  lemma ApplyStatusTracked(env: Env, k: string, r: Record, p: Payload)
    requires Tracked(k, r)
    ensures Tracked(k, ApplyStatus(env, r, p).0)
  {
  }

  lemma StepWf(env: Env, s: Pass, gid: string, reply: Option<Payload>)
    requires Wf(s.downloads)
    ensures Wf(Step(env, s, gid, reply).downloads)
  {
    if reply.Some? && gid != "" {
      var d := Admit(env, s.downloads, gid, reply);
      assert Wf(d) by {
        if gid !in s.downloads.entries {
          SetTracked(s.downloads, gid, CreateRecordFromStatus(env, reply, gid).value);
        }
      }
      var rec := d.entries[gid];
      if Followers(reply.value) != [] {
        AddFollowersSpec(d, rec, Followers(reply.value), s.children);
      } else {
        ApplyStatusTracked(env, gid, rec, reply.value);
        SetTracked(d, gid, ApplyStatus(env, rec, reply.value).0);
      }
    }
  }

  lemma {:induction false} RunTargetsWf(env: Env, s: Pass, target: seq<string>, results: seq<Option<Payload>>, i: nat)
    requires i <= |target| && Wf(s.downloads)
    ensures Wf(RunTargets(env, s, target, results, i).downloads)
    decreases |target| - i
  {
    if i < |target| {
      StepWf(env, s, target[i], ReplyAt(results, i));
      RunTargetsWf(env, Step(env, s, target[i], ReplyAt(results, i)), target, results, i + 1);
    }
  }

  lemma RefreshLevelWf(env: Env, st: Store, target: seq<string>, results: seq<Option<Payload>>)
    requires Wf(st.downloads)
    ensures Wf(RefreshLevel(env, st, target, results).0.downloads)
  {
    RunTargetsWf(env, Pass(st.downloads, st.scans, {}, []), target, results, 0);
  }

  /** Every refresh keeps the registry invariant: records stay under their own id, `finalized` stays
      "completed or cancelled", no record becomes a metadata stub or its own parent, and a rescan is
      only ever triggered for a record with a completion time. */
  lemma {:induction false} RefreshWf(env: Env, ready: bool, st: Store, scope: seq<string>, replies: seq<BatchReply>)
    requires Wf(st.downloads)
    ensures Wf(Refresh(env, ready, st, scope, replies).downloads)
    decreases |replies|
  {
    var target := Targets(st.downloads, scope);
    if ready && target != [] && replies != [] && replies[0].Replied? {
      var level := RefreshLevel(env, st, target, replies[0].results);
      RefreshLevelWf(env, st, target, replies[0].results);
      if level.1 != [] {
        RefreshWf(env, ready, level.0, level.1, replies[1..]);
      }
    }
  }

  // ----- what a refresh leaves alone -----

  /** A step for another id leaves a tracked record alone, does not schedule it for deletion and does
      not queue it as a follower. */
  lemma StepFrame(env: Env, s: Pass, gid: string, reply: Option<Payload>, k: string)
    requires Wf(s.downloads) && k in s.downloads.entries && k !in s.removed && k !in s.children && gid != k
    ensures var t := Step(env, s, gid, reply);
      k in t.downloads.entries && t.downloads.entries[k] == s.downloads.entries[k] && k !in t.removed && k !in t.children
  {
    if reply.Some? && gid != "" {
      var d := Admit(env, s.downloads, gid, reply);
      if Followers(reply.value) != [] {
        StepFrameFanOut(env, s, gid, reply, k);
      }
    }
  }

  /** StepFrame, for the step that replaces a parent by its followers. */
  lemma StepFrameFanOut(env: Env, s: Pass, gid: string, reply: Option<Payload>, k: string)
    requires Wf(s.downloads) && k in s.downloads.entries && k !in s.removed && k !in s.children && gid != k
    requires reply.Some? && gid != "" && Followers(reply.value) != []
    ensures var t := Step(env, s, gid, reply);
      k in t.downloads.entries && t.downloads.entries[k] == s.downloads.entries[k] && k !in t.removed && k !in t.children
  {
    var d := Admit(env, s.downloads, gid, reply);
    var rec := d.entries[gid];
    var fs := Followers(reply.value);
    AddFollowersSpec(d, rec, fs, s.children);
    var out := AddFollowers(d, rec, fs, s.children);
    assert out.1 == s.children + out.1[|s.children|..];
    assert Step(env, s, gid, reply) == Pass(out.0, s.scans, s.removed + {rec.id}, out.1);
  }

  lemma {:induction false} RunTargetsFrame(env: Env, s: Pass, target: seq<string>, results: seq<Option<Payload>>, i: nat, k: string)
    requires i <= |target| && Wf(s.downloads)
    requires k in s.downloads.entries && k !in s.removed && k !in s.children
    requires forall j :: i <= j < |target| ==> target[j] != k
    ensures var t := RunTargets(env, s, target, results, i);
      k in t.downloads.entries && t.downloads.entries[k] == s.downloads.entries[k] && k !in t.removed && k !in t.children
    decreases |target| - i
  {
    if i < |target| {
      StepFrame(env, s, target[i], ReplyAt(results, i), k);
      StepWf(env, s, target[i], ReplyAt(results, i));
      RunTargetsFrame(env, Step(env, s, target[i], ReplyAt(results, i)), target, results, i + 1, k);
    }
  }

  /** A tracked record that is not among the targets of a refresh keeps its value through the whole
      refresh, followers included: the followers the daemon reports are ids that were not tracked. */
  lemma {:induction false} RefreshFrame(env: Env, ready: bool, st: Store, scope: seq<string>, replies: seq<BatchReply>, k: string)
    requires Wf(st.downloads) && k in st.downloads.entries && k !in Targets(st.downloads, scope)
    ensures var st' := Refresh(env, ready, st, scope, replies);
      k in st'.downloads.entries && st'.downloads.entries[k] == st.downloads.entries[k]
    decreases |replies|
  {
    var target := Targets(st.downloads, scope);
    if ready && target != [] && replies != [] && replies[0].Replied? {
      var results := replies[0].results;
      var level := RefreshLevel(env, st, target, results);
      var s0 := Pass(st.downloads, st.scans, {}, []);
      assert forall j :: 0 <= j < |target| ==> target[j] != k by {
        forall j | 0 <= j < |target| ensures target[j] != k { assert target[j] in target; }
      }
      RunTargetsFrame(env, s0, target, results, 0, k);
      RefreshLevelWf(env, st, target, results);
      if level.1 != [] {
        assert k !in Targets(level.0.downloads, level.1);
        RefreshFrame(env, ready, level.0, level.1, replies[1..], k);
      }
    }
  }

  /** A refresh without ids asks about exactly the tracked, non-empty ids whose records are not finalized. */
  lemma UnscopedTargets(d: Table)
    requires d.Valid()
    ensures forall k :: k in Targets(d, []) <==> k in d.entries && k != "" && !d.entries[k].finalized
  {
  }

  /** So a refresh without ids leaves every finalized (completed or cancelled) record as it was. */
  lemma UnscopedRefreshKeepsFinalized(env: Env, ready: bool, st: Store, replies: seq<BatchReply>, k: string)
    requires Wf(st.downloads) && k in st.downloads.entries && st.downloads.entries[k].finalized
    ensures var st' := Refresh(env, ready, st, [], replies);
      k in st'.downloads.entries && st'.downloads.entries[k] == st.downloads.entries[k]
  {
    UnscopedTargets(st.downloads);
    RefreshFrame(env, ready, st, [], replies, k);
  }

  /** A refresh changes nothing when the daemon is not ready or the first batch call fails. */
  lemma RefreshWithoutAnswer(env: Env, ready: bool, st: Store, scope: seq<string>, replies: seq<BatchReply>)
    requires !ready || replies == [] || replies[0].BatchFailed?
    ensures Refresh(env, ready, st, scope, replies) == st
  {
  }

  // ----- one level for one id -----

  /** A single target whose reply lists followers: the target is deleted, every follower that was not
      tracked gets a clone of it (and only those are refreshed next), and every other record keeps its
      value. No scan is requested. */
  lemma FanOut(env: Env, st: Store, g: string, results: seq<Option<Payload>>)
    requires Wf(st.downloads) && g in st.downloads.entries && g != ""
    requires |results| >= 1 && results[0].Some? && Followers(results[0].value) != []
    ensures var level := RefreshLevel(env, st, [g], results);
      var d := st.downloads; var d' := level.0.downloads; var fs := Followers(results[0].value);
      g !in d'.entries && level.0.scans == st.scans
      && (forall c :: c in level.1 <==> c in fs && c !in d.entries)
      && (forall k :: k in d'.entries <==> (k in d.entries && k != g) || k in level.1)
      && (forall k :: k in d.entries && k != g ==> d'.entries[k] == d.entries[k])
      && (forall c :: c in level.1 ==> d'.entries[c] == CloneForFollower(d.entries[g], c))
  {
    var d := st.downloads;
    var s0 := Pass(d, st.scans, {}, []);
    var p := results[0].value;
    var parent := d.entries[g];
    var s1 := Step(env, s0, g, results[0]);
    assert ReplyAt(results, 0) == results[0];
    AddFollowersSpec(d, parent, Followers(p), []);
    assert s1.removed == {g};
    assert RunTargets(env, s0, [g], results, 0) == s1;
    var out := AddFollowers(d, parent, Followers(p), []);
    assert out.1[0..] == out.1;
    assert g !in out.1;
  }

  /** A single target whose reply has no followers: its record (created from the reply when it was not
      tracked) is updated by ApplyStatus, nothing is deleted, nothing is queued, and a scan is counted
      exactly when the update requested one. */
  lemma PlainUpdate(env: Env, st: Store, g: string, results: seq<Option<Payload>>)
    requires g != "" && |results| >= 1 && results[0].Some? && Followers(results[0].value) == []
    ensures var level := RefreshLevel(env, st, [g], results);
      var d := Admit(env, st.downloads, g, results[0]);
      var out := ApplyStatus(env, d.entries[g], results[0].value);
      level.1 == []
      && level.0.downloads.entries == d.entries[g := out.0]
      && level.0.scans == st.scans + (if out.1 then 1 else 0)
  {
    var s0 := Pass(st.downloads, st.scans, {}, []);
    SingleTarget(env, s0, g, results);
    var s1 := Step(env, s0, g, results[0]);
    PlainStep(env, s0, g, results[0]);
    assert s1.removed == {};
  }

  /** The loop over a single target is one step. */
  lemma SingleTarget(env: Env, s: Pass, g: string, results: seq<Option<Payload>>)
    requires |results| >= 1
    ensures RunTargets(env, s, [g], results, 0) == Step(env, s, g, results[0])
  {
    assert ReplyAt(results, 0) == results[0];
  }

  /** A step whose reply has no followers stores the updated record and counts its scan. */
  lemma PlainStep(env: Env, s: Pass, g: string, reply: Option<Payload>)
    requires g != "" && reply.Some? && Followers(reply.value) == []
    ensures var d := Admit(env, s.downloads, g, reply);
      var out := ApplyStatus(env, d.entries[g], reply.value);
      var t := Step(env, s, g, reply);
      t.downloads == d.Set(g, out.0) && t.scans == s.scans + (if out.1 then 1 else 0)
      && t.removed == s.removed && t.children == s.children
  {
  }

  /** A step whose reply lists followers replaces the record by clones for the untracked followers. */
  lemma FanStep(env: Env, s: Pass, g: string, reply: Option<Payload>)
    requires g != "" && reply.Some? && Followers(reply.value) != []
    ensures var d := Admit(env, s.downloads, g, reply); var rec := d.entries[g];
      var added := AddFollowers(d, rec, Followers(reply.value), s.children);
      Step(env, s, g, reply) == Pass(added.0, s.scans, s.removed + {rec.id}, added.1)
  {
  }

  /** A target without a reply is skipped. */
  lemma MissingReply(env: Env, st: Store, g: string, results: seq<Option<Payload>>)
    requires |results| == 0 || results[0].None?
    ensures RefreshLevel(env, st, [g], results) == (st, [])
  {
    var s0 := Pass(st.downloads, st.scans, {}, []);
    assert Step(env, s0, g, ReplyAt(results, 0)) == s0;
    assert RunTargets(env, s0, [g], results, 0) == s0;
    assert st.downloads.DeleteAll({}) == st.downloads by {
      WithoutNone(st.downloads.order, {});
    }
  }
}
