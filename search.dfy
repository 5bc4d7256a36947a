/** The merge step of searchTorrents in server/torrentService.js: the hits of the two providers are
    concatenated, de-duplicated by key (first occurrence wins), ordered by seeders and then size, both
    descending, with ties kept in their order (Array.prototype.sort is stable), and cut to 30. */
module Search {
  import opened Text

  /** One search hit; seeders, leechers and size are the results of normaliseNumber, so finite. */
  datatype Hit = Hit(id: string, name: string, magnet: string, infoHash: string, provider: string,
                     seeders: real, leechers: real, size: real, verified: bool)

  const MaxResults: nat := 30

  /** `item.infoHash || item.id || item.magnet` */
  function Key(h: Hit): (k: string)
    ensures k == "" <==> h.infoHash == "" && h.id == "" && h.magnet == ""
  {
    if h.infoHash != "" then h.infoHash else if h.id != "" then h.id else h.magnet
  }

  // ----- de-duplication -----

  /** Position i of ms holds the first hit with its (non-empty) key. */
  predicate IsFirst(ms: seq<Hit>, i: nat)
    requires i < |ms|
  {
    Key(ms[i]) != "" && forall j :: 0 <= j < i ==> Key(ms[j]) != Key(ms[i])
  }

  /** The first-occurrence hits among the first n of ms, in order. */
  function FirstOccurrences(ms: seq<Hit>, n: nat): (r: seq<Hit>)
    requires n <= |ms|
    ensures |r| <= n
    decreases n
  {
    if n == 0 then [] else FirstOccurrences(ms, n - 1) + (if IsFirst(ms, n - 1) then [ms[n - 1]] else [])
  }

  /** The keys among the first n hits of ms. */
  function SeenKeys(ms: seq<Hit>, n: nat): set<string>
    requires n <= |ms|
  {
    set j | 0 <= j < n && Key(ms[j]) != "" :: Key(ms[j])
  }

  /** The loop of searchTorrents over the merged hits, with its `seen` set. */
  method Dedupe(merged: seq<Hit>) returns (deduped: seq<Hit>)
    ensures deduped == FirstOccurrences(merged, |merged|)
  {
    var seen: set<string> := {};
    deduped := [];
    var i := 0;
    while i < |merged|
      invariant i <= |merged|
      invariant deduped == FirstOccurrences(merged, i)
      invariant seen == SeenKeys(merged, i)
    {
      var item := merged[i];
      var key := Key(item);
      DedupeStep(merged, i);
      if key != "" && key !in seen {
        seen := seen + {key};
        deduped := deduped + [item];
      }
      i := i + 1;
    }
  }

  /** One iteration of the loop: the i-th hit is a first occurrence exactly when its key is
      non-empty and not among the keys seen so far. */
  lemma DedupeStep(ms: seq<Hit>, i: nat)
    requires i < |ms|
    ensures IsFirst(ms, i) <==> Key(ms[i]) != "" && Key(ms[i]) !in SeenKeys(ms, i)
    ensures SeenKeys(ms, i + 1) == SeenKeys(ms, i) + (if Key(ms[i]) == "" then {} else {Key(ms[i])})
    ensures FirstOccurrences(ms, i + 1) == FirstOccurrences(ms, i) + (if IsFirst(ms, i) then [ms[i]] else [])
  {
    var key := Key(ms[i]);
    if key != "" && key in SeenKeys(ms, i) {
      var j :| 0 <= j < i && Key(ms[j]) != "" && Key(ms[j]) == key;
      assert !IsFirst(ms, i);
    }
    var before, after := SeenKeys(ms, i), SeenKeys(ms, i + 1);
    assert after == before + (if key == "" then {} else {key}) by {
      forall k | k in after ensures k in before || k == key {
        var j :| 0 <= j < i + 1 && Key(ms[j]) != "" && Key(ms[j]) == k;
        if j < i { assert k in SeenKeys(ms, i); }
      }
    }
  }

  /** Every hit of r has a non-empty key and no two share one. */
  predicate KeysDistinct(r: seq<Hit>) {
    (forall i :: 0 <= i < |r| ==> Key(r[i]) != "")
    && (forall i, j :: 0 <= i < j < |r| ==> Key(r[i]) != Key(r[j]))
  }

  /** The kept hits have distinct non-empty keys. */
  lemma {:induction false} FirstOccurrencesDistinct(ms: seq<Hit>, n: nat)
    requires n <= |ms|
    ensures KeysDistinct(FirstOccurrences(ms, n))
    decreases n
  {
    if n > 0 {
      FirstOccurrencesDistinct(ms, n - 1);
      FirstOccurrencesMembers(ms, n - 1);
      var r0 := FirstOccurrences(ms, n - 1);
      if IsFirst(ms, n - 1) {
        var x := ms[n - 1];
        var r := r0 + [x];
        assert FirstOccurrences(ms, n) == r;
        forall i | 0 <= i < |r0| ensures Key(r0[i]) != Key(x) {
          assert r0[i] in r0;
          var j :| 0 <= j < n - 1 && ms[j] == r0[i];
        }
        forall i, j | 0 <= i < j < |r| ensures Key(r[i]) != Key(r[j]) {
          if j < |r0| { assert r[i] == r0[i] && r[j] == r0[j]; } else { assert r[i] == r0[i] && r[j] == x; }
        }
        forall i | 0 <= i < |r| ensures Key(r[i]) != "" {
          if i < |r0| { assert r[i] == r0[i]; }
        }
      } else {
        assert FirstOccurrences(ms, n) == r0;
      }
    }
  }

  /** Every kept hit among the first n is one of the first n. */
  lemma {:induction false} FirstOccurrencesMembers(ms: seq<Hit>, n: nat)
    requires n <= |ms|
    ensures forall h :: h in FirstOccurrences(ms, n) ==> exists j :: 0 <= j < n && ms[j] == h
    decreases n
  {
    if n > 0 {
      FirstOccurrencesMembers(ms, n - 1);
    }
  }

  /** Some hit of r has the key k. */
  predicate HasKey(r: seq<Hit>, k: string) {
    exists i :: 0 <= i < |r| && Key(r[i]) == k
  }

  /** Every non-empty key among the first n hits is the key of a kept hit. */
  lemma {:induction false} FirstOccurrencesCover(ms: seq<Hit>, n: nat)
    requires n <= |ms|
    ensures forall j :: 0 <= j < n && Key(ms[j]) != "" ==> HasKey(FirstOccurrences(ms, n), Key(ms[j]))
    decreases n
  {
    if n > 0 {
      FirstOccurrencesCover(ms, n - 1);
      CoverStep(ms, n);
    }
  }

  /** The step of FirstOccurrencesCover from the first n - 1 hits to the first n. */
  lemma CoverStep(ms: seq<Hit>, n: nat)
    requires 0 < n <= |ms|
    requires forall j :: 0 <= j < n - 1 && Key(ms[j]) != "" ==> HasKey(FirstOccurrences(ms, n - 1), Key(ms[j]))
    ensures forall j :: 0 <= j < n && Key(ms[j]) != "" ==> HasKey(FirstOccurrences(ms, n), Key(ms[j]))
  {
    var r := FirstOccurrences(ms, n);
    var r0 := FirstOccurrences(ms, n - 1);
    assert r[..|r0|] == r0;
    forall k | HasKey(r0, k) ensures HasKey(r, k) {
      var i :| 0 <= i < |r0| && Key(r0[i]) == k;
      assert r[i] == r0[i];
    }
    if Key(ms[n - 1]) != "" {
      if IsFirst(ms, n - 1) {
        assert r[|r0|] == ms[n - 1];
      } else {
        var j' :| 0 <= j' < n - 1 && Key(ms[j']) == Key(ms[n - 1]);
        assert HasKey(r0, Key(ms[j']));
      }
    }
  }

  // ----- ordering -----

  /** The comparator of searchTorrents puts a strictly before b: more seeders, or as many and a larger size. */
  predicate Precedes(a: Hit, b: Hit) {
    a.seeders > b.seeders || (a.seeders == b.seeders && a.size > b.size)
  }

  /** a and b compare equal, so the sort keeps them in their order. */
  predicate Tie(a: Hit, b: Hit) {
    a.seeders == b.seeders && a.size == b.size
  }

  predicate Ordered(s: seq<Hit>) {
    forall i, j :: 0 <= i < j < |s| ==> !Precedes(s[j], s[i])
  }

  /** Places x before the first hit of s that x is not strictly preceded by, so before its ties. */
  function Insert(x: Hit, s: seq<Hit>): (r: seq<Hit>)
    ensures multiset(r) == multiset(s) + multiset{x}
    ensures |r| == |s| + 1
    decreases |s|
  {
    if s == [] || !Precedes(s[0], x) then [x] + s
    else
      assert s == [s[0]] + s[1..];
      [s[0]] + Insert(x, s[1..])
  }

  /** The stable sort by the comparator, as an insertion sort that inserts each hit in front of the
      hits after it that it ties with. */
  function SortHits(s: seq<Hit>): (r: seq<Hit>)
    ensures multiset(r) == multiset(s) && |r| == |s|
    decreases |s|
  {
    if s == [] then []
    else
      assert s == [s[0]] + s[1..];
      Insert(s[0], SortHits(s[1..]))
  }

  /** Not being preceded is transitive: the comparator is a total preorder. */
  lemma NotPrecededTrans(a: Hit, b: Hit, c: Hit)
    requires !Precedes(b, a) && !Precedes(c, b)
    ensures !Precedes(c, a)
  {
  }

  lemma {:induction false} InsertOrdered(x: Hit, s: seq<Hit>)
    requires Ordered(s)
    ensures Ordered(Insert(x, s))
    decreases |s|
  {
    if s == [] {
    } else if !Precedes(s[0], x) {
      forall k | 0 <= k < |s| ensures !Precedes(s[k], x) {
        if k > 0 { NotPrecededTrans(x, s[0], s[k]); }
      }
      ConsOrdered(x, s);
    } else {
      assert Ordered(s[1..]);
      InsertOrdered(x, s[1..]);
      InsertAfter(x, s);
      ConsOrdered(s[0], Insert(x, s[1..]));
    }
  }

  /** Inserting x after s[0], which precedes it, keeps every hit from preceding s[0]. */
  lemma InsertAfter(x: Hit, s: seq<Hit>)
    requires s != [] && Ordered(s) && Precedes(s[0], x)
    ensures forall k :: 0 <= k < |Insert(x, s[1..])| ==> !Precedes(Insert(x, s[1..])[k], s[0])
  {
    var rest := Insert(x, s[1..]);
    forall k | 0 <= k < |rest| ensures !Precedes(rest[k], s[0]) {
      assert rest[k] in multiset(rest);
      if rest[k] != x {
        assert rest[k] in multiset(s[1..]);
        var m :| 0 <= m < |s[1..]| && s[1..][m] == rest[k];
        assert s[m + 1] == rest[k];
      }
    }
  }

  /** A hit that no hit of an ordered sequence precedes can go in front of it. */
  lemma ConsOrdered(a: Hit, s: seq<Hit>)
    requires Ordered(s) && forall k :: 0 <= k < |s| ==> !Precedes(s[k], a)
    ensures Ordered([a] + s)
  {
    var r := [a] + s;
    forall i, j | 0 <= i < j < |r| ensures !Precedes(r[j], r[i]) {
      if i == 0 { assert r[j] == s[j - 1]; } else { assert r[i] == s[i - 1] && r[j] == s[j - 1]; }
    }
  }

  /** The sorted hits are in comparator order. */
  lemma {:induction false} SortHitsOrdered(s: seq<Hit>)
    ensures Ordered(SortHits(s))
    decreases |s|
  {
    if s != [] {
      SortHitsOrdered(s[1..]);
      InsertOrdered(s[0], SortHits(s[1..]));
    }
  }

  /** The hits of s that tie with c, in order. */
  function TiesWith(s: seq<Hit>, c: Hit): (r: seq<Hit>)
    ensures |r| <= |s|
    decreases |s|
  {
    if s == [] then [] else (if Tie(s[0], c) then [s[0]] else []) + TiesWith(s[1..], c)
  }

  lemma {:induction false} InsertTies(x: Hit, s: seq<Hit>, c: Hit)
    ensures TiesWith(Insert(x, s), c) == (if Tie(x, c) then [x] else []) + TiesWith(s, c)
    decreases |s|
  {
    if s == [] || !Precedes(s[0], x) {
      assert ([x] + s)[1..] == s;
    } else {
      InsertTies(x, s[1..], c);
      assert ([s[0]] + Insert(x, s[1..]))[1..] == Insert(x, s[1..]);
    }
  }

  /** The sort is stable: hits that compare equal keep their relative order. */
  lemma {:induction false} SortHitsStable(s: seq<Hit>, c: Hit)
    ensures TiesWith(SortHits(s), c) == TiesWith(s, c)
    decreases |s|
  {
    if s != [] {
      SortHitsStable(s[1..], c);
      InsertTies(s[0], SortHits(s[1..]), c);
    }
  }

  // ----- the whole step -----

  /** The result of searchTorrents for a query and the hits each provider returned for its trimmed form. */
  function SearchResult(query: string, apibay: seq<Hit>, yts: seq<Hit>): seq<Hit> {
    if |JsTrim(query)| < 2 then []
    else
      var merged := apibay + yts;
      var sorted := SortHits(FirstOccurrences(merged, |merged|));
      if |sorted| <= MaxResults then sorted else sorted[..MaxResults]
  }

  /** searchTorrents after the two provider calls: merge, de-duplicate, sort, slice. */
  method SearchTorrents(query: string, apibay: seq<Hit>, yts: seq<Hit>) returns (results: seq<Hit>)
    ensures results == SearchResult(query, apibay, yts)
  {
    if |JsTrim(query)| < 2 {
      return [];
    }
    var merged := apibay + yts;
    var deduped := Dedupe(merged);
    var sorted := SortHits(deduped);
    results := if |sorted| <= MaxResults then sorted else sorted[..MaxResults];
  }

  /** Keys that are distinct and non-empty stay so in any permutation. */
  lemma PermutationKeys(d: seq<Hit>, p: seq<Hit>)
    requires multiset(p) == multiset(d) && KeysDistinct(d)
    ensures KeysDistinct(p) && forall i :: 0 <= i < |p| ==> p[i] in multiset(d)
  {
    forall i | 0 <= i < |p| ensures Key(p[i]) != "" && p[i] in multiset(d) {
      assert p[i] in multiset(p);
      var a :| 0 <= a < |d| && d[a] == p[i];
    }
    forall i, j | 0 <= i < j < |p| ensures Key(p[i]) != Key(p[j]) {
      DistinctAfterPermutation(d, p, i, j);
    }
  }

  /** The sorted merge: distinct non-empty keys, comparator order, hits of the merge only. */
  lemma SortedMerge(merged: seq<Hit>)
    ensures var p := SortHits(FirstOccurrences(merged, |merged|));
      KeysDistinct(p) && Ordered(p) && forall h :: h in p ==> h in merged
  {
    var d := FirstOccurrences(merged, |merged|);
    var p := SortHits(d);
    FirstOccurrencesDistinct(merged, |merged|);
    FirstOccurrencesMembers(merged, |merged|);
    SortHitsOrdered(d);
    PermutationKeys(d, p);
    forall h | h in p ensures h in merged {
      assert h in multiset(p);
      assert h in d;
    }
  }

  /** A prefix keeps distinct keys and order. */
  lemma PrefixKeeps(p: seq<Hit>, n: nat)
    requires n <= |p| && KeysDistinct(p) && Ordered(p)
    ensures KeysDistinct(p[..n]) && Ordered(p[..n]) && forall h :: h in p[..n] ==> h in p
  {
    var q := p[..n];
    assert forall i :: 0 <= i < n ==> q[i] == p[i];
  }

  /** A query shorter than two characters once trimmed gives no results; otherwise at most 30 hits come
      back, each from one of the providers, with distinct non-empty keys, in comparator order. */
  lemma SearchResultSpec(query: string, apibay: seq<Hit>, yts: seq<Hit>)
    ensures var r := SearchResult(query, apibay, yts);
      (|JsTrim(query)| < 2 ==> r == [])
      && |r| <= MaxResults
      && (forall h :: h in r ==> h in apibay || h in yts)
      && KeysDistinct(r)
      && Ordered(r)
  {
    if |JsTrim(query)| >= 2 {
      var merged := apibay + yts;
      var sorted := SortHits(FirstOccurrences(merged, |merged|));
      SortedMerge(merged);
      if |sorted| > MaxResults {
        PrefixKeeps(sorted, MaxResults);
      }
    }
  }

  /** Every hit of the providers with a non-empty key is represented in the merge: some kept hit has its key. */
  lemma DedupeCovers(merged: seq<Hit>, h: Hit)
    requires h in merged && Key(h) != ""
    ensures HasKey(FirstOccurrences(merged, |merged|), Key(h))
  {
    FirstOccurrencesCover(merged, |merged|);
    var j :| 0 <= j < |merged| && merged[j] == h;
  }

  /** Two positions of a permutation of a sequence with distinct keys hold distinct keys. */
  lemma DistinctAfterPermutation(d: seq<Hit>, p: seq<Hit>, i: nat, j: nat)
    requires multiset(p) == multiset(d) && i < j < |p|
    requires KeysDistinct(d)
    ensures Key(p[i]) != Key(p[j])
  {
    if p[i] == p[j] {
      var x := p[i];
      assert p == p[..j] + p[j..];
      assert x in multiset(p[..j]) by { assert p[..j][i] == x; }
      assert x in multiset(p[j..]) by { assert p[j..][0] == x; }
      assert multiset(p)[x] == multiset(p[..j])[x] + multiset(p[j..])[x];
      var a :| 0 <= a < |d| && d[a] == x by { assert x in multiset(d); }
      DuplicateInSeq(d, a, x);
      var b :| 0 <= b < |d| && b != a && d[b] == x;
      if a < b { assert Key(d[a]) != Key(d[b]); } else { assert Key(d[b]) != Key(d[a]); }
    } else {
      var a :| 0 <= a < |d| && d[a] == p[i] by { assert p[i] in multiset(d); }
      var b :| 0 <= b < |d| && d[b] == p[j] by { assert p[j] in multiset(d); }
      assert a != b;
    }
  }

  /** A value occurring twice in d (by multiset count) occupies two distinct positions. */
  lemma DuplicateInSeq(d: seq<Hit>, a: nat, x: Hit)
    requires a < |d| && d[a] == x && multiset(d)[x] >= 2
    ensures exists b :: 0 <= b < |d| && b != a && d[b] == x
  {
    assert d == d[..a] + [x] + d[a + 1..];
    assert multiset(d)[x] == multiset(d[..a])[x] + 1 + multiset(d[a + 1..])[x];
    if multiset(d[..a])[x] > 0 {
      var b :| 0 <= b < a && d[..a][b] == x;
    } else {
      assert x in multiset(d[a + 1..]);
      var b :| 0 <= b < |d[a + 1..]| && d[a + 1..][b] == x;
      assert d[a + 1 + b] == x;
    }
  }
}
