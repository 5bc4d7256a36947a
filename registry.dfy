/** A JavaScript Map keyed by strings: the entries together with the order in which their keys were
    first inserted. Setting an existing key keeps its position; deleting a key removes it from the order. */
module Registries {

  /** The elements of s that are not in ks, in order. */
  function Without(s: seq<string>, ks: set<string>): (r: seq<string>)
    ensures |r| <= |s|
    ensures forall x :: x in r <==> x in s && x !in ks
    decreases |s|
  {
    if s == [] then [] else (if s[0] in ks then [] else [s[0]]) + Without(s[1..], ks)
  }

  predicate NoDuplicates(s: seq<string>) {
    forall i, j :: 0 <= i < j < |s| ==> s[i] != s[j]
  }

  lemma {:induction false} WithoutNoDuplicates(s: seq<string>, ks: set<string>)
    requires NoDuplicates(s)
    ensures NoDuplicates(Without(s, ks))
    decreases |s|
  {
    if s != [] {
      WithoutNoDuplicates(s[1..], ks);
      assert s[0] !in s[1..] by {
        forall j | 0 <= j < |s[1..]| ensures s[1..][j] != s[0] { assert s[1..][j] == s[j + 1]; }
      }
      var rest := Without(s[1..], ks);
      var h: seq<string> := if s[0] in ks then [] else [s[0]];
      forall i, j | 0 <= i < j < |h + rest| ensures (h + rest)[i] != (h + rest)[j] {
        if i < |h| {
          assert (h + rest)[j] == rest[j - 1] && rest[j - 1] in rest;
        } else {
          assert (h + rest)[i] == rest[i - |h|] && (h + rest)[j] == rest[j - |h|];
        }
      }
    }
  }

  lemma {:induction false} WithoutTwice(s: seq<string>, a: set<string>, b: set<string>)
    ensures Without(Without(s, a), b) == Without(s, a + b)
    decreases |s|
  {
    if s != [] {
      WithoutTwice(s[1..], a, b);
      var w := Without(s, a);
      if s[0] in a {
        assert w == Without(s[1..], a);
      } else {
        assert w == [s[0]] + Without(s[1..], a);
        assert w[1..] == Without(s[1..], a);
        assert w != [];
        assert Without(w, b) == (if w[0] in b then [] else [w[0]]) + Without(w[1..], b);
      }
    }
  }

  lemma {:induction false} WithoutNone(s: seq<string>, ks: set<string>)
    requires forall x :: x in s ==> x !in ks
    ensures Without(s, ks) == s
    decreases |s|
  {
    if s != [] { WithoutNone(s[1..], ks); }
  }

  /** Two facts about a list that extends a prefix by one element: the longer prefix gives back the
      shorter one, and the suffix after the shorter one starts with the element. */
  lemma ExtendedPrefix(s: seq<string>, pre: seq<string>, x: string)
    requires |s| >= |pre| + 1 && s[..|pre| + 1] == pre + [x]
    ensures s[..|pre|] == pre
    ensures s[|pre|..] == [x] + s[|pre| + 1..]
  {
    assert s[..|pre|] == s[..|pre| + 1][..|pre|];
    assert s[|pre|] == (pre + [x])[|pre|];
  }

  datatype Registry<V> = Registry(entries: map<string, V>, order: seq<string>) {

    /** The order lists every key exactly once. */
    ghost predicate Valid() {
      NoDuplicates(order) && forall k :: k in entries <==> k in order
    }

    /** Map.prototype.set */
    function Set(k: string, v: V): (r: Registry<V>)
      ensures r.entries == entries[k := v]
      ensures k in entries ==> r.order == order
      ensures k !in entries ==> r.order == order + [k]
      ensures Valid() ==> r.Valid()
    {
      var r := Registry(entries[k := v], if k in entries then order else order + [k]);
      assert Valid() ==> r.Valid() by {
        if Valid() && k !in entries {
          forall i, j | 0 <= i < j < |r.order| ensures r.order[i] != r.order[j] {
            if j == |order| { assert r.order[i] == order[i] && order[i] in order; }
          }
        }
      }
      r
    }

    /** Deletes every key in ks (Map.prototype.delete for each of them). */
    function DeleteAll(ks: set<string>): (r: Registry<V>)
      ensures r.entries == entries - ks
      ensures r.order == Without(order, ks)
      ensures Valid() ==> r.Valid()
    {
      var r := Registry(entries - ks, Without(order, ks));
      assert Valid() ==> r.Valid() by {
        if Valid() { WithoutNoDuplicates(order, ks); }
      }
      r
    }

    /** Map.prototype.delete */
    function Delete(k: string): Registry<V>
    {
      DeleteAll({k})
    }

    /** [...map.values()]: one value per entry, in the insertion order of the keys. */
    function Values(): (vs: seq<V>)
      requires Valid()
      ensures |vs| == |order| == |entries|
      ensures forall k :: k in entries ==> entries[k] in vs
      ensures forall v :: v in vs ==> exists k :: k in entries && entries[k] == v
      ensures forall i :: 0 <= i < |order| ==> vs[i] == entries[order[i]]
    {
      var vs := seq(|order|, i requires 0 <= i < |order| && Valid() => entries[order[i]]);
      SizeIsOrderLength(entries, order);
      assert forall k :: k in entries ==> entries[k] in vs by {
        forall k | k in entries ensures entries[k] in vs {
          var i :| 0 <= i < |order| && order[i] == k;
          assert vs[i] == entries[k];
        }
      }
      vs
    }

    /** The number of entries (map.size). */
    function Size(): (n: nat)
      requires Valid()
      ensures n == |entries|
    {
      SizeIsOrderLength(entries, order);
      |order|
    }
  }

  lemma {:induction false} SizeIsOrderLength<V>(m: map<string, V>, s: seq<string>)
    requires NoDuplicates(s) && forall k :: k in m <==> k in s
    ensures |m| == |s|
    decreases |s|
  {
    if s == [] {
      assert m.Keys == {};
    } else {
      var k := s[|s| - 1];
      var s' := s[..|s| - 1];
      assert k !in s' by {
        forall j | 0 <= j < |s'| ensures s'[j] != k { assert s'[j] == s[j]; }
      }
      assert NoDuplicates(s') by {
        forall i, j | 0 <= i < j < |s'| ensures s'[i] != s'[j] { assert s'[i] == s[i] && s'[j] == s[j]; }
      }
      var m' := m - {k};
      forall x ensures x in m' <==> x in s' {
        if x in s' { assert x in s; }
        if x in s && x != k {
          var i :| 0 <= i < |s| && s[i] == x;
          assert i < |s| - 1 && s'[i] == x;
        }
      }
      SizeIsOrderLength(m', s');
      assert m.Keys == m'.Keys + {k};
    }
  }
}
