/** Python dictionaries as the build script uses them: insertion-ordered maps
    from string keys to values. A dict is a sequence of (key, value) entries
    with distinct keys, so that the order in which a dict is iterated, and so
    serialised, is part of the model. */
module Dicts {
  import opened Wrappers
  import opened Strings

  predicate DistinctKeys<V>(s: seq<(string, V)>)
  {
    forall i, j | 0 <= i < j < |s| :: s[i].0 != s[j].0
  }

  type Dict<V> = s: seq<(string, V)> | DistinctKeys(s) witness []

  /** The keys of `s`, in iteration order. */
  function Keys<V>(s: seq<(string, V)>): (ks: seq<string>)
    ensures |ks| == |s| && forall i | 0 <= i < |s| :: ks[i] == s[i].0
  {
    seq(|s|, i requires 0 <= i < |s| => s[i].0)
  }

  /** `d[k]` where it succeeds, None where Python raises KeyError. */
  function Get<V>(s: seq<(string, V)>, k: string): (r: Option<V>)
    ensures r.None? <==> k !in Keys(s)
  {
    var i := IndexOf(Keys(s), k);
    if i < |s| then Some(s[i].1) else None
  }

  /** `d[k] = v`: an existing key keeps its position and takes the new value;
      a new key is appended at the end. */
  function Assign<V>(d: Dict<V>, k: string, v: V): (r: Dict<V>)
    ensures Keys(r) == if k in Keys(d) then Keys(d) else Keys(d) + [k]
  {
    var i := IndexOf(Keys(d), k);
    if i < |d| then
      var r := d[i := (k, v)];
      assert Keys(r) == Keys(d);
      r
    else
      assert forall j | 0 <= j < |d| :: Keys(d)[j] != k;
      assert forall j | 0 <= j < |d| :: d[j].0 != k;
      var r := d + [(k, v)];
      assert forall j | 0 <= j < |r| :: r[j] == if j < |d| then d[j] else (k, v);
      assert Keys(r) == Keys(d) + [k];
      r
  }

  /** Looking up an entry of a dict by its own key finds that entry. */
  lemma GetAt<V>(d: Dict<V>, i: nat)
    requires i < |d|
    ensures Get(d, d[i].0) == Some(d[i].1)
  {
    var j := IndexOf(Keys(d), d[i].0);
    assert Keys(d)[i] == d[i].0;
  }

  /** A key a dict holds sits in one of its entries, next to the value read for it. */
  lemma EntryOf<V>(d: seq<(string, V)>, k: string) returns (i: nat)
    requires Get(d, k).Some?
    ensures i < |d| && d[i] == (k, Get(d, k).value)
  {
    i := IndexOf(Keys(d), k);
    assert Keys(d)[i] == d[i].0;
  }

  lemma KeysAppend<V>(a: seq<(string, V)>, b: seq<(string, V)>)
    ensures Keys(a + b) == Keys(a) + Keys(b)
  {
  }

  lemma KeysSnoc<V>(s: seq<(string, V)>)
    requires s != []
    ensures Keys(s) == Keys(s[..|s| - 1]) + [s[|s| - 1].0]
  {
    var n := |s| - 1;
    assert s == s[..n] + [s[n]];
    KeysAppend(s[..n], [s[n]]);
    assert Keys([s[n]]) == [s[n].0];
  }

  /** Looking up in `s + [(k0, v0)]`: what `s` holds wins, then the new entry. */
  lemma GetSnoc<V>(s: seq<(string, V)>, k0: string, v0: V, k: string)
    ensures Get(s + [(k0, v0)], k) ==
      if k in Keys(s) then Get(s, k) else if k == k0 then Some(v0) else None
  {
    KeysAppend(s, [(k0, v0)]);
    assert Keys([(k0, v0)]) == [k0];
    IndexOfAppend(Keys(s), [k0], k);
  }

  /** After `d[k] = v`, `d[k]` is `v` and every other key reads as before. */
  lemma AssignGet<V>(d: Dict<V>, k: string, v: V, k': string)
    ensures Get(Assign(d, k, v), k') == if k' == k then Some(v) else Get(d, k')
  {
    var i := IndexOf(Keys(d), k);
    var r := Assign(d, k, v);
    if i < |d| {
      assert Keys(r) == Keys(d);
      var j := IndexOf(Keys(d), k');
      if j < |d| {
        assert Keys(d)[j] == k';
        assert Keys(d)[i] == k;
      }
    } else {
      GetSnoc(d, k, v, k');
    }
  }

  // ---------------------------------------------------------------------------
  // dict.update

  /** `d.update(o)`: the entries of `o` assigned into `d` one after another, in
      the order of `o`. */
  function Update<V>(d: Dict<V>, o: Dict<V>): Dict<V>
    decreases |o|
  {
    if o == [] then d
    else
      var n := |o| - 1;
      Assign(Update(d, o[..n]), o[n].0, o[n].1)
  }

  /** `d.update(o[..n])` is `d.update(o[..n - 1])` followed by the assignment
      of the n-th entry. */
  lemma UpdateLast<V>(d: Dict<V>, o: Dict<V>, n: nat)
    requires 0 < n <= |o|
    ensures Update(d, o[..n]) == Assign(Update(d, o[..n - 1]), o[n - 1].0, o[n - 1].1)
  {
    assert o[..n][..n - 1] == o[..n - 1];
  }

  /** The keys of `ks` that are not in `present`, in the order of `ks`. */
  function Missing(ks: seq<string>, present: seq<string>): (r: seq<string>)
    ensures forall x | x in r :: x in ks && x !in present
  {
    if ks == [] then []
    else
      var n := |ks| - 1;
      Missing(ks[..n], present) + (if ks[n] in present then [] else [ks[n]])
  }

  /** After `d.update(o)`, a key of `o` reads as in `o`, any other as in `d`. */
  lemma {:induction false} UpdateGet<V>(d: Dict<V>, o: Dict<V>, k: string)
    ensures Get(Update(d, o), k) == if k in Keys(o) then Get(o, k) else Get(d, k)
    decreases |o|
  {
    if o != [] {
      var n := |o| - 1;
      var p := o[..n];
      assert o == p + [(o[n].0, o[n].1)];
      UpdateGet(d, p, k);
      AssignGet(Update(d, p), o[n].0, o[n].1, k);
      GetSnoc(p, o[n].0, o[n].1, k);
      KeysAppend(p, [(o[n].0, o[n].1)]);
      if k == o[n].0 {
        assert k !in Keys(p) by {
          forall j | 0 <= j < |p| ensures Keys(p)[j] != k {
            assert p[j] == o[j];
          }
        }
      }
    }
  }

  /** `d.update(o)` keeps every key of `d` in place and appends the keys of `o`
      that `d` lacks, in the order of `o`. */
  lemma {:induction false} UpdateKeys<V>(d: Dict<V>, o: Dict<V>)
    ensures Keys(Update(d, o)) == Keys(d) + Missing(Keys(o), Keys(d))
    decreases |o|
  {
    if o != [] {
      var n := |o| - 1;
      var p := o[..n];
      var k := o[n].0;
      UpdateKeys(d, p);
      KeysSnoc(o);
      assert k !in Keys(p) by {
        forall j | 0 <= j < |p| ensures Keys(p)[j] != k {
          assert p[j] == o[j];
        }
      }
      var u := Update(d, p);
      var added: seq<string> := if k in Keys(d) then [] else [k];
      assert Keys(Update(d, o)) == Keys(u) + added by {
        assert k in Keys(u) <==> k in Keys(d);
      }
      MissingSnoc(Keys(p), k, Keys(d));
      ChainAppend(Keys(Update(d, o)), Keys(u), Keys(d), Missing(Keys(p), Keys(d)), added, Missing(Keys(o), Keys(d)));
    }
  }

  /** Successive `update` calls, first `os[0]`, last `os[|os| - 1]`. */
  function UpdateAll<V>(d: Dict<V>, os: seq<Dict<V>>): Dict<V>
  {
    if os == [] then d else Update(UpdateAll(d, os[..|os| - 1]), os[|os| - 1])
  }

  lemma UpdateAllSnoc<V>(d: Dict<V>, os: seq<Dict<V>>, o: Dict<V>)
    ensures UpdateAll(d, os + [o]) == Update(UpdateAll(d, os), o)
  {
    assert (os + [o])[..|os|] == os;
  }

  /** A lookup after successive updates: the last overlay if it holds the key,
      otherwise the updates before it. */
  lemma GetAfterLastUpdate<V>(d: Dict<V>, os: seq<Dict<V>>, k: string)
    requires os != []
    ensures var n := |os| - 1;
      Get(UpdateAll(d, os), k) ==
        if k in Keys(os[n]) then Get(os[n], k) else Get(UpdateAll(d, os[..n]), k)
  {
    var n := |os| - 1;
    UpdateGet(UpdateAll(d, os[..n]), os[n], k);
  }

  lemma LaterOverlaysLackKey<V>(os: seq<Dict<V>>, i: nat, k: string)
    requires i < |os| - 1 && k in Keys(os[i])
    requires forall j | i < j < |os| :: k !in Keys(os[j])
    ensures var prefix := os[..|os| - 1];
      && k !in Keys(os[|os| - 1]) && k in Keys(prefix[i])
      && forall j | i < j < |prefix| :: k !in Keys(prefix[j])
  {
    var prefix := os[..|os| - 1];
    assert prefix[i] == os[i];
    forall j | i < j < |prefix| ensures k !in Keys(prefix[j]) {
      assert prefix[j] == os[j];
    }
  }

  /** The last overlay that holds a key decides its value. */
  lemma {:induction false} LastWriterWins<V>(d: Dict<V>, os: seq<Dict<V>>, i: nat, k: string)
    requires i < |os| && k in Keys(os[i])
    requires forall j | i < j < |os| :: k !in Keys(os[j])
    ensures Get(UpdateAll(d, os), k) == Get(os[i], k)
    decreases |os|
  {
    var n := |os| - 1;
    var prefix := os[..n];
    GetAfterLastUpdate(d, os, k);
    if i < n {
      LaterOverlaysLackKey(os, i, k);
      LastWriterWins(d, prefix, i, k);
    }
  }

  /** A key no overlay holds keeps the value it had in `d`. */
  lemma {:induction false} UntouchedKeyKept<V>(d: Dict<V>, os: seq<Dict<V>>, k: string)
    requires forall j | 0 <= j < |os| :: k !in Keys(os[j])
    ensures Get(UpdateAll(d, os), k) == Get(d, k)
    decreases |os|
  {
    if os != [] {
      var n := |os| - 1;
      var prefix := os[..n];
      forall j | 0 <= j < |prefix| ensures k !in Keys(prefix[j]) {
        assert prefix[j] == os[j];
      }
      GetAfterLastUpdate(d, os, k);
      UntouchedKeyKept(d, prefix, k);
    }
  }

  // ---------------------------------------------------------------------------
  // Key order after successive updates

  /** The elements of `s` in the order of their first appearance. */
  function Dedup(s: seq<string>): seq<string>
  {
    if s == [] then []
    else
      var n := |s| - 1;
      Dedup(s[..n]) + (if s[n] in s[..n] then [] else [s[n]])
  }

  /** All the keys of the overlays, overlay after overlay. */
  function AllKeys<V>(os: seq<Dict<V>>): seq<string>
  {
    if os == [] then [] else AllKeys(os[..|os| - 1]) + Keys(os[|os| - 1])
  }

  predicate Distinct(s: seq<string>)
  {
    forall i, j | 0 <= i < j < |s| :: s[i] != s[j]
  }

  /** Dropping the last element of a distinct sequence keeps it distinct, and
      the dropped element occurs nowhere before. */
  lemma DistinctSnoc(b: seq<string>)
    requires b != [] && Distinct(b)
    ensures Distinct(b[..|b| - 1]) && b[|b| - 1] !in b[..|b| - 1]
  {
  }

  /** Deduplication keeps exactly the elements it was given. */
  lemma {:induction false} DedupMembers(s: seq<string>)
    ensures forall x :: x in Dedup(s) <==> x in s
  {
    if s != [] {
      var n := |s| - 1;
      DedupMembers(s[..n]);
      assert s == s[..n] + [s[n]];
    }
  }

  lemma {:induction false} DedupDistinct(s: seq<string>)
    requires Distinct(s)
    ensures Dedup(s) == s
  {
    if s != [] {
      var n := |s| - 1;
      DedupDistinct(s[..n]);
      assert s[n] !in s[..n];
      assert s[..n] + [s[n]] == s;
    }
  }

  lemma {:induction false} MissingSameMembers(ks: seq<string>, p1: seq<string>, p2: seq<string>)
    requires forall x :: x in p1 <==> x in p2
    ensures Missing(ks, p1) == Missing(ks, p2)
  {
    if ks != [] {
      MissingSameMembers(ks[..|ks| - 1], p1, p2);
    }
  }

  lemma DedupSnoc(c: seq<string>, y: string)
    ensures Dedup(c + [y]) == Dedup(c) + (if y in c then [] else [y])
  {
    assert (c + [y])[..|c|] == c;
  }

  lemma MissingSnoc(ks: seq<string>, y: string, present: seq<string>)
    ensures Missing(ks + [y], present) == Missing(ks, present) + (if y in present then [] else [y])
  {
    assert (ks + [y])[..|ks|] == ks;
  }

  lemma ChainAppend(x: seq<string>, xc: seq<string>, xa: seq<string>, m: seq<string>, add: seq<string>, mb: seq<string>)
    requires x == xc + add && xc == xa + m && mb == m + add
    ensures x == xa + mb
  {
  }

  /** Appending distinct elements adds those not seen before, in their order. */
  lemma {:induction false} DedupAppend(a: seq<string>, b: seq<string>)
    requires Distinct(b)
    ensures Dedup(a + b) == Dedup(a) + Missing(b, a)
  {
    if b == [] {
      assert a + b == a;
    } else {
      var n := |b| - 1;
      var y := b[n];
      var p := b[..n];
      var c := a + p;
      var added: seq<string> := if y in a then [] else [y];
      DistinctSnoc(b);
      assert Dedup(a + b) == Dedup(c) + added by {
        assert a + b == c + [y];
        DedupSnoc(c, y);
        assert y in c <==> y in a;
      }
      assert Missing(b, a) == Missing(p, a) + added by {
        assert b == p + [y];
        MissingSnoc(p, y, a);
      }
      assert Dedup(c) == Dedup(a) + Missing(p, a) by {
        DedupAppend(a, p);
      }
      ChainAppend(Dedup(a + b), Dedup(c), Dedup(a), Missing(p, a), added, Missing(b, a));
    }
  }

  /** One more overlay, seen from the keys alone: the deduplicated keys so far
      followed by the overlay's keys they lack. */
  lemma DedupStep(ks: seq<string>, more: seq<string>, k: seq<string>)
    requires Distinct(k)
    ensures Dedup(ks + (more + k)) == Dedup(ks + more) + Missing(k, Dedup(ks + more))
  {
    assert ks + (more + k) == (ks + more) + k;
    DedupAppend(ks + more, k);
    DedupMembers(ks + more);
    MissingSameMembers(k, Dedup(ks + more), ks + more);
  }

  lemma KeysDistinct<V>(d: Dict<V>)
    ensures Distinct(Keys(d))
  {
  }

  /** Successive updates of `d` keep the keys of `d` first and then add each
      key of the overlays at its first appearance. */
  lemma {:induction false} UpdateAllKeys<V>(d: Dict<V>, os: seq<Dict<V>>)
    ensures Keys(UpdateAll(d, os)) == Dedup(Keys(d) + AllKeys(os))
  {
    if os == [] {
      assert Keys(d) + AllKeys(os) == Keys(d);
      DedupDistinct(Keys(d));
    } else {
      var n := |os| - 1;
      var prefix := os[..n];
      UpdateAllKeys(d, prefix);
      UpdateKeys(UpdateAll(d, prefix), os[n]);
      KeysDistinct(os[n]);
      DedupStep(Keys(d), AllKeys(prefix), Keys(os[n]));
    }
  }

  /** Successive updates of an empty dict: every key at its first appearance. */
  lemma UpdateAllFromEmptyKeys<V>(os: seq<Dict<V>>)
    ensures Keys(UpdateAll([], os)) == Dedup(AllKeys(os))
  {
    var empty: Dict<V> := [];
    UpdateAllKeys(empty, os);
    assert Keys(empty) + AllKeys(os) == AllKeys(os);
  }
}
