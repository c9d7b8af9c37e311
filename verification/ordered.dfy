/**
 * Insertion-ordered dictionaries. A Python dict remembers the order in which
 * its keys were first inserted; both the pickup groups (main.py:24-31) and the
 * merged vehicle manifests (main.py:113-124) are such dictionaries, built by
 * scanning a sequence and inserting each element's key when it is new.
 * This module describes that order and the way per-key totals partition the
 * scanned sequence.
 */
module Ordered {

  /** The keys of `ks` in the order of their first occurrence, each once. */
  function FirstSeen<K(==)>(ks: seq<K>): seq<K>
  {
    if ks == [] then []
    else
      var init := FirstSeen(ks[..|ks| - 1]);
      var k := ks[|ks| - 1];
      if k in init then init else init + [k]
  }

  /** Exactly the keys that occur are listed. */
  lemma {:induction false} FirstSeenHas<K>(ks: seq<K>, x: K)
    ensures x in FirstSeen(ks) <==> x in ks
  {
    if ks != [] {
      var init := ks[..|ks| - 1];
      assert ks == init + [ks[|ks| - 1]];
      FirstSeenHas(init, x);
    }
  }

  /** Scanning one more element lists its key if it is new. */
  lemma FirstSeenSnoc<K>(ks: seq<K>, x: K)
    ensures FirstSeen(ks + [x]) == if x in FirstSeen(ks) then FirstSeen(ks) else FirstSeen(ks) + [x]
  {
    assert (ks + [x])[..|ks|] == ks;
  }

  /** Every listed key occurs. */
  lemma {:induction false} FirstSeenElements<K>(ks: seq<K>)
    ensures forall m :: 0 <= m < |FirstSeen(ks)| ==> FirstSeen(ks)[m] in ks
  {
    forall m | 0 <= m < |FirstSeen(ks)| ensures FirstSeen(ks)[m] in ks {
      FirstSeenHas(ks, FirstSeen(ks)[m]);
    }
  }

  predicate Distinct<K(==)>(r: seq<K>)
  {
    forall i, j :: 0 <= i < j < |r| ==> r[i] != r[j]
  }

  /** No key is listed twice. */
  lemma {:induction false} FirstSeenDistinct<K>(ks: seq<K>)
    ensures Distinct(FirstSeen(ks))
  {
    if ks != [] {
      FirstSeenDistinct(ks[..|ks| - 1]);
    }
  }

  /** Index of the first occurrence of `k` in `ks`. */
  function FirstIndex<K(==)>(ks: seq<K>, k: K): (i: nat)
    requires k in ks
    ensures i < |ks| && ks[i] == k && k !in ks[..i]
  {
    if ks[0] == k then 0
    else
      var j := FirstIndex(ks[1..], k);
      assert ks[..j + 1] == [ks[0]] + ks[1..][..j];
      j + 1
  }

  /** A position holding `k` with no `k` before it is the first index of `k`. */
  lemma {:induction false} FirstIndexUnique<K>(ks: seq<K>, k: K, i: nat)
    requires i < |ks| && ks[i] == k && k !in ks[..i]
    ensures FirstIndex(ks, k) == i
  {
    if i > 0 {
      assert ks[0] == ks[..i][0];
      assert ks[1..][..i - 1] == ks[1..i];
      assert forall x :: x in ks[1..i] ==> x in ks[..i];
      FirstIndexUnique(ks[1..], k, i - 1);
    }
  }

  /** The first occurrence of a key is not moved by appending to the sequence. */
  lemma FirstIndexAppend<K>(ks: seq<K>, x: K, k: K)
    requires k in ks
    ensures FirstIndex(ks + [x], k) == FirstIndex(ks, k)
  {
    var s, i := ks + [x], FirstIndex(ks, k);
    assert s[..i] == ks[..i];
    FirstIndexUnique(s, k, i);
  }

  predicate InFirstOrder<K(==)>(ks: seq<K>, r: seq<K>)
    requires forall m :: 0 <= m < |r| ==> r[m] in ks
  {
    forall i, j :: 0 <= i < j < |r| ==> FirstIndex(ks, r[i]) < FirstIndex(ks, r[j])
  }

  lemma OrderAfterAppend<K>(init: seq<K>, k: K, r0: seq<K>)
    requires forall m :: 0 <= m < |r0| ==> r0[m] in init
    requires InFirstOrder(init, r0)
    ensures forall m :: 0 <= m < |r0| ==> r0[m] in init + [k]
    ensures forall m :: 0 <= m < |r0| ==> FirstIndex(init + [k], r0[m]) == FirstIndex(init, r0[m]) < |init|
    ensures InFirstOrder(init + [k], r0)
  {
    forall m | 0 <= m < |r0| ensures FirstIndex(init + [k], r0[m]) == FirstIndex(init, r0[m]) {
      FirstIndexAppend(init, k, r0[m]);
    }
  }

  lemma OrderAfterNewKey<K>(init: seq<K>, k: K, r0: seq<K>)
    requires k !in init
    requires forall m :: 0 <= m < |r0| ==> r0[m] in init
    requires InFirstOrder(init, r0)
    ensures forall m :: 0 <= m < |r0 + [k]| ==> (r0 + [k])[m] in init + [k]
    ensures InFirstOrder(init + [k], r0 + [k])
  {
    var ks, r := init + [k], r0 + [k];
    OrderAfterAppend(init, k, r0);
    assert ks[..|init|] == init;
    FirstIndexUnique(ks, k, |init|);
    forall i, j | 0 <= i < j < |r| ensures FirstIndex(ks, r[i]) < FirstIndex(ks, r[j]) {
      assert r[i] == r0[i];
      if j < |r0| {
        assert r[j] == r0[j];
      }
    }
  }

  /** Keys are listed in the order of their first occurrence. */
  lemma {:induction false} FirstSeenOrder<K>(ks: seq<K>)
    ensures forall m :: 0 <= m < |FirstSeen(ks)| ==> FirstSeen(ks)[m] in ks
    ensures InFirstOrder(ks, FirstSeen(ks))
  {
    FirstSeenElements(ks);
    if ks != [] {
      var init, k := ks[..|ks| - 1], ks[|ks| - 1];
      assert ks == init + [k];
      FirstSeenOrder(init);
      var r0 := FirstSeen(init);
      FirstSeenHas(init, k);
      if k in r0 {
        OrderAfterAppend(init, k, r0);
      } else {
        OrderAfterNewKey(init, k, r0);
      }
    }
  }

  /** The sum of the weights `ws[i]` of the positions `i` where `ks` holds `k`. */
  function Weight<K(==)>(ks: seq<K>, ws: seq<nat>, k: K): nat
    requires |ws| == |ks|
  {
    if ks == [] then 0
    else Weight(ks[..|ks| - 1], ws[..|ws| - 1], k) + (if ks[|ks| - 1] == k then ws[|ws| - 1] else 0)
  }

  function Sum(ws: seq<nat>): nat
  {
    if ws == [] then 0 else Sum(ws[..|ws| - 1]) + ws[|ws| - 1]
  }

  /** The total weight of the keys in `keys`. */
  function WeightOver<K(==)>(keys: seq<K>, ks: seq<K>, ws: seq<nat>): nat
    requires |ws| == |ks|
  {
    if keys == [] then 0
    else WeightOver(keys[..|keys| - 1], ks, ws) + Weight(ks, ws, keys[|keys| - 1])
  }

  /** A key that does not occur has no weight. */
  lemma {:induction false} WeightAbsent<K>(ks: seq<K>, ws: seq<nat>, k: K)
    requires |ws| == |ks| && k !in ks
    ensures Weight(ks, ws, k) == 0
  {
    if ks != [] {
      assert ks[..|ks| - 1] <= ks;
      WeightAbsent(ks[..|ks| - 1], ws[..|ws| - 1], k);
    }
  }

  /** Appending one weighted key adds its weight to the total of a list that names it once. */
  lemma {:induction false} WeightOverAppend<K>(keys: seq<K>, ks: seq<K>, ws: seq<nat>, k: K, w: nat)
    requires |ws| == |ks| && Distinct(keys)
    ensures WeightOver(keys, ks + [k], ws + [w]) == WeightOver(keys, ks, ws) + (if k in keys then w else 0)
  {
    if keys != [] {
      var init := keys[..|keys| - 1];
      assert keys == init + [keys[|keys| - 1]];
      WeightOverAppend(init, ks, ws, k, w);
      assert (ks + [k])[..|ks|] == ks && (ws + [w])[..|ws|] == ws;
    }
  }

  lemma {:induction false} WeightOverSnoc<K>(keys: seq<K>, k: K, ks: seq<K>, ws: seq<nat>)
    requires |ws| == |ks|
    ensures WeightOver(keys + [k], ks, ws) == WeightOver(keys, ks, ws) + Weight(ks, ws, k)
  {
    assert (keys + [k])[..|keys|] == keys;
  }

  /**
   * Grouping by key loses and duplicates nothing: the weights of all the
   * keys, each counted once, add up to the total weight.
   */
  lemma {:induction false} WeightPartition<K>(ks: seq<K>, ws: seq<nat>)
    requires |ws| == |ks|
    ensures WeightOver(FirstSeen(ks), ks, ws) == Sum(ws)
  {
    if ks != [] {
      var init, k := ks[..|ks| - 1], ks[|ks| - 1];
      var winit, w := ws[..|ws| - 1], ws[|ws| - 1];
      assert ks == init + [k] && ws == winit + [w];
      WeightPartition(init, winit);
      var r0 := FirstSeen(init);
      FirstSeenDistinct(init);
      WeightOverAppend(r0, init, winit, k, w);
      FirstSeenHas(init, k);
      if k !in r0 {
        WeightOverSnoc(r0, k, ks, ws);
        WeightAbsent(init, winit, k);
      }
    }
  }
}
