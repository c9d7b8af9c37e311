/**
 * `group_by_pickup` (main.py:24-31): the parsed customers are grouped by the
 * key (cleaned time, normalised location). The result is a Python dict, which
 * remembers the order in which keys were first inserted; it is modelled as the
 * list of keys in that order together with a map from each key to its persons.
 */
module Grouping {
  import opened EntryParser
  import opened Ordered

  /** The dictionary key of a group: the cleaned time text and the normalised location. */
  datatype PickupKey = PickupKey(time: string, location: string)

  function KeyOf(c: Customer): PickupKey
  {
    PickupKey(c.time, c.location)
  }

  /** The key of each customer, in input order. */
  function Keys(cs: seq<Customer>): (ks: seq<PickupKey>)
    ensures |ks| == |cs|
    ensures forall i :: 0 <= i < |cs| ==> ks[i] == KeyOf(cs[i])
  {
    seq(|cs|, i requires 0 <= i < |cs| => KeyOf(cs[i]))
  }

  /** The persons of the customers with key `k`, in input order. */
  function Members(cs: seq<Customer>, k: PickupKey): seq<string>
  {
    if cs == [] then []
    else Members(cs[..|cs| - 1], k) + (if KeyOf(cs[|cs| - 1]) == k then [cs[|cs| - 1].person] else [])
  }

  /** The dictionary built by scanning `cs`: each person appended to the list of its key. */
  function GroupMap(cs: seq<Customer>): map<PickupKey, seq<string>>
  {
    if cs == [] then map[]
    else
      var m, c := GroupMap(cs[..|cs| - 1]), cs[|cs| - 1];
      var k := KeyOf(c);
      m[k := if k in m then m[k] + [c.person] else [c.person]]
  }

  /** The dictionary holds exactly the listed keys, each with its members. */
  lemma {:induction false} GroupMapMembers(cs: seq<Customer>)
    ensures forall k :: k in GroupMap(cs) <==> k in FirstSeen(Keys(cs))
    ensures forall k :: k in GroupMap(cs) ==> GroupMap(cs)[k] == Members(cs, k)
  {
    if cs != [] {
      var n := |cs| - 1;
      GroupMapMembers(cs[..n]);
      assert Keys(cs) == Keys(cs[..n]) + [KeyOf(cs[n])];
      FirstSeenSnoc(Keys(cs[..n]), KeyOf(cs[n]));
      var r0, kc := FirstSeen(Keys(cs[..n])), KeyOf(cs[n]);
      assert forall k :: k in r0 + [kc] <==> k in r0 || k == kc;
      ListedIffMembers(cs[..n], kc);
    }
  }

  /** One more customer: its key is listed if it is new. */
  lemma KeysStep(cs: seq<Customer>, i: nat)
    requires i < |cs|
    ensures var keys, key := FirstSeen(Keys(cs[..i])), KeyOf(cs[i]);
      FirstSeen(Keys(cs[..i + 1])) == if key in keys then keys else keys + [key]
  {
    var prefix, longer := cs[..i], cs[..i + 1];
    assert Keys(longer) == Keys(prefix) + [KeyOf(cs[i])];
    FirstSeenSnoc(Keys(prefix), KeyOf(cs[i]));
  }

  /** One more customer: its person is appended to the list of its key. */
  lemma GroupsStep(cs: seq<Customer>, i: nat)
    requires i < |cs|
    ensures var m, key, p := GroupMap(cs[..i]), KeyOf(cs[i]), cs[i].person;
      GroupMap(cs[..i + 1]) == m[key := if key in m then m[key] + [p] else [p]]
  {
    var prefix, longer := cs[..i], cs[..i + 1];
    assert longer[..|longer| - 1] == prefix && longer[|longer| - 1] == cs[i];
  }

  /**
   * `group_by_pickup`: one group per distinct key, in the order the keys are
   * first met, holding the persons with that key in input order.
   */
  method GroupByPickup(customers: seq<Customer>) returns (keys: seq<PickupKey>, groups: map<PickupKey, seq<string>>)
    ensures keys == FirstSeen(Keys(customers))
    ensures forall k :: k in groups <==> k in keys
    ensures forall k :: k in groups ==> groups[k] == Members(customers, k)
  {
    keys, groups := [], map[];
    var i := 0;
    while i < |customers|
      invariant 0 <= i <= |customers|
      invariant keys == FirstSeen(Keys(customers[..i]))
      invariant groups == GroupMap(customers[..i])
      invariant forall k :: k in groups <==> k in keys
    {
      var cust := customers[i];
      var key := PickupKey(cust.time, cust.location);
      KeysStep(customers, i);
      GroupsStep(customers, i);
      if key !in groups {
        assert forall k :: k in keys + [key] <==> k in keys || k == key;
        keys := keys + [key];
        groups := groups[key := [cust.person]];
      } else {
        groups := groups[key := groups[key] + [cust.person]];
      }
      i := i + 1;
    }
    assert customers[..i] == customers;
    GroupMapMembers(customers);
  }

  /** The number of persons in the groups of `keys`. */
  function TotalSize(keys: seq<PickupKey>, cs: seq<Customer>): nat
  {
    if keys == [] then 0 else TotalSize(keys[..|keys| - 1], cs) + |Members(cs, keys[|keys| - 1])|
  }

  function Ones(n: nat): (ws: seq<nat>)
    ensures |ws| == n
  {
    seq(n, i => 1)
  }

  lemma {:induction false} SumOnes(n: nat)
    ensures Sum(Ones(n)) == n
  {
    if n > 0 {
      assert Ones(n)[..n - 1] == Ones(n - 1);
      SumOnes(n - 1);
    }
  }

  /** A group's size is the number of customers with its key. */
  lemma {:induction false} MembersSize(cs: seq<Customer>, k: PickupKey)
    ensures |Members(cs, k)| == Weight(Keys(cs), Ones(|cs|), k)
  {
    if cs != [] {
      var n := |cs| - 1;
      assert Keys(cs)[..n] == Keys(cs[..n]);
      assert Ones(|cs|)[..n] == Ones(n);
      MembersSize(cs[..n], k);
    }
  }

  lemma {:induction false} TotalSizeIsWeight(keys: seq<PickupKey>, cs: seq<Customer>)
    ensures TotalSize(keys, cs) == WeightOver(keys, Keys(cs), Ones(|cs|))
  {
    if keys != [] {
      TotalSizeIsWeight(keys[..|keys| - 1], cs);
      MembersSize(cs, keys[|keys| - 1]);
    }
  }

  /** Every customer is in one group and in no other: the group sizes add up to the number of customers. */
  lemma GroupSizesAddUp(cs: seq<Customer>)
    ensures TotalSize(FirstSeen(Keys(cs)), cs) == |cs|
  {
    TotalSizeIsWeight(FirstSeen(Keys(cs)), cs);
    WeightPartition(Keys(cs), Ones(|cs|));
    SumOnes(|cs|);
  }

  /** A group holds exactly the persons of the customers with its key. */
  lemma {:induction false} MembersExact(cs: seq<Customer>, k: PickupKey, x: string)
    ensures x in Members(cs, k) <==> exists i :: 0 <= i < |cs| && KeyOf(cs[i]) == k && cs[i].person == x
  {
    if cs != [] {
      var n := |cs| - 1;
      MembersExact(cs[..n], k, x);
      if x in Members(cs, k) && x !in Members(cs[..n], k) {
        assert KeyOf(cs[n]) == k && cs[n].person == x;
      }
      if exists i :: 0 <= i < |cs| && KeyOf(cs[i]) == k && cs[i].person == x {
        var i :| 0 <= i < |cs| && KeyOf(cs[i]) == k && cs[i].person == x;
        if i < n {
          assert cs[..n][i] == cs[i];
        }
      }
    }
  }

  /** A key is listed exactly when its group is not empty. */
  lemma ListedIffMembers(cs: seq<Customer>, k: PickupKey)
    ensures k in FirstSeen(Keys(cs)) <==> Members(cs, k) != []
  {
    var ks := Keys(cs);
    FirstSeenHas(ks, k);
    if k in ks {
      var i :| 0 <= i < |ks| && ks[i] == k;
      MembersExact(cs, k, cs[i].person);
    }
    if Members(cs, k) != [] {
      MembersExact(cs, k, Members(cs, k)[0]);
      var i :| 0 <= i < |cs| && KeyOf(cs[i]) == k && cs[i].person == Members(cs, k)[0];
      assert ks[i] == k;
    }
  }
}
