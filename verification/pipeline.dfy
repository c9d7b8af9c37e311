/**
 * The whole pipeline of main.py: the pickup list is parsed and grouped
 * (main.py:11-54), the groups are merged per vehicle (main.py:97-124) and the
 * merged manifests are displayed (main.py:134-146). The lemmas here follow a
 * passenger from an input line to a displayed manifest.
 */
module Pipeline {
  import opened Wrappers
  import opened Text
  import opened Clock
  import opened EntryParser
  import opened Ordered
  import opened Grouping
  import opened GroupRecords
  import opened Vehicle
  import opened Merge
  import opened ManifestFormat

  /**
   * A customer the display handles as meant: besides what parsing
   * guarantees, a non-empty name without `;` (the separator the display
   * counts) and a location without `:` (the separator the display splits at).
   */
  predicate Displayable(c: Customer)
  {
    WellFormed(c) && c.person != [] && ';' !in c.person && ':' !in c.location
  }

  /** Every name in a group is the name of a customer with the group's key. */
  lemma MemberDisplayable(cs: seq<Customer>, k: PickupKey, n: nat)
    requires forall i :: 0 <= i < |cs| ==> Displayable(cs[i])
    requires n < |Members(cs, k)|
    ensures var x := Members(cs, k)[n]; x != [] && Trimmed(x) && '\n' !in x && ';' !in x
  {
    MembersExact(cs, k, Members(cs, k)[n]);
  }

  /** The row of a group of displayable customers is tidy. */
  lemma RecordTidy(cs: seq<Customer>, j: nat)
    requires forall i :: 0 <= i < |cs| ==> Displayable(cs[i])
    requires j < |Records(cs)|
    ensures Tidy(Records(cs)[j])
  {
    var keys := FirstSeen(Keys(cs));
    var key := keys[j];
    var names := Members(cs, key);
    FirstSeenHas(Keys(cs), key);
    var i :| 0 <= i < |Keys(cs)| && Keys(cs)[i] == key;
    assert Displayable(cs[i]);
    ListedIffMembers(cs, key);
    forall n | 0 <= n < |names| ensures names[n] != [] && Trimmed(names[n]) && '\n' !in names[n] && ';' !in names[n] {
      MemberDisplayable(cs, key, n);
    }
    JoinAbsent(names, "; ", '\n');
    JoinTrimmed(names, "; ");
    assert Count("; ", ';') == 1;
    JoinCount(names, "; ", ';');
  }

  /** Every row of displayable customers is tidy. */
  lemma RecordsTidy(cs: seq<Customer>)
    requires forall i :: 0 <= i < |cs| ==> Displayable(cs[i])
    ensures forall j :: 0 <= j < |Records(cs)| ==> Tidy(Records(cs)[j])
  {
    forall j | 0 <= j < |Records(cs)| ensures Tidy(Records(cs)[j]) {
      RecordTidy(cs, j);
    }
  }

  /**
   * What a vehicle's displayed manifest shows, for tidy groups: one line per
   * group it serves with that group's count, each group's stop once (in
   * order of time when all have one, stops at the same time in the order of
   * their groups), and the sum of their counts.
   */
  lemma MergedDisplay(gs: seq<Group>, vs: seq<VehicleKey>, v: VehicleKey)
    requires |vs| == |gs| && forall i :: 0 <= i < |gs| ==> Tidy(gs[i])
    requires v in MergeMap(gs, vs)
    ensures var m, s := MergeMap(gs, vs)[v], Served(gs, vs, v);
      && |s| >= 1
      && FormattedPersons(m.persons) == Ok(Join(AnnotatedLines(s), "\n"))
      && multiset(SplitStr(FormatItinerary(m.itinerary), ", ")) == multiset(Stops(s))
      && ((forall k :: 0 <= k < |s| ==> s[k].1.time.Some?) ==> Chronological(SplitStr(FormatItinerary(m.itinerary), ", "), StopTime))
      && (forall t :: WithKey(SplitStr(FormatItinerary(m.itinerary), ", "), StopTime, t) == WithKey(Stops(s), StopTime, t))
      && m.count == TotalCount(s)
  {
    MergeMapValue(gs, vs, v);
    var s := Served(gs, vs, v);
    assert forall k :: 0 <= k < |s| ==> Tidy(s[k]) by {
      ServedFrom(gs, vs, v);
      forall k | 0 <= k < |s| ensures Tidy(s[k]) {
        var i :| 0 <= i < |gs| && gs[i] == s[k];
      }
    }
    FormatMergedPersons(s);
    FormatMergedItinerary(s);
    BuildCount(s);
  }

  /**
   * When every group is given a vehicle, every customer is seated exactly
   * once: the merged manifests count as many people as there were customers.
   */
  lemma EveryoneSeated(cs: seq<Customer>, texts: seq<string>)
    requires |texts| == |Records(cs)|
    requires forall i :: 0 <= i < |texts| ==> Assigned(ReadVehicle(texts[i]))
    ensures var vs := Vehicles(texts); var listed, m := FirstSeen(AssignedVehicles(vs)), MergeMap(Records(cs), vs);
      (forall k :: 0 <= k < |listed| ==> listed[k] in m) && MergedCount(listed, m) == |cs|
  {
    var vs := Vehicles(texts);
    MergedTotal(Records(cs), vs);
    AllAssigned(Records(cs), vs);
    CountsAddUp(cs);
  }
}
