/**
 * The merge loop (main.py:97-124). For each pickup group, in the order the
 * groups were made, the operator's text names a vehicle (main.py:103-105).
 * Groups given both a plate and a mobile are merged per vehicle: the first
 * group a vehicle serves starts its manifest, and each later one appends its
 * persons line and its stop, adds its count and replaces the pickup time when
 * its own is earlier (main.py:113-124). The dict of merged manifests is
 * modelled as the list of vehicles in insertion order and a map.
 */
module Merge {
  import opened Wrappers
  import opened Text
  import opened Location
  import opened Clock
  import opened Ordered
  import opened Grouping
  import opened GroupRecords
  import opened Vehicle

  /** A pickup group as the merge sees it: its key and its row. */
  type Group = (PickupKey, GroupRecord)

  /**
   * A vehicle's merged row: one `Location: names` line per group served,
   * the pickup time, one `time at Location` stop per group and the number of
   * people.
   */
  datatype Manifest = Manifest(persons: string, time: Option<Time>, itinerary: string, count: nat)

  /** The location as displayed: `location.capitalize()` of the group's key. */
  function Label(g: Group): string
  {
    Capitalize(g.0.location)
  }

  function PersonsLine(g: Group): string
  {
    Label(g) + ": " + g.1.persons
  }

  function Stop(g: Group): string
  {
    TimeCell(g.1) + " at " + Label(g)
  }

  /** The first group of a vehicle becomes its manifest. */
  function Start(g: Group): (m: Manifest)
    ensures m.count == g.1.count && m.time == g.1.time
  {
    Manifest(PersonsLine(g), g.1.time, Stop(g), g.1.count)
  }

  /** A later group of the same vehicle is appended to its manifest. */
  function Extend(m: Manifest, g: Group): (r: Manifest)
    ensures r.count == m.count + g.1.count
    ensures r.time == m.time || r.time == g.1.time
    ensures !Earlier(m.time, r.time) && !Earlier(g.1.time, r.time)
    ensures r.time != m.time ==> Earlier(g.1.time, m.time)
  {
    Manifest(
      m.persons + "\n" + PersonsLine(g),
      if Earlier(g.1.time, m.time) then g.1.time else m.time,
      m.itinerary + ", " + Stop(g),
      m.count + g.1.count)
  }

  /** The manifest of a vehicle that serves the groups `gs`, in that order. */
  function Build(gs: seq<Group>): Manifest
    requires |gs| >= 1
  {
    if |gs| == 1 then Start(gs[0]) else Extend(Build(gs[..|gs| - 1]), gs[|gs| - 1])
  }

  /** The vehicle named by each operator text (the ensures only expose the comprehension). */
  function Vehicles(texts: seq<string>): (vs: seq<VehicleKey>)
    ensures |vs| == |texts|
    ensures forall i :: 0 <= i < |texts| ==> vs[i] == ReadVehicle(texts[i])
  {
    seq(|texts|, i requires 0 <= i < |texts| => ReadVehicle(texts[i]))
  }

  /** The groups assigned to `v`, in order. */
  function Served(gs: seq<Group>, vs: seq<VehicleKey>, v: VehicleKey): seq<Group>
    requires |vs| == |gs|
  {
    if gs == [] then []
    else Served(gs[..|gs| - 1], vs[..|vs| - 1], v) + (if vs[|vs| - 1] == v then [gs[|gs| - 1]] else [])
  }

  /** The vehicles with both a plate and a mobile, one per group that has one. */
  function AssignedVehicles(vs: seq<VehicleKey>): seq<VehicleKey>
  {
    if vs == [] then []
    else AssignedVehicles(vs[..|vs| - 1]) + (if Assigned(vs[|vs| - 1]) then [vs[|vs| - 1]] else [])
  }

  /** The groups that have a vehicle, in order. */
  function AssignedGroups(gs: seq<Group>, vs: seq<VehicleKey>): seq<Group>
    requires |vs| == |gs|
  {
    if gs == [] then []
    else AssignedGroups(gs[..|gs| - 1], vs[..|vs| - 1]) + (if Assigned(vs[|vs| - 1]) then [gs[|gs| - 1]] else [])
  }

  /** The dict `merged_dataframes` after scanning the groups `gs` with vehicles `vs`. */
  function MergeMap(gs: seq<Group>, vs: seq<VehicleKey>): (merged: map<VehicleKey, Manifest>)
    requires |vs| == |gs|
    ensures forall v {:trigger merged[v]} :: v in merged ==> Assigned(v)
  {
    if gs == [] then map[]
    else
      var m, v, g := MergeMap(gs[..|gs| - 1], vs[..|vs| - 1]), vs[|vs| - 1], gs[|gs| - 1];
      if !Assigned(v) then m
      else m[v := if v in m then Extend(m[v], g) else Start(g)]
  }

  lemma {:induction false} AssignedVehiclesHas(vs: seq<VehicleKey>, v: VehicleKey)
    ensures v in AssignedVehicles(vs) <==> Assigned(v) && v in vs
  {
    if vs != [] {
      var init := vs[..|vs| - 1];
      assert vs == init + [vs[|vs| - 1]];
      AssignedVehiclesHas(init, v);
    }
  }

  /** A vehicle serves some group exactly when some group names it. */
  lemma {:induction false} ServedNonEmpty(gs: seq<Group>, vs: seq<VehicleKey>, v: VehicleKey)
    requires |vs| == |gs|
    ensures Served(gs, vs, v) != [] <==> v in vs
  {
    if gs != [] {
      var init := vs[..|vs| - 1];
      assert vs == init + [vs[|vs| - 1]];
      ServedNonEmpty(gs[..|gs| - 1], init, v);
    }
  }

  /** A vehicle serves only groups from the list, and only groups that name it. */
  lemma {:induction false} ServedFrom(gs: seq<Group>, vs: seq<VehicleKey>, v: VehicleKey)
    requires |vs| == |gs|
    ensures forall k :: 0 <= k < |Served(gs, vs, v)| ==> Served(gs, vs, v)[k] in gs
    ensures forall k :: 0 <= k < |Served(gs, vs, v)| ==>
      exists i :: 0 <= i < |gs| && gs[i] == Served(gs, vs, v)[k] && vs[i] == v
  {
    if gs != [] {
      var n := |gs| - 1;
      var init := Served(gs[..n], vs[..n], v);
      ServedFrom(gs[..n], vs[..n], v);
      assert forall x :: x in gs[..n] ==> x in gs;
      forall k | 0 <= k < |Served(gs, vs, v)|
        ensures exists i :: 0 <= i < |gs| && gs[i] == Served(gs, vs, v)[k] && vs[i] == v
      {
        if k < |init| {
          var i :| 0 <= i < n && gs[..n][i] == init[k] && vs[..n][i] == v;
          assert gs[i] == Served(gs, vs, v)[k] && vs[i] == v;
        } else {
          assert gs[n] == Served(gs, vs, v)[k] && vs[n] == v;
        }
      }
    } else {
      assert Served(gs, vs, v) == [];
    }
  }

  /** The merged dict holds exactly the vehicles with both a plate and a mobile that some group names. */
  lemma {:induction false} MergeMapDomain(gs: seq<Group>, vs: seq<VehicleKey>, v: VehicleKey)
    requires |vs| == |gs|
    ensures v in MergeMap(gs, vs) <==> Assigned(v) && v in vs
  {
    if gs != [] {
      var n := |gs| - 1;
      MergeMapDomain(gs[..n], vs[..n], v);
      assert vs == vs[..n] + [vs[n]];
    }
  }

  /** Each merged manifest is built from the groups its vehicle serves, in order. */
  lemma {:induction false} MergeMapValue(gs: seq<Group>, vs: seq<VehicleKey>, v: VehicleKey)
    requires |vs| == |gs| && v in MergeMap(gs, vs)
    ensures |Served(gs, vs, v)| >= 1 && MergeMap(gs, vs)[v] == Build(Served(gs, vs, v))
  {
    var n := |gs| - 1;
    var gi, vi := gs[..n], vs[..n];
    var m := MergeMap(gi, vi);
    MergeMapDomain(gi, vi, v);
    ServedNonEmpty(gi, vi, v);
    var s, si := Served(gs, vs, v), Served(gi, vi, v);
    if v in m {
      MergeMapValue(gi, vi, v);
    }
    if v == vs[n] {
      assert s == si + [gs[n]];
      if v in m {
        assert s[..|s| - 1] == si;
      } else {
        assert si == [];
      }
    } else {
      assert s == si;
    }
  }

  /**
   * The merged dict holds exactly the vehicles with both a plate and a
   * mobile that some group names, and each one's manifest is built from the
   * groups it serves, in order.
   */
  lemma MergeMapServed(gs: seq<Group>, vs: seq<VehicleKey>)
    requires |vs| == |gs|
    ensures forall v :: v in MergeMap(gs, vs) <==> Assigned(v) && v in vs
    ensures forall v :: v in MergeMap(gs, vs) ==> |Served(gs, vs, v)| >= 1 && MergeMap(gs, vs)[v] == Build(Served(gs, vs, v))
  {
    forall v ensures v in MergeMap(gs, vs) <==> Assigned(v) && v in vs {
      MergeMapDomain(gs, vs, v);
    }
    forall v | v in MergeMap(gs, vs) ensures |Served(gs, vs, v)| >= 1 && MergeMap(gs, vs)[v] == Build(Served(gs, vs, v)) {
      MergeMapValue(gs, vs, v);
    }
  }

  /** One more group: its vehicle is listed if it has a plate and a mobile and is new. */
  lemma VehiclesStep(vs: seq<VehicleKey>, i: nat)
    requires i < |vs|
    ensures var listed, v := FirstSeen(AssignedVehicles(vs[..i])), vs[i];
      FirstSeen(AssignedVehicles(vs[..i + 1])) == if !Assigned(v) || v in listed then listed else listed + [v]
  {
    var prefix, longer := vs[..i], vs[..i + 1];
    assert longer[..|longer| - 1] == prefix && longer[|longer| - 1] == vs[i];
    if Assigned(vs[i]) {
      assert AssignedVehicles(longer) == AssignedVehicles(prefix) + [vs[i]];
      FirstSeenSnoc(AssignedVehicles(prefix), vs[i]);
    } else {
      assert AssignedVehicles(longer) == AssignedVehicles(prefix);
    }
  }

  /** One more group: it starts or extends the manifest of its vehicle when it has one. */
  lemma MergeStep(gs: seq<Group>, vs: seq<VehicleKey>, i: nat)
    requires |vs| == |gs| && i < |gs|
    ensures var m, v, g := MergeMap(gs[..i], vs[..i]), vs[i], gs[i];
      MergeMap(gs[..i + 1], vs[..i + 1]) == if !Assigned(v) then m else m[v := if v in m then Extend(m[v], g) else Start(g)]
  {
    var gl, vl := gs[..i + 1], vs[..i + 1];
    assert gl[..|gl| - 1] == gs[..i] && vl[..|vl| - 1] == vs[..i];
    assert gl[|gl| - 1] == gs[i] && vl[|vl| - 1] == vs[i];
  }

  /**
   * The merge loop: each group's text is read for a vehicle; a group with
   * both a plate and a mobile starts that vehicle's manifest or is appended
   * to it.
   */
  method MergeByVehicle(groups: seq<Group>, texts: seq<string>)
    returns (vehicles: seq<VehicleKey>, merged: map<VehicleKey, Manifest>)
    requires |texts| == |groups|
    ensures vehicles == FirstSeen(AssignedVehicles(Vehicles(texts)))
    ensures merged == MergeMap(groups, Vehicles(texts))
    ensures forall v :: v in merged <==> v in vehicles
  {
    ghost var vs := Vehicles(texts);
    vehicles, merged := [], map[];
    for i := 0 to |groups|
      invariant vehicles == FirstSeen(AssignedVehicles(vs[..i]))
      invariant merged == MergeMap(groups[..i], vs[..i])
      invariant forall v :: v in merged <==> v in vehicles
    {
      var v := ReadVehicle(texts[i]);
      VehiclesStep(vs, i);
      MergeStep(groups, vs, i);
      if v.plate != [] && v.mobile != [] {
        if v in merged {
          merged := merged[v := Extend(merged[v], groups[i])];
        } else {
          assert forall u :: u in vehicles + [v] <==> u in vehicles || u == v;
          vehicles := vehicles + [v];
          merged := merged[v := Start(groups[i])];
        }
      }
    }
    assert groups[..|groups|] == groups && vs[..|vs|] == vs;
  }

  /** A merged manifest counts the people of every group it serves. */
  lemma {:induction false} BuildCount(gs: seq<Group>)
    requires |gs| >= 1
    ensures Build(gs).count == TotalCount(gs)
  {
    if |gs| > 1 {
      BuildCount(gs[..|gs| - 1]);
    } else {
      assert gs[..0] == [];
    }
  }

  /** The `Number of People` cells of the merged manifests of `vehicles`, added up. */
  function MergedCount(vehicles: seq<VehicleKey>, m: map<VehicleKey, Manifest>): nat
    requires forall k :: 0 <= k < |vehicles| ==> vehicles[k] in m
  {
    if vehicles == [] then 0
    else MergedCount(vehicles[..|vehicles| - 1], m) + m[vehicles[|vehicles| - 1]].count
  }

  /** Changing the manifest of one listed vehicle changes the total by the difference. */
  lemma {:induction false} MergedCountUpdate(vehicles: seq<VehicleKey>, m: map<VehicleKey, Manifest>, v: VehicleKey, x: Manifest)
    requires forall k :: 0 <= k < |vehicles| ==> vehicles[k] in m
    requires Distinct(vehicles) && v in m
    ensures MergedCount(vehicles, m[v := x]) as int
      == MergedCount(vehicles, m) + (if v in vehicles then x.count - m[v].count else 0)
  {
    if vehicles != [] {
      var init := vehicles[..|vehicles| - 1];
      assert vehicles == init + [vehicles[|vehicles| - 1]];
      MergedCountUpdate(init, m, v, x);
    }
  }

  /** A vehicle not yet listed can be given a manifest without changing the total. */
  lemma {:induction false} MergedCountFresh(vehicles: seq<VehicleKey>, m: map<VehicleKey, Manifest>, v: VehicleKey, x: Manifest)
    requires forall k :: 0 <= k < |vehicles| ==> vehicles[k] in m
    requires v !in vehicles
    ensures MergedCount(vehicles, m[v := x]) == MergedCount(vehicles, m)
  {
    if vehicles != [] {
      var init := vehicles[..|vehicles| - 1];
      assert vehicles == init + [vehicles[|vehicles| - 1]];
      MergedCountFresh(init, m, v, x);
    }
  }

  lemma MergedCountSnoc(vehicles: seq<VehicleKey>, v: VehicleKey, m: map<VehicleKey, Manifest>)
    requires forall k :: 0 <= k < |vehicles| ==> vehicles[k] in m
    requires v in m
    ensures MergedCount(vehicles + [v], m) == MergedCount(vehicles, m) + m[v].count
  {
    assert (vehicles + [v])[..|vehicles|] == vehicles;
  }

  /** One assigned group joins the merge: the listed vehicles gain its people. */
  lemma MergedCountStep(listed: seq<VehicleKey>, m: map<VehicleKey, Manifest>, v: VehicleKey, g: Group)
    requires forall k :: 0 <= k < |listed| ==> listed[k] in m
    requires Distinct(listed) && (v in m <==> v in listed)
    ensures MergedCount(if v in listed then listed else listed + [v], m[v := if v in m then Extend(m[v], g) else Start(g)])
      == MergedCount(listed, m) + g.1.count
  {
    if v in m {
      MergedCountUpdate(listed, m, v, Extend(m[v], g));
    } else {
      MergedCountFresh(listed, m, v, Start(g));
      MergedCountSnoc(listed, v, m[v := Start(g)]);
    }
  }

  /** Every listed vehicle has a merged manifest. */
  lemma MergedListed(gs: seq<Group>, vs: seq<VehicleKey>)
    requires |vs| == |gs|
    ensures var listed, m := FirstSeen(AssignedVehicles(vs)), MergeMap(gs, vs);
      forall k :: 0 <= k < |listed| ==> listed[k] in m
  {
    var listed := FirstSeen(AssignedVehicles(vs));
    forall k | 0 <= k < |listed| ensures listed[k] in MergeMap(gs, vs) {
      FirstSeenHas(AssignedVehicles(vs), listed[k]);
      AssignedVehiclesHas(vs, listed[k]);
      MergeMapDomain(gs, vs, listed[k]);
    }
  }

  lemma TotalCountSnoc(rs: seq<Group>, g: Group)
    ensures TotalCount(rs + [g]) == TotalCount(rs) + g.1.count
  {
    assert (rs + [g])[..|rs|] == rs;
  }

  /**
   * Merging loses and duplicates no one: the people on the merged manifests
   * add up to the people of the groups that were given a vehicle.
   */
  lemma {:induction false} MergedTotal(gs: seq<Group>, vs: seq<VehicleKey>)
    requires |vs| == |gs|
    ensures var listed, m := FirstSeen(AssignedVehicles(vs)), MergeMap(gs, vs);
      (forall k :: 0 <= k < |listed| ==> listed[k] in m)
      && MergedCount(listed, m) == TotalCount(AssignedGroups(gs, vs))
  {
    MergedListed(gs, vs);
    if gs != [] {
      var n := |gs| - 1;
      var gi, vi, v, g := gs[..n], vs[..n], vs[n], gs[n];
      MergedTotal(gi, vi);
      VehiclesStep(vs, n);
      MergeStep(gs, vs, n);
      assert gs[..n + 1] == gs && vs[..n + 1] == vs;
      var li, mi := FirstSeen(AssignedVehicles(vi)), MergeMap(gi, vi);
      var ai := AssignedGroups(gi, vi);
      if Assigned(v) {
        assert AssignedGroups(gs, vs) == ai + [g];
        TotalCountSnoc(ai, g);
        assert Distinct(li) && (v in mi <==> v in li) by {
          FirstSeenDistinct(AssignedVehicles(vi));
          MergeMapDomain(gi, vi, v);
          FirstSeenHas(AssignedVehicles(vi), v);
          AssignedVehiclesHas(vi, v);
        }
        MergedCountStep(li, mi, v, g);
      } else {
        assert AssignedGroups(gs, vs) == ai;
      }
    }
  }

  /** `[f(x) for x in xs]`. */
  function Map<A, B>(xs: seq<A>, f: A -> B): (ys: seq<B>)
    ensures |ys| == |xs| && forall i :: 0 <= i < |xs| ==> ys[i] == f(xs[i])
  {
    seq(|xs|, i requires 0 <= i < |xs| => f(xs[i]))
  }

  lemma MapSnoc<A, B>(xs: seq<A>, x: A, f: A -> B)
    ensures Map(xs + [x], f) == Map(xs, f) + [f(x)]
  {
  }

  lemma MapInit<A, B>(xs: seq<A>, f: A -> B)
    requires |xs| >= 1
    ensures Map(xs, f) == Map(xs[..|xs| - 1], f) + [f(xs[|xs| - 1])]
  {
    assert xs == xs[..|xs| - 1] + [xs[|xs| - 1]];
    MapSnoc(xs[..|xs| - 1], xs[|xs| - 1], f);
  }

  /** The persons line of each group, in order. */
  function PersonsLines(gs: seq<Group>): seq<string>
  {
    Map(gs, PersonsLine)
  }

  /** The stop of each group, in order. */
  function Stops(gs: seq<Group>): seq<string>
  {
    Map(gs, Stop)
  }

  /** The pickup time of each group, in order. */
  function Times(gs: seq<Group>): seq<Option<Time>>
  {
    Map(gs, TimeOf)
  }

  function TimeOf(g: Group): Option<Time>
  {
    g.1.time
  }

  /** The merged persons are the groups' lines joined by newlines. */
  lemma {:induction false} BuildPersons(gs: seq<Group>)
    requires |gs| >= 1
    ensures Build(gs).persons == Join(PersonsLines(gs), "\n")
  {
    if |gs| > 1 {
      var init, g := gs[..|gs| - 1], gs[|gs| - 1];
      BuildPersons(init);
      assert Build(gs).persons == Build(init).persons + "\n" + PersonsLine(g) by {
        assert Build(gs) == Extend(Build(init), g);
      }
      assert PersonsLines(gs) == PersonsLines(init) + [PersonsLine(g)] by {
        MapInit(gs, PersonsLine);
      }
      assert Join(PersonsLines(gs), "\n") == Join(PersonsLines(init), "\n") + "\n" + PersonsLine(g) by {
        JoinSnoc(PersonsLines(init), PersonsLine(g), "\n");
      }
    }
  }

  /** The merged itinerary is the groups' stops joined by `", "`. */
  lemma {:induction false} BuildItinerary(gs: seq<Group>)
    requires |gs| >= 1
    ensures Build(gs).itinerary == Join(Stops(gs), ", ")
  {
    if |gs| > 1 {
      var init, g := gs[..|gs| - 1], gs[|gs| - 1];
      BuildItinerary(init);
      assert Build(gs).itinerary == Build(init).itinerary + ", " + Stop(g) by {
        assert Build(gs) == Extend(Build(init), g);
      }
      assert Stops(gs) == Stops(init) + [Stop(g)] by {
        MapInit(gs, Stop);
      }
      assert Join(Stops(gs), ", ") == Join(Stops(init), ", ") + ", " + Stop(g) by {
        JoinSnoc(Stops(init), Stop(g), ", ");
      }
    }
  }

  /** A group whose key is normalised and whose names hold no line break. */
  predicate Plain(g: Group)
  {
    NoSpace(g.0.location) && NoUpper(g.0.location) && '\n' !in g.1.persons
  }

  /** No `", "` in a stop: the time cell has no comma and the location no space. */
  lemma StopSeparable(g: Group)
    requires NoSpace(g.0.location) && NoUpper(g.0.location)
    ensures Separable(Stop(g), ", ")
  {
    var tc, l := TimeCell(g.1), Label(g);
    TimeTextPlain(g.1.time);
    CapitalizeNormalized(g.0.location);
    assert ',' !in tc + " at ";
    assert ' ' !in l by {
      assert forall k :: 0 <= k < |l| ==> l[k] != ' ';
    }
    assert Stop(g) == (tc + " at ") + l;
    NoPairAcross(tc + " at ", l, ", ");
    SeparableByPair(Stop(g), ", ");
  }

  lemma PersonsLineNewlineFree(g: Group)
    requires Plain(g)
    ensures '\n' !in PersonsLine(g)
  {
    CapitalizeNormalized(g.0.location);
    assert IsSpace('\n');
  }

  /**
   * A merged manifest can be taken apart again: splitting the persons on
   * newlines gives one line per group served, and splitting the itinerary
   * on `", "` gives one stop per group, in the order served.
   */
  lemma BuildSplits(gs: seq<Group>)
    requires |gs| >= 1
    requires forall i :: 0 <= i < |gs| ==> Plain(gs[i])
    ensures SplitChar(Build(gs).persons, '\n') == PersonsLines(gs)
    ensures SplitStr(Build(gs).itinerary, ", ") == Stops(gs)
  {
    BuildPersons(gs);
    BuildItinerary(gs);
    forall k | 0 <= k < |gs| ensures '\n' !in PersonsLines(gs)[k] && Separable(Stops(gs)[k], ", ") {
      PersonsLineNewlineFree(gs[k]);
      StopSeparable(gs[k]);
    }
    SplitJoinChar(PersonsLines(gs), '\n');
    SplitJoin(Stops(gs), ", ");
  }

  lemma EarlierTransitive(a: Option<Time>, b: Option<Time>, c: Option<Time>)
    requires Earlier(a, b) && Earlier(b, c)
    ensures Earlier(a, c)
  {
  }

  /**
   * The merged pickup time is the time of one of the groups. When the first
   * group's time is `NaT` it stays `NaT` (no comparison with `NaT` holds);
   * otherwise it is a time.
   */
  lemma {:induction false} BuildTimeOccurs(gs: seq<Group>)
    requires |gs| >= 1
    ensures Build(gs).time in Times(gs)
    ensures gs[0].1.time.None? ==> Build(gs).time.None?
    ensures gs[0].1.time.Some? ==> Build(gs).time.Some?
  {
    if |gs| > 1 {
      var init, g := gs[..|gs| - 1], gs[|gs| - 1];
      BuildTimeOccurs(init);
      var t0 := Build(init).time;
      assert Build(gs).time == if Earlier(g.1.time, t0) then g.1.time else t0;
      if Earlier(g.1.time, t0) {
        assert Times(gs)[|gs| - 1] == g.1.time;
      } else {
        var j :| 0 <= j < |init| && Times(init)[j] == t0;
        assert Times(gs)[j] == t0;
      }
      assert init[0] == gs[0];
    }
  }

  /** No group of the vehicle is picked up earlier than the merged pickup time. */
  lemma {:induction false} BuildTimeEarliest(gs: seq<Group>)
    requires |gs| >= 1
    ensures forall j :: 0 <= j < |gs| ==> !Earlier(gs[j].1.time, Build(gs).time)
  {
    if |gs| > 1 {
      var init, g := gs[..|gs| - 1], gs[|gs| - 1];
      BuildTimeEarliest(init);
      var t0 := Build(init).time;
      assert Build(gs).time == if Earlier(g.1.time, t0) then g.1.time else t0;
      forall j | 0 <= j < |gs| ensures !Earlier(gs[j].1.time, Build(gs).time) {
        if j < |init| {
          assert gs[j] == init[j];
          if Earlier(g.1.time, t0) && Earlier(gs[j].1.time, g.1.time) {
            EarlierTransitive(gs[j].1.time, g.1.time, t0);
          }
        }
      }
    }
  }

  /** When every group has a vehicle, every group takes part in the merge. */
  lemma {:induction false} AllAssigned(gs: seq<Group>, vs: seq<VehicleKey>)
    requires |vs| == |gs| && forall i :: 0 <= i < |vs| ==> Assigned(vs[i])
    ensures AssignedGroups(gs, vs) == gs
  {
    if gs != [] {
      var n := |gs| - 1;
      AllAssigned(gs[..n], vs[..n]);
      assert gs == gs[..n] + [gs[n]];
    }
  }
}
