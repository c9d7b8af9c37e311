/**
 * `create_dataframes` (main.py:33-44), the time canonicalisation that follows
 * it (main.py:50-52) and `process_pickup_info` as a whole (main.py:11-54).
 * Each group becomes a one-row table; the tables are kept in a dict keyed like
 * the groups, modelled as the list of (key, record) pairs in key order.
 */
module GroupRecords {
  import opened Wrappers
  import opened Text
  import opened Location
  import opened Clock
  import opened EntryParser
  import opened Ordered
  import opened Grouping

  /**
   * One group's row: the names joined with `"; "`, the pickup time read in the
   * format `%I:%M%p` (`None` for `NaT`), the capitalised location and the
   * number of names.
   */
  datatype GroupRecord = GroupRecord(persons: string, time: Option<Time>, location: string, count: nat)

  /** A group's row, with its time already canonicalised. */
  function MakeRecord(key: PickupKey, persons: seq<string>): (r: GroupRecord)
    ensures r.count == |persons|
    ensures LowerStr(r.location) == LowerStr(key.location)
  {
    GroupRecord(Join(persons, "; "), ParseTime(key.time), Capitalize(key.location), |persons|)
  }

  /** The time cell as it is shown after canonicalisation: `hh:mm` and `am`/`pm`, or `nan`. */
  function TimeCell(r: GroupRecord): string
  {
    TimeText(r.time)
  }

  /** The rows of the groups of `keys`, in the order of `keys`. */
  function RecordsOf(keys: seq<PickupKey>, cs: seq<Customer>): (rs: seq<(PickupKey, GroupRecord)>)
    ensures |rs| == |keys|
    ensures forall j :: 0 <= j < |keys| ==> rs[j] == (keys[j], MakeRecord(keys[j], Members(cs, keys[j])))
  {
    if keys == [] then []
    else
      var k := keys[|keys| - 1];
      RecordsOf(keys[..|keys| - 1], cs) + [(k, MakeRecord(k, Members(cs, k)))]
  }

  /** The rows `process_pickup_info` returns for the parsed customers `cs`. */
  function Records(cs: seq<Customer>): seq<(PickupKey, GroupRecord)>
  {
    RecordsOf(FirstSeen(Keys(cs)), cs)
  }

  /** The total of the `Number of People` cells. */
  function TotalCount(rs: seq<(PickupKey, GroupRecord)>): nat
  {
    if rs == [] then 0 else TotalCount(rs[..|rs| - 1]) + rs[|rs| - 1].1.count
  }

  /**
   * `create_dataframes` followed by the canonicalisation loop: one row per
   * group, in the order of the groups.
   */
  method CreateRecords(customers: seq<Customer>, keys: seq<PickupKey>, groups: map<PickupKey, seq<string>>)
    returns (rs: seq<(PickupKey, GroupRecord)>)
    requires forall k :: k in groups <==> k in keys
    requires forall k :: k in groups ==> groups[k] == Members(customers, k)
    ensures rs == RecordsOf(keys, customers)
  {
    rs := [];
    for j := 0 to |keys|
      invariant rs == RecordsOf(keys[..j], customers)
    {
      var key := keys[j];
      assert keys[..j + 1][..j] == keys[..j];
      rs := rs + [(key, MakeRecord(key, groups[key]))];
    }
    assert keys[..|keys|] == keys;
  }

  /**
   * `process_pickup_info`: the rows of the groups of the parsed lines, or the
   * error of the first line without a name.
   */
  method ProcessPickupInfo(input: string, defaultTime: string) returns (r: Result<seq<(PickupKey, GroupRecord)>, ParseError>)
    ensures var parsed := Collect(ParseEach(Lines(input), defaultTime));
      r == if parsed.Ok? then Ok(Records(parsed.value)) else Err(parsed.error)
  {
    var customers := ParseInput(input, defaultTime);
    if customers.Err? {
      return Err(customers.error);
    }
    var keys, groups := GroupByPickup(customers.value);
    var rs := CreateRecords(customers.value, keys, groups);
    return Ok(rs);
  }

  lemma {:induction false} TotalCountOf(keys: seq<PickupKey>, cs: seq<Customer>)
    ensures TotalCount(RecordsOf(keys, cs)) == TotalSize(keys, cs)
  {
    if keys != [] {
      var init := keys[..|keys| - 1];
      TotalCountOf(init, cs);
      var rs := RecordsOf(keys, cs);
      assert rs[..|rs| - 1] == RecordsOf(init, cs);
    }
  }

  /** Every parsed customer is counted once: the `Number of People` cells add up to the number of customers. */
  lemma CountsAddUp(cs: seq<Customer>)
    ensures TotalCount(Records(cs)) == |cs|
  {
    TotalCountOf(FirstSeen(Keys(cs)), cs);
    GroupSizesAddUp(cs);
  }

  /** Of a successful run of `process_pickup_info`: the counts add up to the number of input lines. */
  lemma EveryLineCounted(input: string, defaultTime: string)
    ensures var parsed := Collect(ParseEach(Lines(input), defaultTime));
      parsed.Ok? ==> TotalCount(Records(parsed.value)) == |Lines(input)|
  {
    var parsed := Collect(ParseEach(Lines(input), defaultTime));
    if parsed.Ok? {
      ParsedCustomersShape(input, defaultTime);
      CountsAddUp(parsed.value);
    }
  }

  /**
   * A row keeps everything about its group: splitting the names on `"; "`
   * gives the names back when none contains `"; "`, the count is their
   * number, lowercasing the shown location gives the key's location back,
   * and the shown time reads back as the row's time.
   */
  lemma RecordRoundTrip(key: PickupKey, persons: seq<string>)
    requires |persons| >= 1
    requires forall i :: 0 <= i < |persons| ==> NoOccurrence(persons[i], "; ")
    requires NoSpace(key.location) && NoUpper(key.location)
    ensures var r := MakeRecord(key, persons);
      && SplitStr(r.persons, "; ") == persons
      && r.count == |SplitStr(r.persons, "; ")|
      && LowerStr(r.location) == key.location
      && ParseTime(TimeCell(r)) == r.time
  {
    forall i | 0 <= i < |persons| ensures Separable(persons[i], "; ") {
      SeparableByPair(persons[i], "; ");
    }
    SplitJoin(persons, "; ");
    CapitalizeNormalized(key.location);
    ParseTimeText(ParseTime(key.time));
  }

  /**
   * The time cell is `nan` exactly when the format did not accept the time,
   * and otherwise seven characters with the colon third and no capitals.
   */
  lemma TimeCellCanonical(key: PickupKey, persons: seq<string>)
    ensures var r := MakeRecord(key, persons);
      && (r.time.None? <==> TimeCell(r) == "nan")
      && (r.time.Some? ==> |TimeCell(r)| == 7 && TimeCell(r)[2] == ':' && NoUpper(TimeCell(r)))
  {
    var r := MakeRecord(key, persons);
    if r.time.Some? {
      assert TimeCell(r)[2] != "nan"[2];
    } else {
      assert ParseTime("nan") == None;
    }
  }

  /** Every row is of a non-empty group whose names are those of the customers with its key. */
  lemma RecordsNonEmpty(cs: seq<Customer>)
    ensures forall j :: 0 <= j < |Records(cs)| ==> Records(cs)[j].1.count >= 1
  {
    var keys := FirstSeen(Keys(cs));
    forall j | 0 <= j < |keys| ensures |Members(cs, keys[j])| >= 1 {
      ListedIffMembers(cs, keys[j]);
    }
  }
}
