/**
 * The display of a merged manifest (main.py:134-146). Each `Location: names`
 * line of the persons cell is annotated with the number of names in it, and
 * the stops of the itinerary are sorted by their time.
 */
module ManifestFormat {
  import opened Wrappers
  import opened Text
  import opened Location
  import opened Clock
  import opened GroupRecords
  import opened Merge

  /** The value of a string of decimal digits. */
  function DecimalValue(s: string): nat
    requires forall i :: 0 <= i < |s| ==> IsDigit(s[i])
  {
    if s == [] then 0 else 10 * DecimalValue(s[..|s| - 1]) + DigitValue(s[|s| - 1])
  }

  /** `str(n)`: the decimal digits of `n`, with no leading zero. */
  function NatToString(n: nat): (s: string)
    ensures |s| >= 1 && forall i :: 0 <= i < |s| ==> IsDigit(s[i])
    ensures DecimalValue(s) == n
    ensures s[0] == '0' ==> n == 0
    decreases n
  {
    if n < 10 then [DigitChar(n)]
    else
      var s := NatToString(n / 10) + [DigitChar(n % 10)];
      assert s[..|s| - 1] == NatToString(n / 10);
      s
  }

  /** `location, names = person.split(':', 1)` raises `ValueError` on a line without a colon. */
  datatype FormatError = MissingColon(line: nat)

  /** The location, the stripped names and the number of `;`-separated names. */
  function Annotate(loc: string, names: string): string
  {
    loc + ": " + Strip(names) + " (" + NatToString(|SplitChar(names, ';')|) + " people)"
  }

  /** One annotated line: split at the first colon, or nothing when there is none. */
  function FormatLine(line: string): (r: Option<string>)
    ensures r.Some? <==> ':' in line
  {
    match IndexOf(line, ':')
    case None => None
    case Some(i) => Some(Annotate(line[..i], line[i + 1..]))
  }

  /** The annotation of each line, in order (the ensures only expose the comprehension). */
  function FormatEach(lines: seq<string>): (outcomes: seq<Option<string>>)
    ensures |outcomes| == |lines|
    ensures forall k :: 0 <= k < |lines| ==> outcomes[k] == FormatLine(lines[k])
  {
    seq(|lines|, k requires 0 <= k < |lines| => FormatLine(lines[k]))
  }

  /** The annotated lines, or the index of the first line that has no annotation. */
  function Gather(outcomes: seq<Option<string>>): Result<seq<string>, FormatError>
  {
    if outcomes == [] then Ok([])
    else
      var init := Gather(outcomes[..|outcomes| - 1]);
      if init.Err? then init
      else match outcomes[|outcomes| - 1]
        case None => Err(MissingColon(|outcomes| - 1))
        case Some(l) => Ok(init.value + [l])
  }

  /** The displayed persons cell: the annotated lines joined by newlines. */
  function FormattedPersons(persons: string): Result<string, FormatError>
  {
    var f := Gather(FormatEach(SplitChar(persons, '\n')));
    if f.Ok? then Ok(Join(f.value, "\n")) else Err(f.error)
  }

  /**
   * The formatting loop over the persons cell: each line is split at its
   * first colon and annotated, stopping with an error at a line without one.
   */
  method FormatPersons(persons: string) returns (r: Result<string, FormatError>)
    ensures r == FormattedPersons(persons)
  {
    var lines := SplitChar(persons, '\n');
    ghost var outcomes := FormatEach(lines);
    var formatted: seq<string> := [];
    for i := 0 to |lines|
      invariant Gather(outcomes[..i]) == Ok(formatted)
    {
      var colon := IndexOf(lines[i], ':');
      if colon.None? {
        GatherStops(outcomes, i);
        return Err(MissingColon(i));
      }
      var names := lines[i][colon.value + 1..];
      var count := |SplitChar(names, ';')|;
      var shown := lines[i][..colon.value] + ": " + Strip(names) + " (" + NatToString(count) + " people)";
      assert Gather(outcomes[..i + 1]) == Ok(formatted + [shown]) by {
        assert outcomes[..i + 1][..i] == outcomes[..i];
        assert outcomes[i] == Some(shown);
      }
      formatted := formatted + [shown];
    }
    assert outcomes[..|lines|] == outcomes;
    return Ok(Join(formatted, "\n"));
  }

  /** A line without an annotation ends the formatting with its index, whatever follows. */
  lemma {:induction false} GatherStops(outcomes: seq<Option<string>>, i: nat)
    requires i < |outcomes| && Gather(outcomes[..i]).Ok? && outcomes[i].None?
    ensures Gather(outcomes) == Err(MissingColon(i))
    decreases |outcomes|
  {
    if |outcomes| == i + 1 {
      assert outcomes[..i + 1] == outcomes;
    } else {
      var init := outcomes[..|outcomes| - 1];
      assert init[..i] == outcomes[..i] && init[i] == outcomes[i];
      GatherStops(init, i);
    }
  }

  /**
   * Gathering succeeds exactly when every line has an annotation, and then
   * gives them in order; otherwise it reports the first line without one.
   */
  lemma {:induction false} GatherSpec(outcomes: seq<Option<string>>)
    ensures var r := Gather(outcomes);
      && (r.Ok? <==> forall k :: 0 <= k < |outcomes| ==> outcomes[k].Some?)
      && (r.Ok? ==> |r.value| == |outcomes| && forall k :: 0 <= k < |outcomes| ==> outcomes[k] == Some(r.value[k]))
      && (r.Err? ==> r.error.line < |outcomes| && outcomes[r.error.line].None?)
      && (r.Err? ==> forall k :: 0 <= k < r.error.line ==> outcomes[k].Some?)
  {
    if outcomes != [] {
      var init := outcomes[..|outcomes| - 1];
      GatherSpec(init);
      assert forall k :: 0 <= k < |init| ==> init[k] == outcomes[k];
    }
  }

  /** When every line has an annotation, gathering gives exactly those annotations. */
  lemma {:induction false} GatherAll(outcomes: seq<Option<string>>, xs: seq<string>)
    requires |xs| == |outcomes| && forall k :: 0 <= k < |outcomes| ==> outcomes[k] == Some(xs[k])
    ensures Gather(outcomes) == Ok(xs)
  {
    if outcomes != [] {
      var n := |outcomes| - 1;
      GatherAll(outcomes[..n], xs[..n]);
      assert xs == xs[..n] + [xs[n]];
    }
  }

  /**
   * Formatting the persons cell fails exactly when some line has no colon,
   * and then at the first such line.
   */
  lemma FormattedPersonsFails(persons: string)
    ensures FormattedPersons(persons).Err? <==> exists k :: 0 <= k < |SplitChar(persons, '\n')| && ':' !in SplitChar(persons, '\n')[k]
    ensures var lines, r := SplitChar(persons, '\n'), FormattedPersons(persons);
      r.Err? ==> r.error.line < |lines| && ':' !in lines[r.error.line]
    ensures var lines, r := SplitChar(persons, '\n'), FormattedPersons(persons);
      r.Err? ==> forall k :: 0 <= k < r.error.line ==> ':' in lines[k]
  {
    var lines := SplitChar(persons, '\n');
    var outcomes := FormatEach(lines);
    GatherSpec(outcomes);
    assert forall k :: 0 <= k < |lines| ==> (outcomes[k].Some? <==> ':' in lines[k]);
    var g := Gather(outcomes);
    if g.Err? {
      assert FormattedPersons(persons) == Err(g.error);
      var k := g.error.line;
      assert 0 <= k < |lines| && ':' !in lines[k];
      assert exists j :: 0 <= j < |SplitChar(persons, '\n')| && ':' !in SplitChar(persons, '\n')[j];
      assert FormattedPersons(persons).Err?;
    } else {
      assert FormattedPersons(persons) == Ok(Join(g.value, "\n"));
      forall k | 0 <= k < |lines| ensures ':' in lines[k] {
        assert outcomes[k].Some?;
      }
    }
  }

  /**
   * Annotating a line `location:names` whose location has no colon: the
   * location, the stripped names and one more than the number of `;` in them.
   */
  lemma FormatLineOf(loc: string, names: string)
    requires ':' !in loc
    ensures FormatLine(loc + ":" + names)
      == Some(loc + ": " + Strip(names) + " (" + NatToString(Count(names, ';') + 1) + " people)")
  {
    FormatLineAt(loc, names);
    assert NatToString(|SplitChar(names, ';')|) == NatToString(Count(names, ';') + 1) by {
      SplitCharCount(names, ';');
    }
  }

  /** A line is cut at its first colon. */
  lemma FormatLineAt(loc: string, names: string)
    requires ':' !in loc
    ensures FormatLine(loc + ":" + names) == Some(Annotate(loc, names))
  {
    var line := loc + ":" + names;
    IndexOfAfter(loc, names, ':');
    assert line[..|loc|] == loc && line[|loc| + 1..] == names;
  }

  /**
   * A group whose display survives formatting: a normalised location without
   * a colon, a trimmed names cell without line breaks, whose `;`-separated
   * names are as many as its count, and a time that is a valid reading or `NaT`.
   */
  predicate Tidy(g: Group)
  {
    && Plain(g) && ':' !in g.0.location
    && Trimmed(g.1.persons) && Count(g.1.persons, ';') + 1 == g.1.count
    && (g.1.time.Some? ==> Valid(g.1.time.value))
  }

  /** The displayed location of a key without a colon has no colon either. */
  lemma LabelNoColon(g: Group)
    requires NoSpace(g.0.location) && NoUpper(g.0.location) && ':' !in g.0.location
    ensures ':' !in Label(g)
  {
    CapitalizeNormalized(g.0.location);
    forall c | c in Label(g) ensures c != ':' {
      if !IsUpper(c) {
        assert c in g.0.location;
      }
    }
  }

  /** The space after a colon is stripped away and holds no `;`. */
  lemma PaddedNames(p: string)
    requires Trimmed(p)
    ensures Strip(" " + p) == p && Count(" " + p, ';') == Count(p, ';')
  {
    assert " " + p == [' '] + p;
    LStripSkipsSpace([' '], p);
    LStripOfTrimmed(p);
    StripOfTrimmed(p);
    CountAppend([' '], p, ';');
    assert Count([' '], ';') == 0;
  }

  /** The line shown for a tidy group: its persons line with the group's count. */
  function Annotated(g: Group): string
  {
    Label(g) + ": " + g.1.persons + " (" + NatToString(g.1.count) + " people)"
  }

  function AnnotatedLines(gs: seq<Group>): seq<string>
  {
    Map(gs, Annotated)
  }

  /** The annotation of a tidy group's line is its `Number of People`. */
  lemma AnnotateTidy(g: Group)
    requires Tidy(g)
    ensures FormatLine(PersonsLine(g)) == Some(Annotated(g))
  {
    var l, names := Label(g), " " + g.1.persons;
    var shown := l + ": " + Strip(names) + " (" + NatToString(Count(names, ';') + 1) + " people)";
    assert shown == Annotated(g) by {
      PaddedNames(g.1.persons);
    }
    assert FormatLine(PersonsLine(g)) == Some(shown) by {
      LabelNoColon(g);
      assert PersonsLine(g) == l + ":" + names;
      FormatLineOf(l, names);
    }
  }

  /**
   * Formatting the persons of a merged manifest of tidy groups never fails,
   * and shows each group's line with its own count.
   */
  lemma FormatMergedPersons(gs: seq<Group>)
    requires |gs| >= 1 && forall i :: 0 <= i < |gs| ==> Tidy(gs[i])
    ensures FormattedPersons(Build(gs).persons) == Ok(Join(AnnotatedLines(gs), "\n"))
  {
    var lines, annotated := PersonsLines(gs), AnnotatedLines(gs);
    assert SplitChar(Build(gs).persons, '\n') == lines by {
      assert forall i :: 0 <= i < |gs| ==> Plain(gs[i]);
      BuildSplits(gs);
    }
    var outcomes := FormatEach(lines);
    assert forall k :: 0 <= k < |outcomes| ==> outcomes[k] == Some(annotated[k]) by {
      forall k | 0 <= k < |outcomes| ensures outcomes[k] == Some(annotated[k]) {
        AnnotateTidy(gs[k]);
      }
    }
    GatherAll(outcomes, annotated);
  }

  /** The sort key of a stop: the text before its first ` at `, read as a time (`NaT` when it is not one). */
  function StopTime(stop: string): Option<Time>
  {
    ParseTime(SplitStr(stop, " at ")[0])
  }

  /**
   * One step of a stable insertion sort by `key`: `x` goes after every
   * element it is not earlier than, starting from the end.
   */
  function Insert<T(==)>(sorted: seq<T>, x: T, key: T -> Option<Time>): (r: seq<T>)
    ensures multiset(r) == multiset(sorted) + multiset{x}
  {
    if sorted == [] || !Earlier(key(x), key(sorted[|sorted| - 1])) then sorted + [x]
    else
      var init, last := sorted[..|sorted| - 1], sorted[|sorted| - 1];
      assert sorted == init + [last];
      Insert(init, x, key) + [last]
  }

  /** `sorted(s, key=key)`: ordered by `key`, ties kept in their order. */
  function SortBy<T(==)>(s: seq<T>, key: T -> Option<Time>): (r: seq<T>)
    ensures multiset(r) == multiset(s)
  {
    if s == [] then []
    else
      var init, last := s[..|s| - 1], s[|s| - 1];
      assert s == init + [last];
      Insert(SortBy(init, key), last, key)
  }

  /** Every element has a time. */
  predicate Timed<T>(s: seq<T>, key: T -> Option<Time>)
  {
    forall i :: 0 <= i < |s| ==> key(s[i]).Some? && Valid(key(s[i]).value)
  }

  /** No element is earlier than one before it. */
  predicate Chronological<T>(s: seq<T>, key: T -> Option<Time>)
  {
    forall i, j :: 0 <= i < j < |s| ==> !Earlier(key(s[j]), key(s[i]))
  }

  lemma TimedOfMultiset<T>(a: seq<T>, b: seq<T>, key: T -> Option<Time>)
    requires Timed(b, key) && multiset(a) <= multiset(b)
    ensures Timed(a, key)
  {
    forall i | 0 <= i < |a| ensures key(a[i]).Some? && Valid(key(a[i]).value) {
      assert a[i] in multiset(b);
      var j :| 0 <= j < |b| && b[j] == a[i];
    }
  }

  /** Inserting an element with a time into chronological timed elements keeps them chronological. */
  lemma {:induction false} InsertChronological<T>(sorted: seq<T>, x: T, key: T -> Option<Time>)
    requires Timed(sorted, key) && key(x).Some? && Chronological(sorted, key)
    ensures Chronological(Insert(sorted, x, key), key)
  {
    var r := Insert(sorted, x, key);
    if sorted != [] {
      var init, last := sorted[..|sorted| - 1], sorted[|sorted| - 1];
      if Earlier(key(x), key(last)) {
        InsertChronological(init, x, key);
        var ri := Insert(init, x, key);
        assert r == ri + [last];
        forall i | 0 <= i < |ri| ensures !Earlier(key(last), key(ri[i])) {
          assert ri[i] in multiset(init) + multiset{x};
          if ri[i] != x {
            assert ri[i] in multiset(init);
            var j :| 0 <= j < |init| && init[j] == ri[i];
            assert sorted[j] == ri[i];
          }
        }
      } else {
        assert r == sorted + [x];
        forall i | 0 <= i < |sorted| ensures !Earlier(key(x), key(sorted[i])) {
          if i < |sorted| - 1 {
            assert !Earlier(key(last), key(sorted[i]));
          }
        }
      }
    }
  }

  /** Sorting elements that all have a time orders them by time. */
  lemma {:induction false} SortByChronological<T>(s: seq<T>, key: T -> Option<Time>)
    requires Timed(s, key)
    ensures Chronological(SortBy(s, key), key)
  {
    if s != [] {
      var init, last := s[..|s| - 1], s[|s| - 1];
      assert Timed(init, key);
      SortByChronological(init, key);
      TimedOfMultiset(SortBy(init, key), init, key);
      InsertChronological(SortBy(init, key), last, key);
    }
  }

  /** The elements whose key is `t`, in their order. */
  function WithKey<T>(s: seq<T>, key: T -> Option<Time>, t: Option<Time>): seq<T>
  {
    if s == [] then [] else WithKey(s[..|s| - 1], key, t) + (if key(s[|s| - 1]) == t then [s[|s| - 1]] else [])
  }

  lemma WithKeySnoc<T>(s: seq<T>, x: T, key: T -> Option<Time>, t: Option<Time>)
    ensures WithKey(s + [x], key, t) == WithKey(s, key, t) + (if key(x) == t then [x] else [])
  {
    assert (s + [x])[..|s|] == s;
  }

  lemma WithKeyLast<T>(s: seq<T>, key: T -> Option<Time>, t: Option<Time>)
    requires s != []
    ensures WithKey(s, key, t) == WithKey(s[..|s| - 1], key, t) + (if key(s[|s| - 1]) == t then [s[|s| - 1]] else [])
  {
  }

  lemma SortByLast<T>(s: seq<T>, key: T -> Option<Time>)
    requires s != []
    ensures SortBy(s, key) == Insert(SortBy(s[..|s| - 1], key), s[|s| - 1], key)
  {
  }

  lemma InsertCases<T>(sorted: seq<T>, x: T, key: T -> Option<Time>)
    ensures sorted == [] || !Earlier(key(x), key(sorted[|sorted| - 1])) ==> Insert(sorted, x, key) == sorted + [x]
    ensures sorted != [] && Earlier(key(x), key(sorted[|sorted| - 1])) ==>
      Insert(sorted, x, key) == Insert(sorted[..|sorted| - 1], x, key) + [sorted[|sorted| - 1]]
  {
  }

  /** Inserting `x` keeps the order of the elements that share a key, and puts `x` after those that share its own. */
  lemma {:induction false} InsertStable<T>(sorted: seq<T>, x: T, key: T -> Option<Time>, t: Option<Time>)
    ensures WithKey(Insert(sorted, x, key), key, t) == WithKey(sorted, key, t) + (if key(x) == t then [x] else [])
  {
    InsertCases(sorted, x, key);
    if sorted == [] || !Earlier(key(x), key(sorted[|sorted| - 1])) {
      WithKeySnoc(sorted, x, key, t);
    } else {
      var init, last := sorted[..|sorted| - 1], sorted[|sorted| - 1];
      InsertStable(init, x, key, t);
      WithKeySnoc(Insert(init, x, key), last, key, t);
      WithKeyLast(sorted, key, t);
      assert key(x) != key(last);
    }
  }

  /** `sorted` is stable: the elements that share a key keep their order. */
  lemma {:induction false} SortByStable<T>(s: seq<T>, key: T -> Option<Time>, t: Option<Time>)
    ensures WithKey(SortBy(s, key), key, t) == WithKey(s, key, t)
  {
    if s != [] {
      var init, last := s[..|s| - 1], s[|s| - 1];
      SortByLast(s, key);
      SortByStable(init, key, t);
      InsertStable(SortBy(init, key), last, key, t);
      WithKeyLast(s, key, t);
    }
  }

  lemma {:induction false} WithKeyOccurs<T>(s: seq<T>, key: T -> Option<Time>, t: Option<Time>)
    requires WithKey(s, key, t) != []
    ensures exists j :: 0 <= j < |s| && key(s[j]) == t
  {
    var init := s[..|s| - 1];
    if WithKey(init, key, t) != [] {
      WithKeyOccurs(init, key, t);
      var j :| 0 <= j < |init| && key(init[j]) == t;
      assert key(s[j]) == t;
    } else {
      assert key(s[|s| - 1]) == t;
    }
  }

  lemma KeyOfLast<T>(s: seq<T>, key: T -> Option<Time>)
    requires s != []
    ensures WithKey(s, key, key(s[|s| - 1])) != []
  {
  }

  /** In a chronological timed sequence no element is later than the last one. */
  lemma LastIsLatest<T>(s: seq<T>, key: T -> Option<Time>, j: nat)
    requires Timed(s, key) && Chronological(s, key) && j < |s|
    ensures MinuteOfDay(key(s[j]).value) <= MinuteOfDay(key(s[|s| - 1]).value)
  {
    if j < |s| - 1 {
      assert !Earlier(key(s[|s| - 1]), key(s[j]));
    }
  }

  /** Two timed, chronological sequences end with elements of the same key when they hold the same elements per key. */
  lemma SameLastKey<T>(a: seq<T>, b: seq<T>, key: T -> Option<Time>)
    requires |a| >= 1 && |b| >= 1
    requires Timed(a, key) && Timed(b, key) && Chronological(a, key) && Chronological(b, key)
    requires forall t :: WithKey(a, key, t) == WithKey(b, key, t)
    ensures key(a[|a| - 1]) == key(b[|b| - 1])
  {
    var ka, kb := key(a[|a| - 1]), key(b[|b| - 1]);
    assert WithKey(b, key, ka) != [] by {
      assert WithKey(a, key, ka) != [];
    }
    WithKeyOccurs(b, key, ka);
    var j :| 0 <= j < |b| && key(b[j]) == ka;
    LastIsLatest(b, key, j);
    assert WithKey(a, key, kb) != [] by {
      assert WithKey(b, key, kb) != [];
    }
    WithKeyOccurs(a, key, kb);
    var i :| 0 <= i < |a| && key(a[i]) == kb;
    LastIsLatest(a, key, i);
    MinuteOfDayInjective(ka.value, kb.value);
  }

  /**
   * A chronological arrangement of timed elements is fixed by which elements
   * share each key and in what order: when every stop has a time, the sorted
   * itinerary is the only stable chronological arrangement of its stops.
   */
  lemma {:induction false} StableChronologicalUnique<T>(a: seq<T>, b: seq<T>, key: T -> Option<Time>)
    requires Timed(a, key) && Timed(b, key) && Chronological(a, key) && Chronological(b, key)
    requires forall t :: WithKey(a, key, t) == WithKey(b, key, t)
    ensures a == b
    decreases |a|
  {
    if a == [] || b == [] {
      if a != [] {
        KeyOfLast(a, key);
        assert false;
      } else if b != [] {
        KeyOfLast(b, key);
        assert false;
      }
    } else {
      var a0, b0 := a[..|a| - 1], b[..|b| - 1];
      SameLastKey(a, b, key);
      var k := key(a[|a| - 1]);
      var wa, wb := WithKey(a0, key, k), WithKey(b0, key, k);
      assert WithKey(a, key, k) == wa + [a[|a| - 1]];
      assert WithKey(b, key, k) == wb + [b[|b| - 1]];
      assert wa + [a[|a| - 1]] == wb + [b[|b| - 1]];
      assert |wa| == |wb|;
      assert a[|a| - 1] == (wa + [a[|a| - 1]])[|wa|] == (wb + [b[|b| - 1]])[|wb|] == b[|b| - 1];
      forall t ensures WithKey(a0, key, t) == WithKey(b0, key, t) {
        if t == k {
          assert wa == (wa + [a[|a| - 1]])[..|wa|];
          assert wb == (wb + [b[|b| - 1]])[..|wb|];
        } else {
          assert WithKey(a, key, t) == WithKey(a0, key, t);
          assert WithKey(b, key, t) == WithKey(b0, key, t);
        }
      }
      StableChronologicalUnique(a0, b0, key);
      assert a == a0 + [a[|a| - 1]] && b == b0 + [b[|b| - 1]];
    }
  }

  /** The displayed itinerary: its stops sorted by time and joined again. */
  function FormatItinerary(itinerary: string): (r: string)
    ensures exists sorted ::
      && multiset(sorted) == multiset(SplitStr(itinerary, ", "))
      && r == Join(sorted, ", ")
      && (Timed(SplitStr(itinerary, ", "), StopTime) ==> Chronological(sorted, StopTime))
      && (forall t :: WithKey(sorted, StopTime, t) == WithKey(SplitStr(itinerary, ", "), StopTime, t))
  {
    var stops := SplitStr(itinerary, ", ");
    var sorted := SortBy(stops, StopTime);
    assert Timed(stops, StopTime) ==> Chronological(sorted, StopTime) by {
      if Timed(stops, StopTime) {
        SortByChronological(stops, StopTime);
      }
    }
    assert forall t :: WithKey(sorted, StopTime, t) == WithKey(stops, StopTime, t) by {
      forall t ensures WithKey(sorted, StopTime, t) == WithKey(stops, StopTime, t) {
        SortByStable(stops, StopTime, t);
      }
    }
    Join(sorted, ", ")
  }

  /**
   * When every stop has a time the displayed itinerary is fully determined:
   * it is the stops in chronological order, stops at the same time in the
   * order they were written.
   */
  lemma FormatItineraryDetermined(itinerary: string, order: seq<string>)
    requires Timed(SplitStr(itinerary, ", "), StopTime) && Timed(order, StopTime) && Chronological(order, StopTime)
    requires forall t :: WithKey(order, StopTime, t) == WithKey(SplitStr(itinerary, ", "), StopTime, t)
    ensures FormatItinerary(itinerary) == Join(order, ", ")
  {
    var stops := SplitStr(itinerary, ", ");
    var sorted := SortBy(stops, StopTime);
    assert sorted == order by {
      SortByChronological(stops, StopTime);
      TimedOfMultiset(sorted, stops, StopTime);
      forall t ensures WithKey(sorted, StopTime, t) == WithKey(order, StopTime, t) {
        SortByStable(stops, StopTime, t);
      }
      StableChronologicalUnique(sorted, order, StopTime);
    }
  }

  /** The key of a tidy group's stop is the group's own time. */
  lemma StopTimeOf(g: Group)
    requires Tidy(g)
    ensures StopTime(Stop(g)) == g.1.time
  {
    TimeTextPlain(g.1.time);
    SeparableBySpace(TimeCell(g.1), " at ");
    SplitAfterPiece(TimeCell(g.1), Label(g), " at ");
    ParseTimeText(g.1.time);
  }

  /** Each sorted stop is the stop of some group, so none holds `", "`. */
  lemma SortedStopsSeparable(gs: seq<Group>)
    requires forall i :: 0 <= i < |gs| ==> Tidy(gs[i])
    ensures var sorted := SortBy(Stops(gs), StopTime);
      |sorted| == |gs| && forall k :: 0 <= k < |sorted| ==> Separable(sorted[k], ", ")
  {
    var stops := Stops(gs);
    var sorted := SortBy(stops, StopTime);
    assert |sorted| == |multiset(sorted)| == |stops|;
    forall k | 0 <= k < |sorted| ensures Separable(sorted[k], ", ") {
      assert sorted[k] in multiset(stops);
      var j :| 0 <= j < |stops| && stops[j] == sorted[k];
      StopSeparable(gs[j]);
    }
  }

  /** The stops of groups that all have a time are timed. */
  lemma StopsTimed(gs: seq<Group>)
    requires forall i :: 0 <= i < |gs| ==> Tidy(gs[i]) && gs[i].1.time.Some?
    ensures Timed(Stops(gs), StopTime)
  {
    forall i | 0 <= i < |gs| ensures StopTime(Stops(gs)[i]) == gs[i].1.time {
      StopTimeOf(gs[i]);
    }
  }

  /**
   * The displayed itinerary of a merged manifest of tidy groups holds each
   * group's stop once, and when every group has a time they are in order of time.
   */
  lemma FormatMergedItinerary(gs: seq<Group>)
    requires |gs| >= 1 && forall i :: 0 <= i < |gs| ==> Tidy(gs[i])
    ensures var out := SplitStr(FormatItinerary(Build(gs).itinerary), ", ");
      && multiset(out) == multiset(Stops(gs))
      && ((forall i :: 0 <= i < |gs| ==> gs[i].1.time.Some?) ==> Chronological(out, StopTime))
      && (forall t :: WithKey(out, StopTime, t) == WithKey(Stops(gs), StopTime, t))
  {
    BuildSplits(gs);
    var stops := Stops(gs);
    SortedStopsSeparable(gs);
    SplitJoin(SortBy(stops, StopTime), ", ");
    if forall i :: 0 <= i < |gs| ==> gs[i].1.time.Some? {
      StopsTimed(gs);
      SortByChronological(stops, StopTime);
    }
    forall t ensures WithKey(SortBy(stops, StopTime), StopTime, t) == WithKey(stops, StopTime, t) {
      SortByStable(stops, StopTime, t);
    }
  }
}
