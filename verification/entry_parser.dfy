/**
 * The line parser (main.py `parse_input`, lines 12-22): one customer per line
 * of the stripped input. A line is cut into fields at every `-` together with
 * the whitespace around it; field 2 is the person, field 3 the location and
 * field 4 the time, which falls back to the default time and loses its
 * parenthesised remarks, its surrounding whitespace and its capitals.
 */
module EntryParser {
  import opened Wrappers
  import opened Text
  import opened Location

  /** A parsed input line; `location` is normalised and `time` cleaned. */
  datatype Customer = Customer(person: string, time: string, location: string)

  /** The `IndexError` that `parts[1]` raises on a line with no `-`, with the line's index. */
  datatype ParseError = MissingName(line: nat)

  /**
   * `re.split(r'\s*-\s*', s)`. The leftmost match starts where the run of
   * whitespace before the first `-` starts and ends after the whitespace that
   * follows it; splitting then goes on after that match.
   */
  function SplitFields(s: string): (parts: seq<string>)
    ensures |parts| >= 1
    ensures forall k :: 0 <= k < |parts| ==> '-' !in parts[k]
    decreases |s|
  {
    match IndexOf(s, '-')
    case None => [s]
    case Some(d) =>
      RStripRemovesSpace(s[..d]);
      LStripRemovesSpace(s[d + 1..]);
      [RStrip(s[..d])] + SplitFields(LStrip(s[d + 1..]))
  }

  /** Each piece stripped of its surrounding whitespace. */
  function MapStrip(pieces: seq<string>): (r: seq<string>)
    ensures |r| == |pieces|
    ensures forall k :: 0 <= k < |pieces| ==> r[k] == Strip(pieces[k])
  {
    if pieces == [] then [] else [Strip(pieces[0])] + MapStrip(pieces[1..])
  }

  lemma MapStripCons(p: string, pieces: seq<string>)
    ensures MapStrip([p] + pieces) == [Strip(p)] + MapStrip(pieces)
  {
    assert ([p] + pieces)[1..] == pieces;
  }

  lemma SplitFieldsNoDash(s: string, u: string, w: nat)
    requires w <= |s| && u == s[w..] && AllSpace(s[..w]) && (u == [] || !IsSpace(u[0]))
    requires s == [] || !IsSpace(s[|s| - 1])
    requires '-' !in u
    ensures '-' !in s
    ensures SplitChar(s, '-') == [s]
    ensures RStrip(u) == Strip(s)
  {
    assert s == s[..w] + u;
    SplitWithoutChar(s, '-');
    LStripSkipsSpace(s[..w], u);
    LStripOfTrimmed(u);
    assert u == [] || u[|u| - 1] == s[|s| - 1];
    RStripOfTrimmed(u);
  }

  /** The first field of a line, up to the first `-`, stripped like the regular-expression split leaves it. */
  lemma FirstFieldStripped(s: string, u: string, w: nat, d: nat)
    requires w <= |s| && u == s[w..] && AllSpace(s[..w]) && (u == [] || !IsSpace(u[0]))
    requires d < |u| && u[d] == '-' && '-' !in u[..d]
    ensures '-' !in s[..w + d]
    ensures s == s[..w + d] + "-" + u[d + 1..]
    ensures Strip(s[..w + d]) == RStrip(u[..d])
  {
    var p := s[..w + d];
    assert s[w + d] == '-';
    assert s == s[..w + d] + [s[w + d]] + s[w + d + 1..];
    assert p == s[..w] + u[..d];
    LStripSkipsSpace(s[..w], u[..d]);
    LStripOfTrimmed(u[..d]);
  }

  lemma {:induction false} SplitFieldsOfLStrip(s: string)
    requires s == [] || !IsSpace(s[|s| - 1])
    ensures SplitFields(LStrip(s)) == MapStrip(SplitChar(s, '-'))
    decreases |s|
  {
    var u := LStrip(s);
    var w := |s| - |u|;
    LStripRemovesSpace(s);
    match IndexOf(u, '-')
    case None =>
      SplitFieldsNoDash(s, u, w);
    case Some(d) =>
      var p := s[..w + d];
      var t := u[d + 1..];
      assert SplitChar(s, '-') == [p] + SplitChar(t, '-') && Strip(p) == RStrip(u[..d]) by {
        FirstFieldStripped(s, u, w, d);
        SplitAfterCharPiece(p, t, '-');
      }
      assert SplitFields(LStrip(t)) == MapStrip(SplitChar(t, '-')) by {
        assert t == [] || t[|t| - 1] == s[|s| - 1];
        SplitFieldsOfLStrip(t);
      }
      assert SplitFields(u) == [RStrip(u[..d])] + SplitFields(LStrip(t));
      MapStripCons(p, SplitChar(t, '-'));
  }

  /**
   * On a stripped line the regular-expression split gives the pieces between
   * the `-` characters, each with its surrounding whitespace removed.
   */
  lemma SplitFieldsStripsPieces(s: string)
    requires Trimmed(s)
    ensures SplitFields(s) == MapStrip(SplitChar(s, '-'))
  {
    LStripOfTrimmed(s);
    SplitFieldsOfLStrip(s);
  }

  /** Position of the first `)` in `s`, if no newline comes before it (`.` does not match a newline). */
  function CloseParen(s: string): (r: Option<nat>)
    ensures r.Some? ==> r.value < |s| && s[r.value] == ')'
  {
    if s == [] || s[0] == '\n' then None
    else if s[0] == ')' then Some(0)
    else match CloseParen(s[1..])
      case None => None
      case Some(j) => Some(j + 1)
  }

  /**
   * `re.sub(r'\(.*?\)', '', s)`: scanning from the left, an opening
   * parenthesis starts a remark when a closing one follows on the same line,
   * and the remark runs to the nearest closing parenthesis.
   */
  function RemoveRemarks(s: string): (r: string)
    ensures |r| <= |s|
    ensures '(' !in s ==> r == s
    decreases |s|
  {
    if s == [] then []
    else if s[0] == '(' && CloseParen(s[1..]).Some? then RemoveRemarks(s[CloseParen(s[1..]).value + 2..])
    else [s[0]] + RemoveRemarks(s[1..])
  }

  lemma {:induction false} CloseParenAfter(q: string, t: string)
    requires ')' !in q && '\n' !in q
    ensures CloseParen(q + ")" + t) == Some(|q|)
    decreases |q|
  {
    if q != [] {
      assert (q + ")" + t)[1..] == q[1..] + ")" + t;
      CloseParenAfter(q[1..], t);
    }
  }

  lemma {:induction false} CloseParenBeforeLineEnd(q: string, t: string)
    requires ')' !in q && (t == [] || t[0] == '\n')
    ensures CloseParen(q + t).None?
    decreases |q|
  {
    if q != [] {
      assert (q + t)[1..] == q[1..] + t;
      CloseParenBeforeLineEnd(q[1..], t);
    }
  }

  /** Text before the first `(` is kept as it is. */
  lemma {:induction false} RemoveRemarksKeepsPrefix(p: string, t: string)
    requires '(' !in p
    ensures RemoveRemarks(p + t) == p + RemoveRemarks(t)
    decreases |p|
  {
    if p != [] {
      var u := p + t;
      assert u[0] == p[0] != '(';
      assert u[1..] == p[1..] + t;
      assert RemoveRemarks(u) == [p[0]] + RemoveRemarks(p[1..] + t);
      RemoveRemarksKeepsPrefix(p[1..], t);
      assert p == [p[0]] + p[1..];
    } else {
      assert p + t == t;
    }
  }

  /**
   * The first remark runs from the first `(` to the nearest `)` on the same
   * line: it is removed, the text before it is kept, and the removal goes on
   * after it.
   */
  lemma RemoveRemarksFirst(p: string, q: string, t: string)
    requires '(' !in p && ')' !in q && '\n' !in q
    ensures RemoveRemarks(p + "(" + q + ")" + t) == p + RemoveRemarks(t)
  {
    var s := "(" + q + ")" + t;
    assert s[1..] == q + ")" + t;
    CloseParenAfter(q, t);
    assert s[|q| + 2..] == t;
    assert p + "(" + q + ")" + t == p + s;
    RemoveRemarksKeepsPrefix(p, s);
  }

  /** An opening parenthesis with no closing one before the end of its line is kept. */
  lemma RemoveRemarksUnclosed(q: string, t: string)
    requires ')' !in q && (t == [] || t[0] == '\n')
    ensures RemoveRemarks("(" + q + t) == "(" + RemoveRemarks(q + t)
  {
    var s := "(" + q + t;
    assert s[1..] == q + t;
    CloseParenBeforeLineEnd(q, t);
  }

  /** No remark is left: no `(` has a `)` after it on the same line. */
  predicate NoRemark(s: string)
    decreases |s|
  {
    s == [] || ((s[0] == '(' ==> CloseParen(s[1..]).None?) && NoRemark(s[1..]))
  }

  lemma {:induction false} RemoveRemarksKeepsUnclosed(t: string)
    requires CloseParen(t).None?
    ensures CloseParen(RemoveRemarks(t)).None?
    decreases |t|
  {
    if t != [] && t[0] != '\n' {
      assert CloseParen(t[1..]).None?;
      RemoveRemarksKeepsUnclosed(t[1..]);
      assert RemoveRemarks(t) == [t[0]] + RemoveRemarks(t[1..]);
      assert ([t[0]] + RemoveRemarks(t[1..]))[1..] == RemoveRemarks(t[1..]);
    }
  }

  /** Every remark is removed, including one the removal of an earlier one could have exposed. */
  lemma {:induction false} RemoveRemarksComplete(s: string)
    ensures NoRemark(RemoveRemarks(s))
    decreases |s|
  {
    if s != [] {
      if s[0] == '(' && CloseParen(s[1..]).Some? {
        RemoveRemarksComplete(s[CloseParen(s[1..]).value + 2..]);
      } else {
        var rest := RemoveRemarks(s[1..]);
        var r := [s[0]] + rest;
        assert RemoveRemarks(s) == r;
        assert r[1..] == rest;
        RemoveRemarksComplete(s[1..]);
        if s[0] == '(' {
          RemoveRemarksKeepsUnclosed(s[1..]);
        }
      }
    }
  }

  /** Text without remarks is left as it is. */
  lemma {:induction false} RemoveRemarksOfClean(s: string)
    requires NoRemark(s)
    ensures RemoveRemarks(s) == s
    decreases |s|
  {
    if s != [] {
      RemoveRemarksOfClean(s[1..]);
    }
  }

  lemma {:induction false} CloseParenPrefix(t: string, k: nat)
    requires k <= |t| && CloseParen(t).None?
    ensures CloseParen(t[..k]).None?
    decreases |t|
  {
    if k > 0 && t[0] != '\n' {
      assert t[..k][1..] == t[1..][..k - 1];
      CloseParenPrefix(t[1..], k - 1);
    }
  }

  lemma {:induction false} CloseParenLower(t: string)
    ensures CloseParen(LowerStr(t)) == CloseParen(t)
    decreases |t|
  {
    if t != [] {
      assert LowerStr(t)[1..] == LowerStr(t[1..]);
      CloseParenLower(t[1..]);
    }
  }

  lemma {:induction false} NoRemarkSuffix(s: string, a: nat)
    requires a <= |s| && NoRemark(s)
    ensures NoRemark(s[a..])
    decreases a
  {
    if a > 0 {
      assert s[a..] == s[1..][a - 1..];
      NoRemarkSuffix(s[1..], a - 1);
    }
  }

  lemma {:induction false} NoRemarkPrefix(s: string, b: nat)
    requires b <= |s| && NoRemark(s)
    ensures NoRemark(s[..b])
    decreases b
  {
    if b > 0 {
      var x := s[..b];
      assert x[1..] == s[1..][..b - 1];
      NoRemarkPrefix(s[1..], b - 1);
      if s[0] == '(' {
        CloseParenPrefix(s[1..], b - 1);
      }
    }
  }

  lemma NoRemarkSlice(s: string, a: nat, b: nat)
    requires a <= b <= |s| && NoRemark(s)
    ensures NoRemark(s[a..b])
  {
    NoRemarkPrefix(s, b);
    NoRemarkSuffix(s[..b], a);
    assert s[..b][a..] == s[a..b];
  }

  lemma {:induction false} NoRemarkLower(s: string)
    requires NoRemark(s)
    ensures NoRemark(LowerStr(s))
    decreases |s|
  {
    if s != [] {
      var x := LowerStr(s);
      assert x[1..] == LowerStr(s[1..]);
      NoRemarkLower(s[1..]);
      CloseParenLower(s[1..]);
    }
  }

  /**
   * `re.sub(r'\(.*?\)', '', time).strip().lower()`: no remark, no surrounding
   * whitespace and no capital letter is left.
   */
  function CleanTime(s: string): (r: string)
    ensures NoUpper(r) && Trimmed(r) && NoRemark(r)
    ensures '(' !in s ==> r == LowerStr(Strip(s))
  {
    RemoveRemarksComplete(s);
    CleanedShape(RemoveRemarks(s));
    LowerStr(Strip(RemoveRemarks(s)))
  }

  lemma CleanedShape(t: string)
    requires NoRemark(t)
    ensures var r := LowerStr(Strip(t)); NoUpper(r) && Trimmed(r) && NoRemark(r)
  {
    var stripped := Strip(t);
    LowerStrNoUpper(stripped);
    StripKeepsNoRemark(t);
    NoRemarkLower(stripped);
  }

  lemma StripKeepsNoRemark(t: string)
    requires NoRemark(t)
    ensures NoRemark(Strip(t))
  {
    var a, r := |t| - |LStrip(t)|, Strip(t);
    assert r == t[a..a + |r|] by {
      StripSlice(t);
    }
    NoRemarkSlice(t, a, a + |r|);
  }

  /** Cleaning an already cleaned time changes nothing. */
  lemma CleanTimeIdempotent(s: string)
    ensures CleanTime(CleanTime(s)) == CleanTime(s)
  {
    var c := CleanTime(s);
    RemoveRemarksOfClean(c);
    StripOfTrimmed(c);
    LowerStrNoUpper(c);
  }

  /**
   * Cleaning drops the first remark, from the first `(` to the nearest `)` on
   * its line, and keeps the text on both sides of it.
   */
  lemma CleanTimeDropsFirstRemark(p: string, q: string, t: string)
    requires '(' !in p && ')' !in q && '\n' !in q
    ensures CleanTime(p + "(" + q + ")" + t) == CleanTime(p + t)
  {
    RemoveRemarksFirst(p, q, t);
    RemoveRemarksKeepsPrefix(p, t);
  }

  /** Whitespace around a location does not change its normalised form. */
  lemma NormalizeIgnoresSurroundingSpace(x: string)
    ensures NormalizeLocation(Strip(x)) == NormalizeLocation(x)
  {
    var r := Strip(x);
    var a := |x| - |LStrip(x)|;
    StripSlice(x);
    NormalizeBetweenSpace(x[..a], r, x[a + |r|..]);
    assert x == x[..a] + r + x[a + |r|..];
  }

  lemma NormalizeBetweenSpace(u: string, r: string, v: string)
    requires AllSpace(u) && AllSpace(v)
    ensures NormalizeLocation(u + r + v) == NormalizeLocation(r)
  {
    AllSpaceNormalizesToEmpty(u);
    AllSpaceNormalizesToEmpty(v);
    NormalizeAppend(u + r, v);
    NormalizeAppend(u, r);
    assert [] + NormalizeLocation(r) + [] == NormalizeLocation(r);
  }

  lemma {:induction false} AllSpaceNormalizesToEmpty(w: string)
    requires AllSpace(w)
    ensures NormalizeLocation(w) == []
    decreases |w|
  {
    if w != [] {
      NormalizeAppend([w[0]], w[1..]);
      assert [w[0]] + w[1..] == w;
      AllSpaceNormalizesToEmpty(w[1..]);
    }
  }

  lemma NormalizeThirdField(fields: seq<string>)
    ensures |fields| > 2 ==> NormalizeLocation(Strip(fields[2])) == NormalizeLocation(fields[2])
  {
    if |fields| > 2 {
      NormalizeIgnoresSurroundingSpace(fields[2]);
    }
  }

  /** A field of a line without a line break has no line break either. */
  lemma PersonKeepsNewlineFree(entry: string)
    ensures var fields := SplitChar(Strip(entry), '-');
      '\n' !in entry && |fields| >= 2 ==> '\n' !in Strip(fields[1])
  {
    var fields := SplitChar(Strip(entry), '-');
    if '\n' !in entry && |fields| >= 2 {
      StripKeepsAbsent(entry, '\n');
      SplitCharPieces(Strip(entry), '-', '\n');
      StripKeepsAbsent(fields[1], '\n');
    }
  }

  /**
   * One line of the input. The fields are the `-`-separated pieces of the
   * stripped line, each stripped: field 2 is the person, field 3 (normalised)
   * the location or `''`, field 4 the time or else the default time, cleaned;
   * later fields are ignored. A line without a second field is an error.
   */
  function ParseLine(entry: string, defaultTime: string): (r: Option<Customer>)
    ensures r.Some? ==>
      && NoSpace(r.value.location) && NoUpper(r.value.location)
      && NoUpper(r.value.time) && Trimmed(r.value.time) && NoRemark(r.value.time)
      && '-' !in r.value.person
  {
    var parts := SplitFields(Strip(entry));
    if |parts| < 2 then None
    else
      var location := if |parts| > 2 then NormalizeLocation(parts[2]) else "";
      var time := if |parts| > 3 then parts[3] else defaultTime;
      Some(Customer(parts[1], CleanTime(time), location))
  }

  /**
   * What `ParseLine` reads from a line: a customer exactly when the line has
   * a second field, with the stripped second field as the person, the
   * normalised third field (or nothing) as the location and the cleaned
   * fourth field (or the default time) as the time.
   */
  lemma ParseLineFields(entry: string, defaultTime: string)
    ensures var r, fields := ParseLine(entry, defaultTime), SplitChar(Strip(entry), '-');
      && (r.Some? <==> |fields| >= 2)
      && (r.Some? ==>
        && r.value.person == Strip(fields[1])
        && r.value.location == (if |fields| > 2 then NormalizeLocation(fields[2]) else "")
        && r.value.time == CleanTime(if |fields| > 3 then Strip(fields[3]) else defaultTime))
  {
    var stripped := Strip(entry);
    SplitFieldsStripsPieces(stripped);
    NormalizeThirdField(SplitChar(stripped, '-'));
  }

  lemma {:induction false} SplitFieldsCount(s: string)
    ensures |SplitFields(s)| >= 2 <==> '-' in s
    decreases |s|
  {
    match IndexOf(s, '-')
    case None =>
    case Some(d) =>
  }

  /**
   * A line fails to parse exactly when it has no `-`: then `parts[1]` does
   * not exist.
   */
  lemma ParseLineFailsWithoutDash(entry: string, defaultTime: string)
    ensures ParseLine(entry, defaultTime).None? <==> '-' !in entry
  {
    var a, r := |entry| - |LStrip(entry)|, Strip(entry);
    StripSlice(entry);
    SplitFieldsCount(r);
    assert entry == entry[..a] + r + entry[a + |r|..];
    DashBetweenSpace(entry[..a], r, entry[a + |r|..]);
  }

  lemma DashBetweenSpace(u: string, r: string, v: string)
    requires AllSpace(u) && AllSpace(v)
    ensures '-' in u + r + v <==> '-' in r
  {
    assert '-' !in u && '-' !in v;
  }

  /**
   * A parsed customer's location is normalised, its time has no capitals,
   * its person has no `-`, and no line break when the line had none.
   */
  lemma ParseLineShape(entry: string, defaultTime: string)
    ensures var r := ParseLine(entry, defaultTime);
      r.Some? ==>
        && NoSpace(r.value.location) && NoUpper(r.value.location) && NoUpper(r.value.time)
        && '-' !in r.value.person && Trimmed(r.value.person) && Trimmed(r.value.time)
        && ('\n' !in entry ==> '\n' !in r.value.person)
  {
    ParseLineFields(entry, defaultTime);
    PersonKeepsNewlineFree(entry);
  }

  /** The lines of the input: `input_data.strip().split('\n')`. */
  function Lines(input: string): (lines: seq<string>)
    ensures |lines| >= 1
    ensures forall k :: 0 <= k < |lines| ==> '\n' !in lines[k]
  {
    SplitCharPieces(Strip(input), '\n', '\n');
    SplitChar(Strip(input), '\n')
  }

  /** What each line parses to, in the order of the lines. */
  function ParseEach(lines: seq<string>, defaultTime: string): seq<Option<Customer>>
  {
    seq(|lines|, k requires 0 <= k < |lines| => ParseLine(lines[k], defaultTime))
  }

  /**
   * The outcome of a parse that goes through the outcomes of the lines in
   * order: every value, or the error of the first line that has none.
   */
  function Collect<T>(outcomes: seq<Option<T>>): Result<seq<T>, ParseError>
  {
    if outcomes == [] then Ok([])
    else
      var init := Collect(outcomes[..|outcomes| - 1]);
      if init.Err? then init
      else match outcomes[|outcomes| - 1]
        case None => Err(MissingName(|outcomes| - 1))
        case Some(c) => Ok(init.value + [c])
  }

  /**
   * Collecting succeeds exactly when every line has a value, and then gives
   * the values in the order of the lines; otherwise it reports the first line
   * without one.
   */
  lemma {:induction false} CollectSpec<T>(outcomes: seq<Option<T>>)
    ensures var r := Collect(outcomes);
      && (r.Ok? <==> forall k :: 0 <= k < |outcomes| ==> outcomes[k].Some?)
      && (r.Ok? ==> |r.value| == |outcomes| && forall k :: 0 <= k < |outcomes| ==> outcomes[k] == Some(r.value[k]))
      && (r.Err? ==> r.error.line < |outcomes| && outcomes[r.error.line].None?)
      && (r.Err? ==> forall k :: 0 <= k < r.error.line ==> outcomes[k].Some?)
  {
    if outcomes != [] {
      var init := outcomes[..|outcomes| - 1];
      CollectSpec(init);
      assert forall k :: 0 <= k < |init| ==> init[k] == outcomes[k];
    }
  }

  /** A line without a value stops the parse: the lines after it do not change the outcome. */
  lemma {:induction false} CollectStops<T>(outcomes: seq<Option<T>>, n: nat)
    requires n <= |outcomes| && Collect(outcomes[..n]).Err?
    ensures Collect(outcomes) == Collect(outcomes[..n])
    decreases |outcomes| - n
  {
    if n < |outcomes| {
      assert outcomes[..n + 1][..n] == outcomes[..n];
      CollectStops(outcomes, n + 1);
    } else {
      assert outcomes[..n] == outcomes;
    }
  }

  /**
   * `parse_input`: parses the lines of the stripped input in order and stops
   * at the first line without a name.
   */
  method ParseInput(input: string, defaultTime: string) returns (r: Result<seq<Customer>, ParseError>)
    ensures r == Collect(ParseEach(Lines(input), defaultTime))
  {
    var lines := Lines(input);
    ghost var outcomes := ParseEach(lines, defaultTime);
    var customers: seq<Customer> := [];
    var i := 0;
    while i < |lines|
      invariant 0 <= i <= |lines|
      invariant Collect(outcomes[..i]) == Ok(customers)
    {
      var c := ParseLine(lines[i], defaultTime);
      assert outcomes[..i + 1][..i] == outcomes[..i];
      assert outcomes[i] == c;
      if c.None? {
        CollectStops(outcomes, i + 1);
        return Err(MissingName(i));
      }
      customers := customers + [c.value];
      i := i + 1;
    }
    assert outcomes[..i] == outcomes;
    return Ok(customers);
  }

  /** What every parsed customer satisfies: a normalised location, a time without capitals, a trimmed one-line name without `-`. */
  predicate WellFormed(c: Customer)
  {
    && NoSpace(c.location) && NoUpper(c.location) && NoUpper(c.time)
    && '-' !in c.person && '\n' !in c.person && Trimmed(c.person)
  }

  /** A successful parse gives one well-formed customer per line. */
  lemma ParsedCustomersShape(input: string, defaultTime: string)
    ensures var r := Collect(ParseEach(Lines(input), defaultTime));
      r.Ok? ==> |r.value| == |Lines(input)| && forall i :: 0 <= i < |r.value| ==> WellFormed(r.value[i])
  {
    var lines := Lines(input);
    var outcomes := ParseEach(lines, defaultTime);
    CollectSpec(outcomes);
    var r := Collect(outcomes);
    if r.Ok? {
      forall i | 0 <= i < |r.value| ensures WellFormed(r.value[i]) {
        ParseLineShape(lines[i], defaultTime);
      }
    }
  }
}
