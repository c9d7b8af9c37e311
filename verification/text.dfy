/**
 * The Python string operations the pipeline is built from: whitespace and case
 * classes, `lower`, `strip`, `split(sep)` and `sep.join(parts)`, with the facts
 * about them that the rest of the model needs (splitting undoes joining, and so on).
 */
module Text {
  import opened Wrappers

  /** Python's `str.isspace()`; a `\s` in a `str` regular expression matches the same characters. */
  predicate IsSpace(c: char)
  {
    ('\t' <= c <= '\r') || ('\U{1C}' <= c <= '\U{1F}') || c == ' ' || c == '\U{85}' || c == '\U{A0}'
    || c == '\U{1680}' || ('\U{2000}' <= c <= '\U{200A}') || c == '\U{2028}' || c == '\U{2029}'
    || c == '\U{202F}' || c == '\U{205F}' || c == '\U{3000}'
  }

  predicate IsUpper(c: char) { 'A' <= c <= 'Z' }

  predicate IsLower(c: char) { 'a' <= c <= 'z' }

  /** `c.lower()` on the ASCII letters. */
  function Lower(c: char): (d: char)
    ensures !IsUpper(d)
    ensures IsSpace(d) <==> IsSpace(c)
    ensures IsUpper(c) <==> d != c
  {
    if IsUpper(c) then (c as int + 32) as char else c
  }

  /** `c.upper()` on the ASCII letters. */
  function Upper(c: char): (d: char)
    ensures !IsLower(d)
    ensures IsLower(c) <==> d != c
    ensures Lower(d) == Lower(c)
  {
    if IsLower(c) then (c as int - 32) as char else c
  }

  /** `s.lower()`. */
  function LowerStr(s: string): (r: string)
    ensures |r| == |s|
    ensures forall i :: 0 <= i < |s| ==> r[i] == Lower(s[i])
  {
    seq(|s|, i requires 0 <= i < |s| => Lower(s[i]))
  }

  predicate NoUpper(s: string) { forall i :: 0 <= i < |s| ==> !IsUpper(s[i]) }

  predicate NoSpace(s: string) { forall i :: 0 <= i < |s| ==> !IsSpace(s[i]) }

  predicate AllSpace(s: string) { forall i :: 0 <= i < |s| ==> IsSpace(s[i]) }

  /** Neither the first nor the last character is whitespace. */
  predicate Trimmed(s: string) { s == [] || (!IsSpace(s[0]) && !IsSpace(s[|s| - 1])) }

  lemma LowerStrNoUpper(s: string)
    ensures NoUpper(LowerStr(s))
    ensures NoUpper(s) ==> LowerStr(s) == s
  {
  }

  /** `s.lstrip()`. */
  function LStrip(s: string): (r: string)
    ensures |r| <= |s|
    ensures r == [] || !IsSpace(r[0])
    decreases |s|
  {
    if s != [] && IsSpace(s[0]) then LStrip(s[1..]) else s
  }

  /** `lstrip` removes a prefix of whitespace. */
  lemma {:induction false} LStripRemovesSpace(s: string)
    ensures LStrip(s) == s[|s| - |LStrip(s)|..]
    ensures AllSpace(s[..|s| - |LStrip(s)|])
    decreases |s|
  {
    if s != [] && IsSpace(s[0]) {
      LStripRemovesSpace(s[1..]);
      assert s[..|s| - |LStrip(s)|] == [s[0]] + s[1..][..|s[1..]| - |LStrip(s[1..])|];
    }
  }

  /** `s.rstrip()`. */
  function RStrip(s: string): (r: string)
    ensures |r| <= |s|
    ensures r == [] || !IsSpace(r[|r| - 1])
    decreases |s|
  {
    if s != [] && IsSpace(s[|s| - 1]) then RStrip(s[..|s| - 1]) else s
  }

  /** `rstrip` removes a suffix of whitespace. */
  lemma {:induction false} RStripRemovesSpace(s: string)
    ensures RStrip(s) == s[..|RStrip(s)|]
    ensures AllSpace(s[|RStrip(s)|..])
    decreases |s|
  {
    if s != [] && IsSpace(s[|s| - 1]) {
      RStripRemovesSpace(s[..|s| - 1]);
      assert s[|RStrip(s)|..] == s[..|s| - 1][|RStrip(s[..|s| - 1])|..] + [s[|s| - 1]];
    }
  }

  /** `s.strip()`. */
  function Strip(s: string): (r: string)
    ensures Trimmed(r) && |r| <= |s|
  {
    RStripRemovesSpace(LStrip(s));
    RStrip(LStrip(s))
  }

  lemma SliceOfSuffix(s: string, l: string, r: string, a: nat)
    requires a <= |s| && l == s[a..] && |r| <= |l| && r == l[..|r|] && AllSpace(l[|r|..])
    ensures r == s[a..a + |r|] && AllSpace(s[a + |r|..])
  {
    assert s[a + |r|..] == l[|r|..];
  }

  /** `strip` keeps the part of `s` between its leading and its trailing whitespace. */
  lemma StripSlice(s: string)
    ensures var a, r := |s| - |LStrip(s)|, Strip(s);
      a + |r| <= |s| && r == s[a..a + |r|] && AllSpace(s[..a]) && AllSpace(s[a + |r|..])
  {
    var l := LStrip(s);
    var a := |s| - |l|;
    var r := RStrip(l);
    assert r == Strip(s);
    assert l == s[a..] && AllSpace(s[..a]) by {
      LStripRemovesSpace(s);
    }
    assert r == l[..|r|] && AllSpace(l[|r|..]) by {
      RStripRemovesSpace(l);
    }
    SliceOfSuffix(s, l, r, a);
  }

  lemma LStripOfTrimmed(s: string)
    requires s == [] || !IsSpace(s[0])
    ensures LStrip(s) == s
  {
  }

  lemma RStripOfTrimmed(s: string)
    requires s == [] || !IsSpace(s[|s| - 1])
    ensures RStrip(s) == s
  {
  }

  lemma StripOfTrimmed(s: string)
    requires Trimmed(s)
    ensures Strip(s) == s
  {
    LStripOfTrimmed(s);
    RStripOfTrimmed(s);
  }

  lemma {:induction false} LStripSkipsSpace(w: string, s: string)
    requires AllSpace(w)
    ensures LStrip(w + s) == LStrip(s)
    decreases |w|
  {
    if w != [] {
      assert (w + s)[1..] == w[1..] + s;
      LStripSkipsSpace(w[1..], s);
    } else {
      assert w + s == s;
    }
  }

  lemma {:induction false} RStripSkipsSpace(s: string, w: string)
    requires AllSpace(w)
    ensures RStrip(s + w) == RStrip(s)
    decreases |w|
  {
    if w != [] {
      assert (s + w)[..|s + w| - 1] == s + w[..|w| - 1];
      RStripSkipsSpace(s, w[..|w| - 1]);
    } else {
      assert s + w == s;
    }
  }

  /** Position of the first `c` in `s` (`s.find(c)`, with `None` for -1). */
  function IndexOf(s: string, c: char): (r: Option<nat>)
    ensures r.Some? ==> r.value < |s| && s[r.value] == c && c !in s[..r.value]
    ensures r.None? <==> c !in s
  {
    if s == [] then None
    else if s[0] == c then Some(0)
    else match IndexOf(s[1..], c)
      case None => None
      case Some(i) => assert s[1..][..i] == s[1..i + 1]; Some(i + 1)
  }

  /** The first `c` in a string is the one right after a prefix without `c`. */
  lemma IndexOfAfter(p: string, rest: string, c: char)
    requires c !in p
    ensures IndexOf(p + [c] + rest, c) == Some(|p|)
  {
    var s := p + [c] + rest;
    var r := IndexOf(s, c);
    assert s[|p|] == c;
    assert s[..|p|] == p;
  }

  /** `sep` occurs in `s` starting at position `i`. */
  predicate MatchAt(s: string, sep: string, i: nat)
  {
    i + |sep| <= |s| && s[i..i + |sep|] == sep
  }

  /** `sep not in s`. */
  predicate NoOccurrence(s: string, sep: string)
  {
    forall i: nat :: i <= |s| ==> !MatchAt(s, sep, i)
  }

  /**
   * No occurrence of `sep` starts inside `p`, even one running on into a `sep`
   * written after it: this is what `sep.join` needs for `split` to undo it.
   */
  predicate Separable(p: string, sep: string)
  {
    forall i: nat :: i < |p| ==> !MatchAt(p + sep, sep, i)
  }

  /**
   * `s.split(sep)`: the pieces between the leftmost non-overlapping
   * occurrences of `sep`; always at least one piece.
   */
  function SplitStr(s: string, sep: string): (parts: seq<string>)
    requires |sep| > 0
    ensures |parts| >= 1
    decreases |s|
  {
    if |s| < |sep| then [s]
    else if s[..|sep|] == sep then [""] + SplitStr(s[|sep|..], sep)
    else
      var rest := SplitStr(s[1..], sep);
      [[s[0]] + rest[0]] + rest[1..]
  }

  /** `sep.join(parts)`. */
  function Join(parts: seq<string>, sep: string): (s: string)
  {
    if |parts| == 0 then ""
    else if |parts| == 1 then parts[0]
    else parts[0] + sep + Join(parts[1..], sep)
  }

  lemma {:induction false} JoinSnoc(parts: seq<string>, p: string, sep: string)
    requires |parts| >= 1
    ensures Join(parts + [p], sep) == Join(parts, sep) + sep + p
    decreases |parts|
  {
    if |parts| == 1 {
      assert parts + [p] == [parts[0], p];
    } else {
      assert (parts + [p])[1..] == parts[1..] + [p];
      JoinSnoc(parts[1..], p, sep);
    }
  }

  lemma {:induction false} SplitWithoutSeparator(s: string, sep: string)
    requires |sep| > 0 && NoOccurrence(s, sep)
    ensures SplitStr(s, sep) == [s]
    decreases |s|
  {
    if |s| >= |sep| {
      assert !MatchAt(s, sep, 0);
      forall i: nat | i <= |s[1..]| ensures !MatchAt(s[1..], sep, i) {
        assert !MatchAt(s, sep, i + 1);
        if i + |sep| <= |s[1..]| {
          assert s[1..][i..i + |sep|] == s[i + 1..i + 1 + |sep|];
        }
      }
      SplitWithoutSeparator(s[1..], sep);
      assert [s[0]] + s[1..] == s;
    }
  }

  lemma SeparableHasNoOccurrence(p: string, sep: string)
    requires |sep| > 0 && Separable(p, sep)
    ensures NoOccurrence(p, sep)
  {
    forall i: nat | i <= |p| ensures !MatchAt(p, sep, i) {
      if MatchAt(p, sep, i) {
        assert (p + sep)[i..i + |sep|] == p[i..i + |sep|];
        assert MatchAt(p + sep, sep, i);
      }
    }
  }

  lemma {:induction false} SplitAfterPiece(p: string, rest: string, sep: string)
    requires |sep| > 0 && Separable(p, sep)
    ensures SplitStr(p + sep + rest, sep) == [p] + SplitStr(rest, sep)
    decreases |p|
  {
    var s := p + sep + rest;
    if p == [] {
      assert s == sep + rest;
      assert s[..|sep|] == sep;
      assert s[|sep|..] == rest;
    } else {
      assert (p + sep)[0..|sep|] == s[..|sep|];
      assert !MatchAt(p + sep, sep, 0);
      forall i: nat | i < |p[1..]| ensures !MatchAt(p[1..] + sep, sep, i) {
        assert !MatchAt(p + sep, sep, i + 1);
        assert (p[1..] + sep)[i..i + |sep|] == (p + sep)[i + 1..i + 1 + |sep|];
      }
      SplitAfterPiece(p[1..], rest, sep);
      assert s[1..] == p[1..] + sep + rest;
      assert [s[0]] + p[1..] == p;
    }
  }

  /** Splitting on `sep` recovers the parts joined with `sep`. */
  lemma {:induction false} SplitJoin(parts: seq<string>, sep: string)
    requires |sep| > 0 && |parts| >= 1
    requires forall k :: 0 <= k < |parts| ==> Separable(parts[k], sep)
    ensures SplitStr(Join(parts, sep), sep) == parts
    decreases |parts|
  {
    if |parts| == 1 {
      SeparableHasNoOccurrence(parts[0], sep);
      SplitWithoutSeparator(parts[0], sep);
    } else {
      SplitJoin(parts[1..], sep);
      SplitAfterPiece(parts[0], Join(parts[1..], sep), sep);
      assert [parts[0]] + parts[1..] == parts;
    }
  }

  lemma SeparableByChar(p: string, c: char)
    requires c !in p
    ensures Separable(p, [c])
  {
    forall i: nat | i < |p| ensures !MatchAt(p + [c], [c], i) {
      assert (p + [c])[i] == p[i];
    }
  }

  /** A two-character separator cannot straddle `x` and `y` when its first character is not in `x` nor its second in `y`. */
  lemma NoPairAcross(x: string, y: string, sep: string)
    requires |sep| == 2 && sep[0] !in x && sep[1] !in y
    ensures NoOccurrence(x + y, sep)
  {
    var s := x + y;
    forall i: nat | i <= |s| ensures !MatchAt(s, sep, i) {
      if i + 2 <= |s| {
        assert s[i..i + 2][0] == s[i] && s[i..i + 2][1] == s[i + 1];
        if i < |x| {
          assert s[i] == x[i];
        } else {
          assert s[i + 1] == y[i + 1 - |x|];
        }
      }
    }
  }

  /** A two-character separator with distinct characters cannot run on from a piece into itself. */
  lemma SeparableByPair(p: string, sep: string)
    requires |sep| == 2 && sep[0] != sep[1] && NoOccurrence(p, sep)
    ensures Separable(p, sep)
  {
    forall i: nat | i < |p| ensures !MatchAt(p + sep, sep, i) {
      if i + 1 < |p| {
        assert (p + sep)[i..i + 2] == p[i..i + 2];
        assert !MatchAt(p, sep, i);
      } else {
        assert (p + sep)[i + 1] == sep[0];
      }
    }
  }

  /** Number of occurrences of `c` in `s`. */
  function Count(s: string, c: char): nat
  {
    if s == [] then 0 else (if s[0] == c then 1 else 0) + Count(s[1..], c)
  }

  lemma {:induction false} CountAppend(a: string, b: string, c: char)
    ensures Count(a + b, c) == Count(a, c) + Count(b, c)
    decreases |a|
  {
    if a == [] {
      assert a + b == b;
    } else {
      assert (a + b)[1..] == a[1..] + b;
      CountAppend(a[1..], b, c);
    }
  }

  lemma {:induction false} CountAbsent(s: string, c: char)
    requires c !in s
    ensures Count(s, c) == 0
    decreases |s|
  {
    if s != [] {
      assert s[0] != c;
      CountAbsent(s[1..], c);
    }
  }

  /**
   * `s.split(c)` for a one-character separator: the pieces between the
   * occurrences of `c`; always at least one piece.
   */
  function SplitChar(s: string, c: char): (parts: seq<string>)
    ensures |parts| >= 1
    decreases |s|
  {
    if s == [] then [""]
    else
      var rest := SplitChar(s[1..], c);
      if s[0] == c then [""] + rest else [[s[0]] + rest[0]] + rest[1..]
  }

  /** Splitting on a one-character string is splitting on that character. */
  lemma {:induction false} SplitStrOfChar(s: string, c: char)
    ensures SplitStr(s, [c]) == SplitChar(s, c)
    decreases |s|
  {
    if s != [] {
      assert s[..1] == [c] <==> s[0] == c;
      assert s[1..] == s[|[c]|..];
      SplitStrOfChar(s[1..], c);
    }
  }

  lemma {:induction false} SplitWithoutChar(s: string, c: char)
    requires c !in s
    ensures SplitChar(s, c) == [s]
    decreases |s|
  {
    if s != [] {
      SplitWithoutChar(s[1..], c);
      assert [s[0]] + s[1..] == s;
    }
  }

  lemma {:induction false} SplitAfterCharPiece(p: string, rest: string, c: char)
    requires c !in p
    ensures SplitChar(p + [c] + rest, c) == [p] + SplitChar(rest, c)
    decreases |p|
  {
    var s := p + [c] + rest;
    if p == [] {
      assert s[1..] == rest;
    } else {
      assert s[1..] == p[1..] + [c] + rest;
      SplitAfterCharPiece(p[1..], rest, c);
      assert [p[0]] + p[1..] == p;
    }
  }

  /** Splitting on `c` recovers parts that do not contain `c` and were joined with `c`. */
  lemma {:induction false} SplitJoinChar(parts: seq<string>, c: char)
    requires |parts| >= 1
    requires forall k :: 0 <= k < |parts| ==> c !in parts[k]
    ensures SplitChar(Join(parts, [c]), c) == parts
    decreases |parts|
  {
    if |parts| == 1 {
      SplitWithoutChar(parts[0], c);
    } else {
      SplitJoinChar(parts[1..], c);
      SplitAfterCharPiece(parts[0], Join(parts[1..], [c]), c);
      assert [parts[0]] + parts[1..] == parts;
    }
  }

  /** `len(s.split(c))` is one more than the number of `c` in `s`. */
  lemma {:induction false} SplitCharCount(s: string, c: char)
    ensures |SplitChar(s, c)| == Count(s, c) + 1
    decreases |s|
  {
    if s != [] {
      SplitCharCount(s[1..], c);
    }
  }

  /** A piece of `s.split(c)` never contains `c`, nor any character `s` lacks. */
  lemma {:induction false} SplitCharPieces(s: string, c: char, x: char)
    ensures forall k :: 0 <= k < |SplitChar(s, c)| ==> c !in SplitChar(s, c)[k]
    ensures x !in s ==> forall k :: 0 <= k < |SplitChar(s, c)| ==> x !in SplitChar(s, c)[k]
    decreases |s|
  {
    if s != [] {
      SplitCharPieces(s[1..], c, x);
    }
  }

  /** `strip` keeps no character that `s` lacks. */
  lemma StripKeepsAbsent(s: string, x: char)
    requires x !in s
    ensures x !in Strip(s)
  {
    StripSlice(s);
  }

  /** Pieces `pa` then `pb`, with the last of `pa` and the first of `pb` run together. */
  function Glue(pa: seq<string>, pb: seq<string>): seq<string>
    requires |pa| >= 1 && |pb| >= 1
  {
    pa[..|pa| - 1] + [pa[|pa| - 1] + pb[0]] + pb[1..]
  }

  lemma GlueOfOne(p: string, pb: seq<string>)
    requires |pb| >= 1
    ensures Glue([p], pb) == [p + pb[0]] + pb[1..]
  {
    assert [p][..0] == [];
  }

  lemma GlueOfCons(p: string, pr: seq<string>, pb: seq<string>)
    requires |pr| >= 1 && |pb| >= 1
    ensures Glue([p] + pr, pb) == [p] + Glue(pr, pb)
  {
    var pa := [p] + pr;
    assert pa[..|pa| - 1] == [p] + pr[..|pr| - 1];
  }

  /** Prefixing a character to the first piece commutes with gluing. */
  lemma GlueOfHead(x: char, pr: seq<string>, pb: seq<string>)
    requires |pr| >= 1 && |pb| >= 1
    ensures Glue([[x] + pr[0]] + pr[1..], pb) == [[x] + Glue(pr, pb)[0]] + Glue(pr, pb)[1..]
  {
    var g := Glue(pr, pb);
    if |pr| == 1 {
      GlueOfOne([x] + pr[0], pb);
      GlueOfOne(pr[0], pb);
      assert [x] + (pr[0] + pb[0]) == ([x] + pr[0]) + pb[0];
    } else {
      assert pr == [pr[0]] + pr[1..];
      GlueOfCons(pr[0], pr[1..], pb);
      GlueOfCons([x] + pr[0], pr[1..], pb);
    }
  }

  /** Splitting a concatenation: the last piece of `a` runs on into the first piece of `b`. */
  lemma {:induction false} SplitCharAppend(a: string, b: string, c: char)
    ensures SplitChar(a + b, c) == Glue(SplitChar(a, c), SplitChar(b, c))
    decreases |a|
  {
    var pa, pb := SplitChar(a, c), SplitChar(b, c);
    if a == [] {
      assert a + b == b && pa == [""];
      GlueOfOne("", pb);
      assert "" + pb[0] == pb[0];
      assert [pb[0]] + pb[1..] == pb;
    } else {
      var ab := a + b;
      assert ab[0] == a[0] && ab[1..] == a[1..] + b;
      SplitCharAppend(a[1..], b, c);
      var pr := SplitChar(a[1..], c);
      if a[0] == c {
        GlueOfCons("", pr, pb);
      } else {
        GlueOfHead(a[0], pr, pb);
      }
    }
  }

  /** The pieces of a run of whitespace are runs of whitespace. */
  lemma {:induction false} SplitCharAllSpace(w: string, c: char)
    requires AllSpace(w)
    ensures forall k :: 0 <= k < |SplitChar(w, c)| ==> AllSpace(SplitChar(w, c)[k])
    decreases |w|
  {
    if w != [] {
      SplitCharAllSpace(w[1..], c);
    }
  }

  /** Once something other than whitespace has been met, `lstrip` keeps all that follows. */
  lemma {:induction false} LStripAppend(x: string, y: string)
    requires LStrip(x) != []
    ensures LStrip(x + y) == LStrip(x) + y
    decreases |x|
  {
    assert (x + y)[0] == x[0];
    if IsSpace(x[0]) {
      assert (x + y)[1..] == x[1..] + y;
      LStripAppend(x[1..], y);
    }
  }

  /** `strip` does not see whitespace added at the end. */
  lemma StripTrailingSpace(x: string, w: string)
    requires AllSpace(w)
    ensures Strip(x + w) == Strip(x)
  {
    if LStrip(x) != [] {
      LStripAppend(x, w);
      RStripSkipsSpace(LStrip(x), w);
    } else {
      LStripRemovesSpace(x);
      assert AllSpace(x + w);
      AllSpaceStripsToEmpty(x + w);
    }
  }

  lemma {:induction false} AllSpaceStripsToEmpty(w: string)
    requires AllSpace(w)
    ensures LStrip(w) == [] && Strip(w) == []
    decreases |w|
  {
    if w != [] {
      AllSpaceStripsToEmpty(w[1..]);
    }
  }

  /** A character in neither the parts nor the separator is not in their join. */
  lemma {:induction false} JoinAbsent(parts: seq<string>, sep: string, x: char)
    requires x !in sep && forall k :: 0 <= k < |parts| ==> x !in parts[k]
    ensures x !in Join(parts, sep)
  {
    if |parts| > 1 {
      JoinAbsent(parts[1..], sep, x);
    }
  }

  /** Joining `n` parts free of `c` with a separator holding one `c` gives `n - 1` of them. */
  lemma {:induction false} JoinCount(parts: seq<string>, sep: string, c: char)
    requires |parts| >= 1 && Count(sep, c) == 1
    requires forall k :: 0 <= k < |parts| ==> c !in parts[k]
    ensures Count(Join(parts, sep), c) == |parts| - 1
  {
    if |parts| == 1 {
      CountAbsent(parts[0], c);
    } else {
      JoinCount(parts[1..], sep, c);
      CountAbsent(parts[0], c);
      CountAppend(parts[0], sep, c);
      CountAppend(parts[0] + sep, Join(parts[1..], sep), c);
    }
  }

  /** A join begins with its first part and ends with its last. */
  lemma {:induction false} JoinEnds(parts: seq<string>, sep: string)
    requires |parts| >= 1
    ensures parts[0] <= Join(parts, sep)
    ensures var j, l := Join(parts, sep), parts[|parts| - 1]; |l| <= |j| && j[|j| - |l|..] == l
  {
    if |parts| > 1 {
      var rest := parts[1..];
      JoinEnds(rest, sep);
      var j, jr := Join(parts, sep), Join(rest, sep);
      assert j == parts[0] + sep + jr;
      assert j[..|parts[0]|] == parts[0];
      assert j[|j| - |jr|..] == jr;
      assert rest[|rest| - 1] == parts[|parts| - 1];
    }
  }

  /** Joining trimmed non-empty parts with a separator gives a trimmed string. */
  lemma JoinTrimmed(parts: seq<string>, sep: string)
    requires |parts| >= 1
    requires forall k :: 0 <= k < |parts| ==> Trimmed(parts[k]) && parts[k] != []
    ensures Trimmed(Join(parts, sep))
  {
    JoinEnds(parts, sep);
    var j, f, l := Join(parts, sep), parts[0], parts[|parts| - 1];
    assert j[0] == f[0];
    assert j[|j| - 1] == j[|j| - |l|..][|l| - 1] == l[|l| - 1];
  }

  /** A word without whitespace is separable by anything that starts with whitespace. */
  lemma SeparableBySpace(p: string, sep: string)
    requires NoSpace(p) && |sep| > 0 && IsSpace(sep[0])
    ensures Separable(p, sep)
  {
    forall i: nat | i < |p| ensures !MatchAt(p + sep, sep, i) {
      var s := p + sep;
      if i + |sep| <= |s| {
        assert s[i..i + |sep|][0] == s[i] == p[i];
      }
    }
  }
}
