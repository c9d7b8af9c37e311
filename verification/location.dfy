/**
 * Locations (main.py `normalize_location` and the `location.capitalize()` used for display).
 * The grouping key holds the normalised form; every display of a location capitalises it.
 */
module Location {
  import opened Text

  /** Every character of `s` that is not whitespace, in order (`re.sub(r'\s', '', s)`). */
  function RemoveSpace(s: string): (r: string)
    ensures NoSpace(r) && |r| <= |s|
  {
    if s == [] then [] else (if IsSpace(s[0]) then [] else [s[0]]) + RemoveSpace(s[1..])
  }

  /** `normalize_location`: remove every whitespace character, then lowercase what is left. */
  function NormalizeLocation(s: string): (r: string)
    ensures NoSpace(r) && NoUpper(r)
    ensures |r| <= |s|
  {
    LowerStr(RemoveSpace(s))
  }

  lemma {:induction false} RemoveSpaceAppend(a: string, b: string)
    ensures RemoveSpace(a + b) == RemoveSpace(a) + RemoveSpace(b)
    decreases |a|
  {
    if a == [] {
      assert a + b == b;
    } else {
      assert (a + b)[1..] == a[1..] + b;
      RemoveSpaceAppend(a[1..], b);
    }
  }

  lemma {:induction false} RemoveSpaceOfNoSpace(s: string)
    requires NoSpace(s)
    ensures RemoveSpace(s) == s
    decreases |s|
  {
    if s != [] {
      RemoveSpaceOfNoSpace(s[1..]);
    }
  }

  /**
   * Normalisation works character by character: a whitespace character
   * disappears and any other is lowercased.
   */
  lemma NormalizeAppend(a: string, b: string)
    ensures NormalizeLocation(a + b) == NormalizeLocation(a) + NormalizeLocation(b)
    ensures NormalizeLocation([]) == []
    ensures forall c: char :: NormalizeLocation([c]) == if IsSpace(c) then [] else [Lower(c)]
  {
    RemoveSpaceAppend(a, b);
    forall c: char ensures NormalizeLocation([c]) == if IsSpace(c) then [] else [Lower(c)] {
      assert RemoveSpace([c]) == (if IsSpace(c) then [] else [c]) + RemoveSpace([]);
    }
  }

  /** Normalising an already normalised location changes nothing. */
  lemma NormalizeIdempotent(s: string)
    ensures NormalizeLocation(NormalizeLocation(s)) == NormalizeLocation(s)
  {
    var n := NormalizeLocation(s);
    RemoveSpaceOfNoSpace(n);
    LowerStrNoUpper(n);
  }

  /** `s.capitalize()`: the first character upper-cased and the rest lower-cased. */
  function Capitalize(s: string): (r: string)
    ensures |r| == |s|
    ensures LowerStr(r) == LowerStr(s)
    ensures r != [] ==> !IsLower(r[0])
    ensures r != [] ==> NoUpper(r[1..])
  {
    if s == [] then [] else [Upper(s[0])] + LowerStr(s[1..])
  }

  /**
   * On a normalised location, capitalising only upper-cases the first letter:
   * the displayed location has no whitespace and lowercasing it gives back the key.
   */
  lemma CapitalizeNormalized(loc: string)
    requires NoSpace(loc) && NoUpper(loc)
    ensures loc != [] ==> Capitalize(loc) == [Upper(loc[0])] + loc[1..]
    ensures LowerStr(Capitalize(loc)) == loc
    ensures NoSpace(Capitalize(loc))
    ensures forall c :: c in Capitalize(loc) && !IsUpper(c) ==> c in loc
  {
    LowerStrNoUpper(loc);
    if loc != [] {
      LowerStrNoUpper(loc[1..]);
      var r := Capitalize(loc);
      assert r == [Upper(loc[0])] + loc[1..];
      forall i | 0 <= i < |r| ensures !IsSpace(r[i]) {
        if i == 0 {
          assert !IsSpace(loc[0]);
        } else {
          assert r[i] == loc[i];
        }
      }
      forall c | c in r && !IsUpper(c) ensures c in loc {
        var i :| 0 <= i < |r| && r[i] == c;
        if i == 0 {
          assert Upper(loc[0]) == loc[0];
        } else {
          assert r[i] == loc[i];
        }
      }
    }
  }

  /** Two keys that display the same were the same key. */
  lemma CapitalizeInjective(a: string, b: string)
    requires NoSpace(a) && NoUpper(a) && NoSpace(b) && NoUpper(b)
    requires Capitalize(a) == Capitalize(b)
    ensures a == b
  {
    CapitalizeNormalized(a);
    CapitalizeNormalized(b);
  }
}
