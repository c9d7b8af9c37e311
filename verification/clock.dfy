/**
 * Pickup times (main.py:50-52): a cleaned time string is read with the
 * 12-hour format `%I:%M%p` and written back with the same format, lowercased.
 * A string the format does not accept reads as `None` (pandas' `NaT`), and a
 * `NaT` written back is the missing value that prints as `nan`.
 */
module Clock {
  import opened Wrappers
  import opened Text

  /** A reading of a 12-hour clock. */
  datatype Time = Time(hour: nat, minute: nat, pm: bool)

  predicate Valid(t: Time) { 1 <= t.hour <= 12 && t.minute < 60 }

  /** Minutes since midnight: 12am is the start of the day and 12pm is noon. */
  function MinuteOfDay(t: Time): (m: nat)
    requires Valid(t)
    ensures m < 24 * 60
  {
    (t.hour % 12 + (if t.pm then 12 else 0)) * 60 + t.minute
  }

  /** Distinct readings are distinct moments of the day, so ordering by minute of day is strict. */
  lemma MinuteOfDayInjective(a: Time, b: Time)
    requires Valid(a) && Valid(b) && MinuteOfDay(a) == MinuteOfDay(b)
    ensures a == b
  {
    var ha := a.hour % 12 + (if a.pm then 12 else 0);
    var hb := b.hour % 12 + (if b.pm then 12 else 0);
    assert ha * 60 + a.minute == hb * 60 + b.minute;
    assert ha == hb;
    assert a.pm == b.pm;
  }

  /** The comparison `pd.to_datetime(x) < pd.to_datetime(y)`: false whenever either side is `NaT`. */
  predicate Earlier(a: Option<Time>, b: Option<Time>)
  {
    a.Some? && b.Some? && Valid(a.value) && Valid(b.value) && MinuteOfDay(a.value) < MinuteOfDay(b.value)
  }

  predicate IsDigit(c: char) { '0' <= c <= '9' }

  function DigitValue(c: char): nat
    requires IsDigit(c)
  {
    c as int - '0' as int
  }

  function DigitChar(d: nat): (c: char)
    requires d < 10
    ensures IsDigit(c) && DigitValue(c) == d
  {
    (d + '0' as int) as char
  }

  /** `%I`, whose pattern is `1[0-2]|0[1-9]|[1-9]`. */
  function ParseHour(s: string): Option<nat>
  {
    if |s| == 1 && '1' <= s[0] <= '9' then Some(DigitValue(s[0]))
    else if |s| == 2 && s[0] == '1' && '0' <= s[1] <= '2' then Some(10 + DigitValue(s[1]))
    else if |s| == 2 && s[0] == '0' && '1' <= s[1] <= '9' then Some(DigitValue(s[1]))
    else None
  }

  /** `%M`, whose pattern is `[0-5]\d|\d`. */
  function ParseMinute(s: string): Option<nat>
  {
    if |s| == 1 && IsDigit(s[0]) then Some(DigitValue(s[0]))
    else if |s| == 2 && '0' <= s[0] <= '5' && IsDigit(s[1]) then Some(10 * DigitValue(s[0]) + DigitValue(s[1]))
    else None
  }

  /** `%p`: `am` or `pm` in any case; the result says whether it is `pm`. */
  function ParseMeridiem(s: string): Option<bool>
  {
    if LowerStr(s) == "am" then Some(false)
    else if LowerStr(s) == "pm" then Some(true)
    else None
  }

  /**
   * `pd.to_datetime(s, format='%I:%M%p', errors='coerce')`: the whole string
   * must be an hour of one or two digits, a colon, a minute of one or two
   * digits and the meridiem; anything else is `NaT`. The hour has one digit
   * exactly when the colon is the second character.
   */
  function ParseTime(s: string): (r: Option<Time>)
    ensures r.Some? ==> Valid(r.value)
  {
    if |s| < 5 then None
    else
      var body, suffix := s[..|s| - 2], s[|s| - 2..];
      var colon := if body[1] == ':' then 1 else 2;
      if body[colon] != ':' then None
      else
        match (ParseHour(body[..colon]), ParseMinute(body[colon + 1..]), ParseMeridiem(suffix))
        case (Some(h), Some(m), Some(p)) => Some(Time(h, m, p))
        case _ => None
  }

  function TwoDigits(n: nat): (s: string)
    requires n < 100
    ensures |s| == 2 && IsDigit(s[0]) && IsDigit(s[1])
  {
    [DigitChar(n / 10), DigitChar(n % 10)]
  }

  /** `strftime('%I:%M%p').lower()`: zero-padded hour and minute, then `am` or `pm`. */
  function Render(t: Time): (s: string)
    requires Valid(t)
    ensures |s| == 7 && s[2] == ':' && NoUpper(s) && NoSpace(s)
  {
    TwoDigits(t.hour) + ":" + TwoDigits(t.minute) + (if t.pm then "pm" else "am")
  }

  /** The text a canonical time cell prints as: the rendered time, or `nan` for `NaT`. */
  function TimeText(t: Option<Time>): (s: string)
    ensures s == "nan" <==> t.None? || !Valid(t.value)
    ensures s != "nan" ==> |s| == 7 && s[2] == ':'
  {
    if t.Some? && Valid(t.value) then Render(t.value) else "nan"
  }

  /** Reading a rendered time gives the time back. */
  lemma ParseRender(t: Time)
    requires Valid(t)
    ensures ParseTime(Render(t)) == Some(t)
  {
    var s := Render(t);
    assert s[..|s| - 2] == TwoDigits(t.hour) + ":" + TwoDigits(t.minute);
    assert s[..|s| - 2][..2] == TwoDigits(t.hour);
    assert s[..|s| - 2][3..] == TwoDigits(t.minute);
    assert s[|s| - 2..] == (if t.pm then "pm" else "am");
    LowerStrNoUpper(s[|s| - 2..]);
  }

  /** Reading the text of a canonical time cell gives the cell back (`nan` reads as `NaT`). */
  lemma ParseTimeText(t: Option<Time>)
    requires t.Some? ==> Valid(t.value)
    ensures ParseTime(TimeText(t)) == t
  {
    if t.Some? {
      ParseRender(t.value);
    }
  }

  /** A time cell is a single word without commas. */
  lemma TimeTextPlain(t: Option<Time>)
    ensures |TimeText(t)| >= 3 && NoSpace(TimeText(t)) && ',' !in TimeText(t)
  {
    if t.Some? && Valid(t.value) {
      var s := Render(t.value);
      var h, m := TwoDigits(t.value.hour), TwoDigits(t.value.minute);
      assert s == h + ":" + m + (if t.value.pm then "pm" else "am");
      forall i | 0 <= i < |s| ensures s[i] != ',' {
        if i < 2 {
          assert s[i] == h[i];
        } else if 3 <= i < 5 {
          assert s[i] == m[i - 3];
        }
      }
    }
  }

  /** Canonicalising a canonical time cell changes nothing, `nan` included. */
  lemma CanonicalIdempotent(s: string)
    ensures TimeText(ParseTime(TimeText(ParseTime(s)))) == TimeText(ParseTime(s))
  {
    ParseTimeText(ParseTime(s));
  }

  /** The ways `%I` may write an hour: two digits, or one when it is below ten. */
  function HourSpellings(h: nat): set<string>
    requires 1 <= h <= 12
  {
    {TwoDigits(h)} + (if h < 10 then {[DigitChar(h)]} else {})
  }

  /** The ways `%M` may write a minute: two digits, or one when it is below ten. */
  function MinuteSpellings(m: nat): set<string>
    requires m < 60
  {
    {TwoDigits(m)} + (if m < 10 then {[DigitChar(m)]} else {})
  }

  /** `%p` ignores case. */
  function MeridiemSpellings(pm: bool): set<string>
  {
    if pm then {"pm", "pM", "Pm", "PM"} else {"am", "aM", "Am", "AM"}
  }

  /** `s` is one of the ways to write `t` in the format `%I:%M%p`. */
  ghost predicate Spells(s: string, t: Time)
    requires Valid(t)
  {
    exists h, m, p :: h in HourSpellings(t.hour) && m in MinuteSpellings(t.minute) && p in MeridiemSpellings(t.pm)
      && s == h + ":" + m + p
  }

  lemma DigitsValue(c: char, d: char)
    requires IsDigit(c) && IsDigit(d)
    ensures 10 * DigitValue(c) + DigitValue(d) < 100
    ensures TwoDigits(10 * DigitValue(c) + DigitValue(d)) == [c, d]
  {
  }

  lemma MeridiemExact(p: string, pm: bool)
    ensures ParseMeridiem(p) == Some(pm) <==> p in MeridiemSpellings(pm)
  {
    if |p| == 2 {
      if ParseMeridiem(p) == Some(pm) {
        var l := LowerStr(p);
        assert l[0] == Lower(p[0]) && l[1] == Lower(p[1]);
        assert p[0] in {'a', 'A', 'p', 'P'} && p[1] in {'m', 'M'};
        assert p == [p[0], p[1]];
      }
      if p in MeridiemSpellings(pm) {
        assert LowerStr(p) == (if pm then "pm" else "am");
      }
    } else {
      assert |LowerStr(p)| != 2;
    }
  }

  lemma HourExact(s: string, h: nat)
    requires 1 <= h <= 12
    ensures ParseHour(s) == Some(h) <==> s in HourSpellings(h)
  {
    if ParseHour(s) == Some(h) {
      if |s| == 2 {
        DigitsValue(s[0], s[1]);
        assert s == [s[0], s[1]];
      } else {
        assert s == [s[0]];
      }
    }
    if s in HourSpellings(h) {
      if s == TwoDigits(h) {
        assert h / 10 <= 1;
      }
    }
  }

  lemma MinuteExact(s: string, m: nat)
    requires m < 60
    ensures ParseMinute(s) == Some(m) <==> s in MinuteSpellings(m)
  {
    if ParseMinute(s) == Some(m) {
      if |s| == 2 {
        DigitsValue(s[0], s[1]);
        assert s == [s[0], s[1]];
      } else {
        assert s == [s[0]];
      }
    }
  }

  /** `ParseTime` accepts a string exactly when it is one of the spellings of the time it returns. */
  lemma ParseTimeExact(s: string, t: Time)
    requires Valid(t)
    ensures ParseTime(s) == Some(t) <==> Spells(s, t)
  {
    if ParseTime(s) == Some(t) {
      ParsedSpells(s, t);
    }
    if Spells(s, t) {
      var h, m, p :| h in HourSpellings(t.hour) && m in MinuteSpellings(t.minute) && p in MeridiemSpellings(t.pm)
        && s == h + ":" + m + p;
      SpellingParses(h, m, p, t);
    }
  }

  lemma ParsedSpells(s: string, t: Time)
    requires Valid(t) && ParseTime(s) == Some(t)
    ensures Spells(s, t)
  {
    var body := s[..|s| - 2];
    var colon := if body[1] == ':' then 1 else 2;
    var h, m, p := body[..colon], body[colon + 1..], s[|s| - 2..];
    HourExact(h, t.hour);
    MinuteExact(m, t.minute);
    MeridiemExact(p, t.pm);
    assert s == h + ":" + m + p;
  }

  lemma SpellingParses(h: string, m: string, p: string, t: Time)
    requires Valid(t)
    requires h in HourSpellings(t.hour) && m in MinuteSpellings(t.minute) && p in MeridiemSpellings(t.pm)
    ensures ParseTime(h + ":" + m + p) == Some(t)
  {
    var s := h + ":" + m + p;
    HourExact(h, t.hour);
    MinuteExact(m, t.minute);
    MeridiemExact(p, t.pm);
    var body := s[..|s| - 2];
    assert body == h + ":" + m;
    assert s[|s| - 2..] == p;
    assert |h| == 1 ==> body[1] == ':';
    assert |h| == 2 ==> body[1] == h[1] && body[1] != ':';
    assert body[..|h|] == h;
    assert body[|h| + 1..] == m;
  }
}
