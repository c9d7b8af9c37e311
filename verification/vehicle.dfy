/**
 * The vehicle an operator assigns to a pickup group: a car plate on the first
 * line of a text box and a mobile number on the second. The program has this
 * parse twice: the helper `parse_car_plate_and_mobile` (main.py:57-61), which
 * strips the whole text first, and the copy inlined in the merge loop
 * (main.py:103-105), which does not. The merge uses the inlined copy.
 */
module Vehicle {
  import opened Text

  /** A vehicle as the merge keys it: the plate and the mobile number. */
  datatype VehicleKey = VehicleKey(plate: string, mobile: string)

  /** The first line is the plate and the second the mobile (empty when there is no second line), both stripped. */
  function FromLines(lines: seq<string>): VehicleKey
    requires |lines| >= 1
  {
    VehicleKey(Strip(lines[0]), if |lines| > 1 then Strip(lines[1]) else "")
  }

  lemma FromLinesNewlineFree(lines: seq<string>)
    requires |lines| >= 1
    requires forall k :: 0 <= k < |lines| ==> '\n' !in lines[k]
    ensures '\n' !in FromLines(lines).plate && '\n' !in FromLines(lines).mobile
  {
    StripKeepsAbsent(lines[0], '\n');
    if |lines| > 1 {
      StripKeepsAbsent(lines[1], '\n');
    }
  }

  /** `parse_car_plate_and_mobile`: the whole text is stripped before it is split into lines. */
  function ParseCarPlateAndMobile(text: string): (v: VehicleKey)
    ensures Trimmed(v.plate) && Trimmed(v.mobile)
    ensures '\n' !in v.plate && '\n' !in v.mobile
  {
    var lines := SplitChar(Strip(text), '\n');
    SplitCharPieces(Strip(text), '\n', '\n');
    FromLinesNewlineFree(lines);
    FromLines(lines)
  }

  /** The copy in the merge loop: the text is split into lines as it is. */
  function ReadVehicle(text: string): (v: VehicleKey)
    ensures Trimmed(v.plate) && Trimmed(v.mobile)
    ensures '\n' !in v.plate && '\n' !in v.mobile
  {
    var lines := SplitChar(text, '\n');
    SplitCharPieces(text, '\n', '\n');
    FromLinesNewlineFree(lines);
    FromLines(lines)
  }

  /** The helper is the inlined parse applied to the stripped text. */
  lemma ParseIsReadOfStripped(text: string)
    ensures ParseCarPlateAndMobile(text) == ReadVehicle(Strip(text))
  {
  }

  /** A text of one line gives its stripped line as the plate and no mobile. */
  lemma ReadOneLine(p: string)
    requires '\n' !in p
    ensures ReadVehicle(p) == VehicleKey(Strip(p), "")
  {
    SplitWithoutChar(p, '\n');
  }

  /**
   * A text of two or more lines gives its first line, stripped, as the plate
   * and its second, stripped, as the mobile; later lines are ignored.
   */
  lemma ReadFirstTwoLines(p: string, m: string, rest: string)
    requires '\n' !in p && '\n' !in m
    requires rest == [] || rest[0] == '\n'
    ensures ReadVehicle(p + "\n" + m + rest) == VehicleKey(Strip(p), Strip(m))
  {
    if rest == [] {
      assert p + "\n" + m + rest == p + "\n" + m;
      SplitTwoLines(p, m);
    } else {
      var tail := rest[1..];
      SplitAfterCharPiece(m, tail, '\n');
      SplitAfterCharPiece(p, m + "\n" + tail, '\n');
      assert p + "\n" + m + rest == p + ['\n'] + (m + ['\n'] + tail);
    }
  }

  /** The helper reads whitespace, blank lines included, followed by a last line `p` as the plate `p`, stripped, and no mobile. */
  lemma ParseOneLine(w: string, p: string)
    requires AllSpace(w) && '\n' !in p
    ensures ParseCarPlateAndMobile(w + p) == VehicleKey(Strip(p), "")
  {
    LStripSkipsSpace(w, p);
    StripKeepsAbsent(p, '\n');
    ReadOneLine(Strip(p));
    StripOfTrimmed(Strip(p));
  }

  /** Stripping skips leading blank text and then whitespace at the start of the first non-blank piece. */
  lemma StripPastBlank(w: string, p: string, tail: string)
    requires AllSpace(w) && Strip(p) != []
    ensures Strip(w + p + tail) == Strip(LStrip(p) + tail)
    ensures LStrip(p) + tail == [] || !IsSpace((LStrip(p) + tail)[0])
  {
    assert w + p + tail == w + (p + tail);
    LStripSkipsSpace(w, p + tail);
    LStripAppend(p, tail);
    LStripOfTrimmed(LStrip(p) + tail);
  }

  /**
   * The helper skips the blank lines `w` and reads the first non-blank line
   * `p`, stripped, as the plate and the next line `m`, stripped, as the
   * mobile; later lines are ignored.
   */
  lemma ParseFirstTwoLines(w: string, p: string, m: string, rest: string)
    requires AllSpace(w) && '\n' !in p && '\n' !in m && Strip(p) != []
    requires rest == [] || rest[0] == '\n'
    ensures ParseCarPlateAndMobile(w + p + "\n" + m + rest) == VehicleKey(Strip(p), Strip(m))
  {
    var tail := "\n" + m + rest;
    var lp := LStrip(p);
    var t, u := w + p + tail, lp + tail;
    assert t == w + p + "\n" + m + rest;
    assert u == lp + "\n" + m + rest;
    assert Strip(t) == Strip(u) && (u == [] || !IsSpace(u[0])) by {
      StripPastBlank(w, p, tail);
    }
    assert '\n' !in lp by {
      LStripRemovesSpace(p);
    }
    assert Strip(lp) == Strip(p) by {
      LStripOfTrimmed(lp);
    }
    calc {
      ParseCarPlateAndMobile(t);
      { ParseIsReadOfStripped(t); }
      ReadVehicle(Strip(u));
      { ParseIsReadOfStripped(u); }
      ParseCarPlateAndMobile(u);
      { ReadAgreesWithParse(u); }
      ReadVehicle(u);
      { ReadFirstTwoLines(lp, m, rest); }
      VehicleKey(Strip(p), Strip(m));
    }
  }

  /** A group takes part in the merge only when both the plate and the mobile are given. */
  predicate Assigned(v: VehicleKey)
  {
    v.plate != [] && v.mobile != []
  }

  /** Two lines on their own: splitting `p`, a newline and `m` gives `[p, m]`. */
  lemma SplitTwoLines(p: string, m: string)
    requires '\n' !in p && '\n' !in m
    ensures SplitChar(p + "\n" + m, '\n') == [p, m]
  {
    SplitAfterCharPiece(p, m, '\n');
    SplitWithoutChar(m, '\n');
  }

  /**
   * Writing a plate and a mobile on two lines reads them back, with either
   * parse (the helper needs a plate unless the mobile is empty too, since
   * it strips a leading empty line away).
   */
  lemma VehicleRoundTrip(p: string, m: string)
    requires Trimmed(p) && Trimmed(m) && '\n' !in p && '\n' !in m
    ensures ReadVehicle(p + "\n" + m) == VehicleKey(p, m)
    ensures p != [] || m == [] ==> ParseCarPlateAndMobile(p + "\n" + m) == VehicleKey(p, m)
  {
    var text := p + "\n" + m;
    SplitTwoLines(p, m);
    StripOfTrimmed(p);
    StripOfTrimmed(m);
    if p != [] {
      if m == [] {
        assert text == p + "\n";
        StripTrailingSpace(p, "\n");
        SplitWithoutChar(p, '\n');
      } else {
        assert text[0] == p[0] && text[|text| - 1] == m[|m| - 1];
        StripOfTrimmed(text);
      }
    } else if m == [] {
      assert text == [] + "\n";
      StripTrailingSpace([], "\n");
      SplitWithoutChar([], '\n');
    }
  }

  /** A text is its stripped form followed by whitespace when it does not start with whitespace. */
  lemma StrippedThenSpace(text: string)
    requires text == [] || !IsSpace(text[0])
    ensures text == Strip(text) + text[|Strip(text)|..]
    ensures AllSpace(text[|Strip(text)|..])
  {
    LStripOfTrimmed(text);
    RStripRemovesSpace(text);
  }

  /**
   * The two parses agree on every text that does not start with whitespace:
   * whitespace at the end only lengthens the last lines, which are stripped.
   */
  lemma ReadAgreesWithParse(text: string)
    requires text == [] || !IsSpace(text[0])
    ensures ReadVehicle(text) == ParseCarPlateAndMobile(text)
  {
    var s := Strip(text);
    var w := text[|s|..];
    StrippedThenSpace(text);
    var ps, pw := SplitChar(s, '\n'), SplitChar(w, '\n');
    SplitCharAppend(s, w, '\n');
    SplitCharAllSpace(w, '\n');
    var g := Glue(ps, pw);
    assert SplitChar(text, '\n') == g;
    if |ps| == 1 {
      assert g[0] == ps[0] + pw[0];
      StripTrailingSpace(ps[0], pw[0]);
      if |pw| > 1 {
        assert g[1] == pw[1];
        AllSpaceStripsToEmpty(pw[1]);
      }
    } else {
      assert g[0] == ps[0];
      if |ps| == 2 {
        assert g[1] == ps[1] + pw[0];
        StripTrailingSpace(ps[1], pw[0]);
      } else {
        assert g[1] == ps[1];
      }
    }
  }

  lemma BlankLineStripped(p: string, m: string)
    requires Trimmed(p) && Trimmed(m) && p != [] && m != []
    ensures Strip("\n" + p + "\n" + m) == p + "\n" + m
  {
    var body := p + "\n" + m;
    assert "\n" + p + "\n" + m == "\n" + body;
    LStripSkipsSpace("\n", body);
    assert body[0] == p[0] && body[|body| - 1] == m[|m| - 1];
    LStripOfTrimmed(body);
    RStripOfTrimmed(body);
  }

  lemma BlankLineSplit(p: string, m: string)
    requires '\n' !in p && '\n' !in m
    ensures SplitChar("\n" + p + "\n" + m, '\n') == ["", p, m]
  {
    var body := p + "\n" + m;
    SplitTwoLines(p, m);
    SplitAfterCharPiece("", body, '\n');
    assert "" + "\n" + body == "\n" + p + "\n" + m;
  }

  /**
   * Where the two parses part: a blank first line. The helper skips it and
   * finds the plate and the mobile; the inlined copy reads an empty plate,
   * so the group is left out of the merge.
   */
  lemma LeadingBlankLine(p: string, m: string)
    requires Trimmed(p) && Trimmed(m) && '\n' !in p && '\n' !in m && p != [] && m != []
    ensures ParseCarPlateAndMobile("\n" + p + "\n" + m) == VehicleKey(p, m)
    ensures ReadVehicle("\n" + p + "\n" + m) == VehicleKey("", p)
    ensures !Assigned(ReadVehicle("\n" + p + "\n" + m))
  {
    BlankLineStripped(p, m);
    BlankLineSplit(p, m);
    SplitTwoLines(p, m);
    StripOfTrimmed(p);
    StripOfTrimmed(m);
    assert Strip("") == "";
  }
}
