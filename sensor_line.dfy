/**
 The sensor-line parser of `BluetoothManager.read_line` in bridge.py.  The
 gateway reads one line from the serial link; the Arduino sends its MQ-2 gas
 reading as `MQ2:<value>`.  After `strip()`, a line starting with `MQ2:` yields a
 reading whose `gas` is `int()` of the text after the first colon, stamped with
 the current time; every other line, and a value `int()` rejects, yields `None`.
 */
module SensorLine {
  import opened Wrappers
  import opened PyStr
  import opened PyInt

  /** The tag in front of every gas reading. */
  const Prefix: string := "MQ2:"

  /** An ISO-8601 text, as `datetime.now().isoformat()` produces; not interpreted here. */
  type Timestamp = string

  /** The dictionary `read_line` returns: exactly the two keys `gas` and `timestamp`. */
  datatype GasReading = GasReading(gas: int, timestamp: Timestamp)

  /** The gas value carried by a decoded serial line, if any. */
  function ParseLine(line: string): (r: Option<int>)
    ensures r.Some? ==> StartsWith(Strip(line), Prefix)
  {
    var readVal := Strip(line);
    if StartsWith(readVal, Prefix) then
      assert readVal[3] == ':';
      var parts := SplitOnce(readVal, ':');
      ParseInt(parts[1])
    else
      None
  }

  /** `read_line`, with the decoded serial line and the clock reading `now` as inputs. */
  function ReadLine(line: string, now: Timestamp): (r: Option<GasReading>)
    ensures r.None? <==> ParseLine(line).None?
    ensures r.Some? ==> r.value.gas == ParseLine(line).value && r.value.timestamp == now
  {
    match ParseLine(line)
    case Some(gas) => Some(GasReading(gas, now))
    case None => None
  }

  /** The line format `read_line` accepts for a reading `n`: the tag and `str(n)`. */
  function FormatLine(n: int): string {
    Prefix + FormatInt(n)
  }

  // ---------------------------------------------------------------------------
  // Properties
  // ---------------------------------------------------------------------------

  /** A line is read through its stripped form: without the tag it is rejected,
      with it the value is `int()` of the stripped line minus its first four
      characters, since the tag holds the first colon. */
  lemma ParseLineSpec(line: string)
    ensures ParseLine(line) ==
      if StartsWith(Strip(line), Prefix) then ParseInt(Strip(line)[|Prefix|..]) else None
  {
    if StartsWith(Strip(line), Prefix) {
      TagSplit(Strip(line));
    }
  }

  /** The first colon of a tagged line is the tag's own. */
  lemma TagSplit(t: string)
    requires StartsWith(t, Prefix)
    ensures SplitOnce(t, ':') == [Prefix[..3], t[|Prefix|..]]
  {
    assert t == "MQ2" + [':'] + t[4..];
    SplitOnceAfter("MQ2", t[4..], ':');
  }

  /** Whitespace around the line, such as the `\r\n` the serial link delivers, does not matter. */
  lemma ParseLinePadded(a: string, line: string, b: string)
    requires AllSpace(a) && AllSpace(b)
    ensures ParseLine(a + line + b) == ParseLine(line)
  {
    StripPadded(a, line, b);
  }

  /** A line with no whitespace at its ends is parsed as it stands. */
  lemma ParseLineBare(line: string)
    requires line == [] || (!IsSpace(line[0]) && !IsSpace(line[|line| - 1]))
    ensures ParseLine(line) ==
      if StartsWith(line, Prefix) then ParseInt(line[|Prefix|..]) else None
  {
    StripBare(line);
    ParseLineSpec(line);
  }

  /** A line that starts with the tag: the value is `int()` of everything after
      it, less the whitespace `strip()` cut from the end of the line. */
  lemma ParseLineTagged(y: string)
    ensures ParseLine(Prefix + y) == ParseInt(StripRight(y))
  {
    var x := Prefix + y;
    assert Strip(x) == Prefix + StripRight(y) by {
      assert x[0] == 'M';
      assert StripLeft(x) == x;
      StripRightAfter(Prefix, y);
    }
    AppendParts(Prefix, StripRight(y));
    ParseLineSpec(x);
  }

  /** The tag followed by a payload that does not end in whitespace: the value is `int()` of the payload. */
  lemma ParseLineTaggedBare(y: string)
    requires y == [] || !IsSpace(y[|y| - 1])
    ensures ParseLine(Prefix + y) == ParseInt(y)
  {
    var x := Prefix + y;
    AppendParts(Prefix, y);
    assert x[0] == 'M';
    assert x[|x| - 1] == if y == [] then ':' else y[|y| - 1];
    ParseLineBare(x);
  }

  /** Every reading formatted as `MQ2:` and `str(n)` is read back, whatever its
      sign or size, with whitespace around the line and whitespace `int()` skips
      between the tag and the number. */
  lemma ParseLineRoundTrip(a: string, w: string, n: int, b: string)
    requires AllSpace(a) && AllIntSpace(w) && AllSpace(b)
    ensures ParseLine(a + Prefix + w + FormatInt(n) + b) == Some(n)
  {
    var y := w + FormatInt(n);
    RegroupLine(a, w, FormatInt(n), b);
    ParseLinePadded(a, Prefix + y, b);
    FormattedTagged(w, n);
    FormatIntParses(w, n);
  }

  lemma RegroupLine(a: string, w: string, f: string, b: string)
    ensures a + Prefix + w + f + b == a + (Prefix + (w + f)) + b
  {
  }

  /** `str(n)` ends in a digit, so nothing behind the tag is stripped. */
  lemma FormattedTagged(w: string, n: int)
    ensures ParseLine(Prefix + (w + FormatInt(n))) == ParseInt(w + FormatInt(n))
  {
    var y := w + FormatInt(n);
    var d := Decimal(if n < 0 then -n else n);
    assert y[|y| - 1] == d[|d| - 1];
    ParseLineTaggedBare(y);
  }

  /** Every integer literal `int()` accepts is read after the tag: signed or not,
      of any size, with leading zeros, underscores between digits, whitespace
      `int()` skips between the tag and the number, and whitespace around the line. */
  lemma ParseLineComplete(a: string, l: Literal, b: string)
    requires AllSpace(a) && AllSpace(b) && ValidLiteral(l)
    ensures ParseLine(a + Prefix + Render(l) + b) == Some(LiteralValue(l))
  {
    DropTrail(a, l, b);
    CoreValue(l);
  }

  /** The whitespace behind the literal and the line is all cut by `strip()`. */
  lemma DropTrail(a: string, l: Literal, b: string)
    requires AllSpace(a) && AllSpace(b) && ValidLiteral(l)
    ensures ParseLine(a + Prefix + Render(l) + b) == ParseLine(Prefix + Render(l.(trail := "")))
  {
    var core := l.(trail := "");
    assert Render(l) == Render(core) + l.trail;
    assert a + Prefix + Render(l) + b == a + (Prefix + Render(core)) + (l.trail + b);
    assert AllSpace(l.trail + b) by {
      assert AllSpace(l.trail);
      AllSpaceAppend(l.trail, b);
    }
    ParseLinePadded(a, Prefix + Render(core), l.trail + b);
  }

  /** The tag and a literal with nothing behind it read as the literal's value. */
  lemma CoreValue(l: Literal)
    requires ValidLiteral(l)
    ensures ParseLine(Prefix + Render(l.(trail := ""))) == Some(LiteralValue(l))
  {
    CoreTagged(l);
    CoreParses(l);
  }

  lemma CoreTagged(l: Literal)
    requires ValidLiteral(l)
    ensures ParseLine(Prefix + Render(l.(trail := ""))) == ParseInt(Render(l.(trail := "")))
  {
    var core := l.(trail := "");
    RenderEndsInDigit(core);
    ParseLineTaggedBare(Render(core));
  }

  lemma CoreParses(l: Literal)
    requires ValidLiteral(l)
    ensures ParseInt(Render(l.(trail := ""))) == Some(LiteralValue(l))
  {
    TrailFree(l);
    ParseIntComplete(l.(trail := ""));
  }

  /** A literal without its trailing whitespace is still well formed, with the same value. */
  lemma TrailFree(l: Literal)
    requires ValidLiteral(l)
    ensures ValidLiteral(l.(trail := "")) && LiteralValue(l.(trail := "")) == LiteralValue(l)
  {
  }

  /** Without trailing whitespace a literal ends in a digit. */
  lemma RenderEndsInDigit(l: Literal)
    requires ValidLiteral(l) && l.trail == ""
    ensures |Render(l)| > 0 && IsDigit(Render(l)[|Render(l)| - 1])
  {
    var ds := l.digits;
    assert IsDigit(ds[|ds| - 1]) by {
      assert !(|ds| - 1 + 1 < |ds|);
    }
    assert Render(l) == l.lead + SignText(l.sign) + ds;
  }

  /** A line is read only if, once stripped, it is the tag followed by such a literal. */
  lemma ParseLineSound(line: string)
    ensures ParseLine(line).Some? ==>
      exists l :: ValidLiteral(l) && Strip(line) == Prefix + Render(l) && LiteralValue(l) == ParseLine(line).value
  {
    if ParseLine(line).Some? {
      ParseLineSpec(line);
      TaggedLiteral(Strip(line), ParseLine(line).value);
    }
  }

  lemma TaggedLiteral(t: string, v: int)
    requires StartsWith(t, Prefix) && ParseInt(t[|Prefix|..]) == Some(v)
    ensures exists l :: ValidLiteral(l) && t == Prefix + Render(l) && LiteralValue(l) == v
  {
    var payload := t[|Prefix|..];
    assert t == Prefix + payload by {
      assert t == t[..|Prefix|] + payload;
    }
    var l := Decompose(payload);
    assert ValidLiteral(l) && Render(l) == payload && LiteralValue(l) == v;
  }

  /** `FormatLine` is read back by `ReadLine`, stamped with the time of reading. */
  lemma ReadLineRoundTrip(n: int, now: Timestamp)
    ensures ReadLine(FormatLine(n), now) == Some(GasReading(n, now))
  {
    FormattedTagged("", n);
    assert "" + FormatInt(n) == FormatInt(n);
    FormatIntParses("", n);
  }

  /** A payload holding a character no integer literal contains, a second colon
      or a decimal point among them, is rejected. */
  lemma ParseLineForeignChar(line: string, i: nat)
    requires StartsWith(Strip(line), Prefix)
    requires var payload := Strip(line)[|Prefix|..];
      i < |payload| && !IsIntSpace(payload[i]) && !IsDigit(payload[i]) && payload[i] !in "_+-"
    ensures ParseLine(line) == None
  {
    ParseLineSpec(line);
    ParseIntForeignChar(Strip(line)[|Prefix|..], i);
  }

  /** A tag with nothing but whitespace after it carries no value. */
  lemma ParseLineEmptyPayload(line: string)
    requires StartsWith(Strip(line), Prefix) && AllSpace(Strip(line)[|Prefix|..])
    ensures ParseLine(line) == None
  {
    ParseLineSpec(line);
    ParseIntBlank(Strip(line)[|Prefix|..]);
  }

  lemma AppendParts(p: string, y: string)
    ensures (p + y)[..|p|] == p && (p + y)[|p|..] == y
  {
  }

  /** The tag is matched exactly: a line that starts with any other four
      characters, the first of them not whitespace, is no reading. */
  lemma ParseLineOtherTag(p: string, y: string)
    requires |p| == |Prefix| && p != Prefix && !IsSpace(p[0])
    ensures ParseLine(p + y) == None
  {
    var t := Strip(p + y);
    StripFront(p + y);
    assert (p + y)[..|p|] == p;
    assert !StartsWith(t, Prefix) by {
      if |p| <= |t| {
        assert t[..|p|] == p;
      }
    }
  }

  /** The tag is case-sensitive: `mq2:5` is no reading. */
  lemma LowerCaseTag(y: string)
    ensures ParseLine("mq2:" + y) == None
  {
    assert "mq2:"[0] != Prefix[0];
    ParseLineOtherTag("mq2:", y);
  }

  /** The colon belongs to the tag: `MQ2 5` is no reading. */
  lemma TagWithoutColon(y: string)
    ensures ParseLine("MQ2 " + y) == None
  {
    assert "MQ2 "[3] != Prefix[3];
    ParseLineOtherTag("MQ2 ", y);
  }

  /** Only the first colon splits the line: a payload holding a second colon is no integer. */
  lemma ParseLineSecondColon(x: string, y: string)
    ensures ParseLine(Prefix + x + ":" + y) == None
  {
    ColonParts(x, y);
    ParseLineTagged(x + ":" + y);
    ColonPayload(x, StripRight(y));
  }

  lemma ColonParts(x: string, y: string)
    ensures Prefix + x + ":" + y == Prefix + (x + ":" + y)
    ensures StripRight(x + ":" + y) == x + ":" + StripRight(y)
  {
    StripRightAfter(x + ":", y);
  }

  lemma ColonPayload(x: string, y: string)
    ensures ParseInt(x + ":" + y) == None
  {
    var payload := x + ":" + y;
    assert payload[|x|] == ':';
    ParseIntForeignChar(payload, |x|);
  }

  /** A negative reading: `MQ2:-7` gives `-7`. */
  lemma NegativeReading()
    ensures ParseLine(Prefix + "-7") == Some(-7)
  {
    var l := Literal("", Minus, "7", "");
    assert ValidLiteral(l) by {
      assert IsDigitGroups("7");
    }
    assert LiteralValue(l) == -7 by {
      assert DropUnderscores("7") == "7";
      assert "7"[..0] == [];
    }
    assert Render(l) == "-7";
    assert l.(trail := "") == l;
    CoreValue(l);
  }

  /** An explicit plus sign is accepted: `MQ2:+12` gives `12`. */
  lemma PlusSignReading()
    ensures ParseLine(Prefix + "+12") == Some(12)
  {
    var l := Literal("", Plus, "12", "");
    assert ValidLiteral(l) by {
      assert IsDigitGroups("12");
    }
    assert LiteralValue(l) == 12 by {
      assert DropUnderscores("12") == "12" by {
        DropUnderscoresNone("12");
      }
      assert "12"[..1] == "1" && "1"[..0] == [];
    }
    assert Render(l) == "+12";
    assert l.(trail := "") == l;
    CoreValue(l);
  }

  /** `strip()` removes an information separator (U+001C..U+001F), but `int()`
      does not skip one: between the tag and the number it makes the line no reading. */
  lemma SeparatorBeforeValue(c: char, x: string)
    requires IsSeparator(c) && x != [] && !IsSpace(x[|x| - 1])
    ensures ParseLine(Prefix + [c] + x) == None
  {
    var y := [c] + x;
    assert Prefix + [c] + x == Prefix + y;
    assert ParseInt(y) == None by {
      assert y[0] == c && !IsIntSpace(c);
      ParseIntForeignChar(y, 0);
    }
    assert y[|y| - 1] == x[|x| - 1];
    ParseLineTaggedBare(y);
  }

  /** At the end of the line the same separator is cut by `strip()`: `MQ2:5` and
      a separator read as `5`. */
  lemma SeparatorAfterValue()
    ensures ParseLine(Prefix + "5\U{1C}") == Some(5)
  {
    var l := Literal("", NoSign, "5", "");
    assert ValidLiteral(l) by {
      assert IsDigitGroups("5");
    }
    assert LiteralValue(l) == 5 by {
      assert DropUnderscores("5") == "5";
      assert "5"[..0] == [];
    }
    assert "" + Prefix + Render(l) + "\U{1C}" == Prefix + "5\U{1C}";
    ParseLineComplete("", l, "\U{1C}");
  }
}
