/** What the information-file parser promises its readers: order independence and a round trip. */
module InfoLaws {
  import opened Sequences
  import opened CStrings
  import opened Decimal
  import opened Topology
  import opened InfoParser
  import ProcPaths

  lemma {:induction false} LastValueAppend(a: seq<string>, b: seq<string>, key: Key)
    ensures LastValue(a + b, key) == if LastValue(b, key).Some? then LastValue(b, key) else LastValue(a, key)
  {
    if b == [] {
      assert a + b == a;
    } else {
      assert (a + b)[..|a + b| - 1] == a + b[..|b| - 1];
      LastValueAppend(a, b[..|b| - 1], key);
    }
  }

  lemma SwapLast(x: string, y: string, key: Key)
    requires ValueOf(x, key) == None || ValueOf(y, key) == None
    ensures LastValue([x, y], key) == LastValue([y, x], key)
  {
    LastValueAppend([x], [y], key);
    LastValueAppend([y], [x], key);
    assert [x] + [y] == [x, y] && [y] + [x] == [y, x];
  }

  /** Swapping adjacent lines that do not carry the same key never changes the outcome. */
  lemma SwapLines(path: Option<string>, a: seq<string>, x: string, y: string, b: seq<string>)
    requires SepFree(a + [x, y] + b, '\n')
    requires forall key :: ValueOf(x, key) == None || ValueOf(y, key) == None
    ensures Meaning(path, Split(Join(a + [x, y] + b, '\n'), '\n')) ==
            Meaning(path, Split(Join(a + [y, x] + b, '\n'), '\n'))
  {
    var before, after := a + [x, y] + b, a + [y, x] + b;
    forall l ensures l in before <==> l in after {
      assert l in before <==> l in a || l == x || l == y || l in b;
      assert l in after <==> l in a || l == x || l == y || l in b;
    }
    SplitJoin(before, '\n');
    SplitJoin(after, '\n');
    forall key ensures LastValue(before, key) == LastValue(after, key) {
      SwapLast(x, y, key);
      LastValueAppend(a, [x, y], key);
      LastValueAppend(a, [y, x], key);
      LastValueAppend(a + [x, y], b, key);
      LastValueAppend(a + [y, x], b, key);
    }
    SameMeaning(path, before, after);
  }

  lemma SameMeaning(path: Option<string>, lines: seq<string>, others: seq<string>)
    requires forall l :: l in lines <==> l in others
    requires forall key :: LastValue(lines, key) == LastValue(others, key)
    ensures Meaning(path, lines) == Meaning(path, others)
  {
    assert AllWellFormed(lines) <==> AllWellFormed(others);
    assert LastValue(lines, Bus) == LastValue(others, Bus);
    assert LastValue(lines, Minor) == LastValue(others, Minor);
    assert LastValue(lines, Uuid) == LastValue(others, Uuid);
  }

  // ----- printing a record and parsing it back

  ghost predicate Printable(info: GpuInfo) {
    info.present && info.deviceMinor >= 0 &&
    IsTrimmed(info.uuid) && |info.uuid| < UUID_MAX &&
    IsTrimmed(info.busId) && 1 <= |info.busId| < BUS_ID_MAX
  }

  ghost function FieldText(info: GpuInfo, key: Key): string
    requires info.deviceMinor >= 0
  {
    match key
    case Uuid => info.uuid
    case Bus => info.busId
    case Minor => Printed(info.deviceMinor as nat)
  }

  /** A line printing one field: padding on both sides, and possibly a carriage return. */
  ghost predicate PrintsField(line: string, info: GpuInfo, key: Key)
    requires info.deviceMinor >= 0
  {
    exists before, after :: AllBlank(before) && AllBlank(after) &&
                            line == key.Text() + before + FieldText(info, key) + after
  }

  ghost predicate Prints(lines: seq<string>, info: GpuInfo, key: Key)
    requires info.deviceMinor >= 0
  {
    exists l :: l in lines && PrintsField(l, info, key)
  }

  lemma FieldTextTrimmed(info: GpuInfo, key: Key)
    requires Printable(info)
    ensures IsTrimmed(FieldText(info, key)) && ValueFits(key, FieldText(info, key))
  {
    if key == Minor {
      ParseInvertsPrint(info.deviceMinor as nat);
      NumeralTrimmed(Printed(info.deviceMinor as nat));
    }
  }

  lemma NumeralTrimmed(s: string)
    requires Parsed(s).Some?
    ensures IsTrimmed(s)
  {
    assert IsDigit(s[0]) && IsDigit(s[|s| - 1]);
  }

  /** Stripping a carriage return and trimming leaves the printed value. */
  lemma PaddedText(head: string, before: string, v: string, after: string)
    requires head != [] && head[|head| - 1] != '\r'
    requires AllBlank(before) && IsTrimmed(v) && AllBlank(after)
    ensures var l := WithoutCr(head + (before + v + after));
            head <= l && Trimmed(l[|head|..]) == v
  {
    var text := before + v + after;
    var l := WithoutCr(head + text);
    if l == head + text {
      assert l[|head|..] == text;
      TrimPadded(before, v, after);
    } else if after != [] {
      assert l[|head|..] == before + v + after[..|after| - 1];
      TrimPadded(before, v, after[..|after| - 1]);
    } else {
      assert text != [] && v == [];
      assert l[|head|..] == before[..|before| - 1] + v + after;
      TrimPadded(before[..|before| - 1], v, after);
    }
  }

  lemma PaddedValue(key: Key, before: string, v: string, after: string)
    requires AllBlank(before) && IsTrimmed(v) && AllBlank(after)
    ensures ValueOf(key.Text() + before + v + after, key) == Some(v)
  {
    PaddedText(key.Text(), before, v, after);
    assert key.Text() + before + v + after == key.Text() + (before + v + after);
  }

  lemma PrintedLine(line: string, info: GpuInfo, key: Key)
    requires Printable(info) && PrintsField(line, info, key)
    ensures ValueOf(line, key) == Some(FieldText(info, key)) && WellFormed(line)
    ensures forall other :: other != key ==> ValueOf(line, other) == None
  {
    FieldTextTrimmed(info, key);
    var before, after :| AllBlank(before) && AllBlank(after) &&
                         line == key.Text() + before + FieldText(info, key) + after;
    PaddedValue(key, before, FieldText(info, key), after);
    forall other | other != key ensures ValueOf(line, other) == None {
      OneKey(line, key, other);
    }
  }

  lemma {:induction false} OnlyValue(lines: seq<string>, key: Key, v: string)
    requires forall l :: l in lines ==> ValueOf(l, key) == None || ValueOf(l, key) == Some(v)
    ensures LastValue(lines, key) == if exists l :: l in lines && ValueOf(l, key).Some? then Some(v) else None
  {
    if lines != [] {
      var front, last := lines[..|lines| - 1], lines[|lines| - 1];
      assert lines == front + [last];
      assert last in lines;
      assert forall l :: l in front ==> l in lines;
      OnlyValue(front, key, v);
    }
  }

  /**
   Any file that prints a record's fields, each at least once and in any order, with blank padding,
   LF or CRLF line ends and other lines in between, parses back to that record from any path.
   */
  lemma RoundTrip(path: Option<string>, info: GpuInfo, lines: seq<string>)
    requires Printable(info) && lines != [] && SepFree(lines, '\n')
    requires forall l :: l in lines ==> Unkeyed(l) || exists key :: PrintsField(l, info, key)
    requires forall key :: Prints(lines, info, key)
    ensures Meaning(path, Split(Join(lines, '\n'), '\n')) == Some(info)
  {
    hide ValueOf, WellFormed, PrintsField, Unkeyed, Printed, Split, Join, LastValue, Parsed;
    SplitJoin(lines, '\n');
    PrintedFile(info, lines, Uuid);
    PrintedFile(info, lines, Bus);
    PrintedFile(info, lines, Minor);
    forall l | l in lines ensures WellFormed(l) {
      PrintedFileLine(l, info);
    }
    ParseInvertsPrint(info.deviceMinor as nat);
  }

  lemma PrintedFileLine(l: string, info: GpuInfo)
    requires Printable(info) && (Unkeyed(l) || exists key :: PrintsField(l, info, key))
    ensures WellFormed(l)
  {
    if exists key :: PrintsField(l, info, key) {
      var key :| PrintsField(l, info, key);
      PrintedLine(l, info, key);
    }
  }

  lemma PrintedFile(info: GpuInfo, lines: seq<string>, key: Key)
    requires Printable(info)
    requires forall l :: l in lines ==> Unkeyed(l) || exists k :: PrintsField(l, info, k)
    requires Prints(lines, info, key)
    ensures LastValue(lines, key) == Some(FieldText(info, key))
  {
    hide ValueOf, PrintsField, FieldText;
    forall l | l in lines ensures ValueOf(l, key) == None || ValueOf(l, key) == Some(FieldText(info, key)) {
      if !Unkeyed(l) {
        var k :| PrintsField(l, info, k);
        PrintedLine(l, info, k);
      }
    }
    OnlyValue(lines, key, FieldText(info, key));
    var l :| l in lines && PrintsField(l, info, key);
    PrintedLine(l, info, key);
  }

  // ----- files as the driver writes them

  ghost predicate Spaces(s: string) {
    forall c :: c in s ==> c == ' ' || c == '\t' || c == '\r'
  }

  /** Text within one line, with no blank at either end. */
  ghost predicate FieldValue(v: string) {
    '\n' !in v &&
    (v != "" ==> v[0] !in [' ', '\t', '\r'] && v[|v| - 1] !in [' ', '\t', '\r'])
  }

  ghost predicate OtherLine(line: string) {
    '\n' !in line && !("GPU UUID:" <= line) && !("Bus Location:" <= line) && !("Device Minor:" <= line)
  }

  lemma LastValueSnoc(lines: seq<string>, line: string, key: Key)
    ensures LastValue(lines + [line], key) ==
            if ValueOf(line, key).Some? then ValueOf(line, key) else LastValue(lines, key)
  {
    assert (lines + [line])[..|lines|] == lines;
  }

  /** One line of a file: what it adds to each field, and whether it is well formed. */
  lemma AddLine(lines: seq<string>, line: string)
    ensures forall key :: LastValue(lines + [line], key) ==
                          if ValueOf(line, key).Some? then ValueOf(line, key) else LastValue(lines, key)
    ensures AllWellFormed(lines + [line]) <==> AllWellFormed(lines) && WellFormed(line)
  {
    AccumulateLine(lines, line);
    forall key
      ensures LastValue(lines + [line], key) ==
              if ValueOf(line, key).Some? then ValueOf(line, key) else LastValue(lines, key)
    {
      LastValueSnoc(lines, line, key);
    }
  }

  lemma OtherAdds(line: string)
    requires OtherLine(line)
    ensures WellFormed(line) && forall key :: ValueOf(line, key) == None
  {
    forall key ensures ValueOf(line, key) == None {
      assert WithoutCr(line) <= line;
      assert !(Key.Uuid.Text() <= line) && !(Key.Bus.Text() <= line) && !(Key.Minor.Text() <= line);
    }
  }

  lemma SpacesAreBlank(s: string)
    requires Spaces(s)
    ensures AllBlank(s) && '\n' !in s
  {
    assert forall i :: 0 <= i < |s| ==> s[i] in s;
  }

  lemma FieldValueTrimmed(v: string)
    requires FieldValue(v)
    ensures IsTrimmed(v) && '\n' !in v
  {
    assert v != "" ==> v[0] in v && v[|v| - 1] in v;
  }

  lemma FieldAdds(line: string, key: Key, before: string, v: string, after: string)
    requires Spaces(before) && Spaces(after) && FieldValue(v) && line == key.Text() + before + v + after
    ensures ValueOf(line, key) == Some(v) && forall other :: other != key ==> ValueOf(line, other) == None
    ensures WellFormed(line) <==> ValueFits(key, v)
    ensures '\n' !in line
  {
    hide ValueOf, AllBlank, IsTrimmed, Spaces, FieldValue;
    SpacesAreBlank(before);
    SpacesAreBlank(after);
    FieldValueTrimmed(v);
    PaddedValue(key, before, v, after);
    forall other | other != key ensures ValueOf(line, other) == None {
      OneKey(line, key, other);
    }
    if ValueFits(key, v) {
      assert forall other :: FieldFits(line, other);
    } else {
      assert !FieldFits(line, key);
    }
  }

  lemma SplitLines(lines: seq<string>, line: string, text: string)
    requires '\n' !in line && Split(text, '\n') == lines
    ensures Split(line + "\n" + text, '\n') == [line] + lines
  {
    SplitHead(line, text, '\n');
  }

  /** A file with the three fields, each padded: the outcome in every case.  A CR before the LF is padding. */
  lemma LiteralFile(path: Option<string>, before: string, after: string, uuid: string, bus: string, minor: string)
    requires Spaces(before) && Spaces(after)
    requires FieldValue(uuid) && FieldValue(bus) && FieldValue(minor)
    ensures var text := "GPU UUID:" + before + uuid + after + "\n" +
                        ("Bus Location:" + before + bus + after + "\n" +
                        ("Device Minor:" + before + minor + after + "\n" + ""));
            Meaning(path, Split(text, '\n')) ==
            if |uuid| < 96 && 1 <= |bus| < 32 && Parsed(minor).Some?
            then Some(GpuInfo(true, Parsed(minor).value, bus, uuid)) else None
  {
    hide ValueOf, WellFormed, FieldValue, Split, LastValue, Parsed, AllWellFormed;
    var l1, l2 := "GPU UUID:" + before + uuid + after, "Bus Location:" + before + bus + after;
    var l3 := "Device Minor:" + before + minor + after;
    FieldAdds(l1, Uuid, before, uuid, after);
    FieldAdds(l2, Bus, before, bus, after);
    FieldAdds(l3, Minor, before, minor, after);
    SplitPiece("", '\n');
    SplitLines([""], l3, "");
    SplitLines([l3] + [""], l2, l3 + "\n" + "");
    SplitLines([l2] + ([l3] + [""]), l1, l2 + "\n" + (l3 + "\n" + ""));
    assert [l1] + ([l2] + ([l3] + [""])) == [] + [l1] + [l2] + [l3] + [""];
    NothingRead();
    EmptyLineAdds();
    AddLine([], l1);
    AddLine([] + [l1], l2);
    AddLine([] + [l1] + [l2], l3);
    AddLine([] + [l1] + [l2] + [l3], "");
  }

  lemma NothingRead()
    ensures AllWellFormed([]) && forall key :: LastValue([], key) == None
  {
  }

  lemma OtherIsOneLine(line: string)
    requires OtherLine(line)
    ensures '\n' !in line
  {
  }

  /** A line that starts with none of the three keys changes nothing. */
  lemma OtherLineIgnored(path: Option<string>, other: string, text: string)
    requires OtherLine(other)
    ensures Meaning(path, Split(other + "\n" + text, '\n')) == Meaning(path, Split(text, '\n'))
  {
    hide ValueOf, WellFormed, Split, OtherLine, Parsed;
    var lines := Split(text, '\n');
    OtherIsOneLine(other);
    SplitLines(lines, other, text);
    OtherAdds(other);
    forall key ensures LastValue([other] + lines, key) == LastValue(lines, key) {
      LastValueAppend([other], lines, key);
      LastValueSnoc([], other, key);
      assert [] + [other] == [other];
    }
    assert forall l :: l in [other] + lines <==> l == other || l in lines;
    assert AllWellFormed([other] + lines) <==> AllWellFormed(lines);
  }

  /** A file without a minor line is never accepted. */
  lemma {:induction false} MinorNeeded(path: Option<string>, lines: seq<string>)
    requires forall l :: l in lines ==> !("Device Minor:" <= l)
    ensures LastValue(lines, Minor) == None && Meaning(path, lines) == None
  {
    if lines != [] {
      var front, last := lines[..|lines| - 1], lines[|lines| - 1];
      assert last in lines && WithoutCr(last) <= last;
      assert forall l :: l in front ==> l in lines;
      MinorNeeded(path, front);
    }
  }

  lemma EmptyLineAdds()
    ensures WellFormed("") && forall key :: ValueOf("", key) == None
  {
    OtherAdds("");
  }

  /** Without a bus line the bus is the one in the file's path, if that is an information path. */
  lemma LiteralFileWithoutBus(before: string, after: string, uuid: string, minor: string, bus: string)
    requires Spaces(before) && Spaces(after) && FieldValue(uuid) && FieldValue(minor)
    requires 1 <= |bus| < 32 && '/' !in bus
    ensures var text := "GPU UUID:" + before + uuid + after + "\n" +
                        ("Device Minor:" + before + minor + after + "\n" + "");
            var read := |uuid| < 96 && Parsed(minor).Some?;
            Meaning(None, Split(text, '\n')) == None &&
            Meaning(Some("/proc/driver/nvidia/gpus/" + bus + "/information"), Split(text, '\n')) ==
            if read then Some(GpuInfo(true, Parsed(minor).value, bus, uuid)) else None
  {
    hide ValueOf, WellFormed, FieldValue, Split, LastValue, Parsed, AllWellFormed;
    var l1, l3 := "GPU UUID:" + before + uuid + after, "Device Minor:" + before + minor + after;
    FieldAdds(l1, Uuid, before, uuid, after);
    FieldAdds(l3, Minor, before, minor, after);
    SplitPiece("", '\n');
    SplitLines([""], l3, "");
    SplitLines([l3] + [""], l1, l3 + "\n" + "");
    assert [l1] + ([l3] + [""]) == [] + [l1] + [l3] + [""];
    NothingRead();
    EmptyLineAdds();
    AddLine([], l1);
    AddLine([] + [l1], l3);
    AddLine([] + [l1] + [l3], "");
    ProcPaths.InfoPathExact("/proc/driver/nvidia/gpus/" + bus + "/information", bus);
  }
}
