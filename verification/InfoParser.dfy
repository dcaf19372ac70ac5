/** The line parser for a GPU's `information` file. */
module InfoParser {
  import opened Sequences
  import opened CStrings
  import opened Decimal
  import opened Topology
  import ProcPaths

  /** The three fields a line can set, and the text that announces each. */
  datatype Key = Uuid | Bus | Minor {
    function Text(): string {
      match this
      case Uuid => "GPU UUID:"
      case Bus => "Bus Location:"
      case Minor => "Device Minor:"
    }
  }

  // ----- trimming

  predicate IsBlank(c: char) {
    c == ' ' || c == '\t' || c == '\r' || c == '\n'
  }

  ghost predicate AllBlank(s: string) {
    forall i :: 0 <= i < |s| ==> IsBlank(s[i])
  }

  ghost predicate IsTrimmed(s: string) {
    s == [] || (!IsBlank(s[0]) && !IsBlank(s[|s| - 1]))
  }

  ghost function Trimmed(s: string): string {
    if s == [] then []
    else if IsBlank(s[0]) then Trimmed(s[1..])
    else if IsBlank(s[|s| - 1]) then Trimmed(s[..|s| - 1])
    else s
  }

  method TrimSlice(s: string) returns (r: string)
    ensures r == Trimmed(s)
  {
    var cursor, remaining := 0, |s|;
    while remaining > 0 && IsBlank(s[cursor])
      invariant 0 <= cursor && 0 <= remaining && cursor + remaining == |s|
      invariant Trimmed(s[cursor..]) == Trimmed(s)
    {
      assert s[cursor..][1..] == s[cursor + 1..];
      cursor, remaining := cursor + 1, remaining - 1;
    }
    assert s[cursor..cursor + remaining] == s[cursor..];
    while remaining > 0 && IsBlank(s[cursor + remaining - 1])
      invariant 0 <= remaining && cursor + remaining <= |s|
      invariant remaining > 0 ==> !IsBlank(s[cursor])
      invariant Trimmed(s[cursor..cursor + remaining]) == Trimmed(s)
    {
      ghost var v := s[cursor..cursor + remaining];
      assert v[..|v| - 1] == s[cursor..cursor + remaining - 1];
      remaining := remaining - 1;
    }
    return s[cursor..cursor + remaining];
  }

  /** Trimming removes exactly the blanks around a trimmed text. */
  lemma {:induction false} TrimPadded(before: string, v: string, after: string)
    requires AllBlank(before) && IsTrimmed(v) && AllBlank(after)
    ensures Trimmed(before + v + after) == v
    decreases |before| + |after|
  {
    var s := before + v + after;
    if before != [] {
      assert s[1..] == before[1..] + v + after;
      TrimPadded(before[1..], v, after);
    } else if after != [] && v != [] {
      assert s[..|s| - 1] == before + v + after[..|after| - 1];
      TrimPadded(before, v, after[..|after| - 1]);
    } else if after != [] {
      assert s[1..] == before + v + after[1..];
      TrimPadded(before, v, after[1..]);
    } else {
      assert s == v;
    }
  }

  // ----- one line

  function WithoutCr(line: string): string {
    if line != [] && line[|line| - 1] == '\r' then line[..|line| - 1] else line
  }

  /** The trimmed text after a key at the start of the line. */
  ghost function ValueOf(line: string, key: Key): Option<string> {
    var l := WithoutCr(line);
    if key.Text() <= l then Some(Trimmed(l[|key.Text()|..])) else None
  }

  ghost predicate Unkeyed(line: string) {
    forall key :: ValueOf(line, key) == None
  }

  ghost predicate ValueFits(key: Key, v: string) {
    match key
    case Uuid => |v| < UUID_MAX
    case Bus => 1 <= |v| < BUS_ID_MAX
    case Minor => Parsed(v).Some?
  }

  ghost predicate FieldFits(line: string, key: Key) {
    ValueOf(line, key).Some? ==> ValueFits(key, ValueOf(line, key).value)
  }

  ghost predicate WellFormed(line: string) {
    forall key :: FieldFits(line, key)
  }

  method ValueAfterKey(line: string, key: string) returns (v: Option<string>)
    ensures v == if key <= line then Some(Trimmed(line[|key|..])) else None
  {
    if !(key <= line) {
      return None;
    }
    var t := TrimSlice(line[|key|..]);
    return Some(t);
  }

  // ----- the whole file

  /** The value on the last line that carries a key. */
  ghost function LastValue(lines: seq<string>, key: Key): Option<string> {
    if lines == [] then None
    else if ValueOf(lines[|lines| - 1], key).Some? then ValueOf(lines[|lines| - 1], key)
    else LastValue(lines[..|lines| - 1], key)
  }

  ghost predicate AllWellFormed(lines: seq<string>) {
    forall l :: l in lines ==> WellFormed(l)
  }

  ghost function BusFrom(lines: seq<string>, path: Option<string>): Option<string> {
    if LastValue(lines, Bus).Some? then LastValue(lines, Bus)
    else if path.Some? then ProcPaths.BusOf(path.value) else None
  }

  /** What an information file says, read off its lines without regard to their order. */
  ghost function Meaning(path: Option<string>, lines: seq<string>): Option<GpuInfo> {
    if !AllWellFormed(lines) || LastValue(lines, Minor) == None || BusFrom(lines, path) == None then None
    else
      LastFits(lines, Minor);
      Some(GpuInfo(true, Parsed(LastValue(lines, Minor).value).value, BusFrom(lines, path).value,
                   if LastValue(lines, Uuid).Some? then LastValue(lines, Uuid).value else ""))
  }

  lemma {:induction false} LastFits(lines: seq<string>, key: Key)
    requires AllWellFormed(lines)
    ensures LastValue(lines, key).Some? ==> ValueFits(key, LastValue(lines, key).value)
  {
    if lines != [] {
      var last := lines[|lines| - 1];
      assert last in lines && FieldFits(last, key);
      assert forall l :: l in lines[..|lines| - 1] ==> l in lines;
      LastFits(lines[..|lines| - 1], key);
    }
  }

  /** No line carries two keys: each starts with a different letter. */
  lemma OneKey(line: string, key: Key, other: Key)
    requires key != other
    requires ValueOf(line, key).Some?
    ensures ValueOf(line, other) == None
  {
    var l := WithoutCr(line);
    assert l[0] == key.Text()[0];
    assert other.Text()[0] != key.Text()[0];
  }

  /** A field holds the value of its last line, or is still as it was initialised. */
  ghost predicate FieldIs(info: GpuInfo, key: Key, v: Option<string>) {
    match key
    case Uuid => info.uuid == if v.Some? then v.value else ""
    case Bus => info.busId == if v.Some? then v.value else ""
    case Minor => info.deviceMinor == if v.Some? && Parsed(v.value).Some? then Parsed(v.value).value else -1
  }

  ghost predicate Reflects(info: GpuInfo, lines: seq<string>) {
    forall key :: FieldIs(info, key, LastValue(lines, key))
  }

  /** The parser's state after some lines: its sticky verdict, and the fields while it stands. */
  ghost predicate Accumulated(ok: bool, info: GpuInfo, lines: seq<string>) {
    (ok <==> AllWellFormed(lines)) && (ok ==> Reflects(info, lines)) && !info.present
  }

  lemma AccumulateLine(lines: seq<string>, line: string)
    ensures (lines + [line])[..|lines|] == lines
    ensures AllWellFormed(lines + [line]) <==> AllWellFormed(lines) && WellFormed(line)
  {
    if AllWellFormed(lines + [line]) {
      assert line in lines + [line];
      assert forall l :: l in lines ==> l in lines + [line];
    }
  }

  /** One iteration of the loop body: fill in a field, or record a malformed value. */
  method ReadLine(line: string, ok: bool, info: GpuInfo, ghost before: seq<string>)
      returns (ok': bool, info': GpuInfo)
    requires Accumulated(ok, info, before)
    ensures Accumulated(ok', info', before + [line])
  {
    AccumulateLine(before, line);
    ok', info' := ok, info;
    var l := WithoutCr(line);
    var v := ValueAfterKey(l, Key.Uuid.Text());
    if v.Some? {
      OneKey(line, Uuid, Bus);
      OneKey(line, Uuid, Minor);
      if |v.value| >= UUID_MAX {
        ok' := false;
      } else {
        info' := info.(uuid := v.value);
      }
      assert ok' == (ok && FieldFits(line, Uuid));
      return;
    }
    v := ValueAfterKey(l, Key.Bus.Text());
    if v.Some? {
      OneKey(line, Bus, Minor);
      if |v.value| == 0 || |v.value| >= BUS_ID_MAX {
        ok' := false;
      } else {
        info' := info.(busId := v.value);
      }
      assert ok' == (ok && FieldFits(line, Bus));
      return;
    }
    v := ValueAfterKey(l, Key.Minor.Text());
    if v.Some? {
      var minor := ParseNonnegativeInt(v.value);
      if minor.None? {
        ok' := false;
      } else {
        info' := info.(deviceMinor := minor.value);
      }
    }
    assert ok' == (ok && FieldFits(line, Minor));
  }

  /** The lines the loop visits: a newline at the very end does not open another line. */
  ghost function VisitedLines(s: string): seq<string> {
    WithoutLastEmpty(Split(s, '\n'))
  }

  ghost function WithoutLastEmpty(lines: seq<string>): seq<string>
    requires lines != []
  {
    if lines[|lines| - 1] == "" then lines[..|lines| - 1] else lines
  }

  /** Reading the line at [offset, next) and the newline after it, if there is one. */
  lemma NextLine(t: string, offset: nat, next: nat)
    requires offset <= next <= |t| && offset < |t| && '\n' !in t[offset..next]
    requires next < |t| ==> t[next] == '\n'
    ensures VisitedLines(t[offset..]) ==
            [t[offset..next]] + VisitedLines(if next < |t| then t[next + 1..] else "")
  {
    var line := t[offset..next];
    if next < |t| {
      assert t[offset..] == line + ['\n'] + t[next + 1..];
      SplitHead(line, t[next + 1..], '\n');
    } else {
      assert t[offset..] == line;
      SplitPiece(line, '\n');
    }
  }

  /** Finds the end of the line that starts at offset, and steps over the newline there. */
  method TakeLine(t: string, offset: nat) returns (line: string, after: nat)
    requires offset < |t|
    ensures offset < after <= |t|
    ensures VisitedLines(t[offset..]) == [line] + VisitedLines(t[after..])
  {
    var next := offset;
    while next < |t| && t[next] != '\n'
      invariant offset <= next <= |t|
      invariant forall k :: offset <= k < next ==> t[k] != '\n'
    {
      next := next + 1;
    }
    NextLine(t, offset, next);
    line, after := t[offset..next], next;
    if after < |t| && t[after] == '\n' {
      after := after + 1;
    } else {
      assert t[after..] == "";
    }
  }

  /** The scan over the text's lines. */
  method ReadLines(t: string) returns (ok: bool, info: GpuInfo)
    ensures Accumulated(ok, info, Split(t, '\n'))
  {
    hide Split, VisitedLines, ValueOf, WellFormed;
    ok, info := true, GpuInfo(false, -1, "", "");
    ghost var done: seq<string> := [];
    var offset := 0;
    assert t[0..] == t;
    while offset < |t|
      invariant 0 <= offset <= |t|
      invariant VisitedLines(t) == done + VisitedLines(t[offset..])
      invariant Accumulated(ok, info, done)
    {
      var line, after := TakeLine(t, offset);
      ok, info := ReadLine(line, ok, info, done);
      done, offset := done + [line], after;
    }
    NoLines();
    assert t[offset..] == "" && done + [] == done;
    VisitedAll(t, ok, info);
  }

  lemma NoLines()
    ensures VisitedLines("") == []
  {
  }

  lemma VisitedAll(t: string, ok: bool, info: GpuInfo)
    requires Accumulated(ok, info, VisitedLines(t))
    ensures Accumulated(ok, info, Split(t, '\n'))
  {
    LastNewline(Split(t, '\n'), ok, info);
  }

  /** A newline at the very end of the text changes nothing. */
  lemma LastNewline(lines: seq<string>, ok: bool, info: GpuInfo)
    requires lines != [] && Accumulated(ok, info, WithoutLastEmpty(lines))
    ensures Accumulated(ok, info, lines)
  {
    var visited := WithoutLastEmpty(lines);
    if lines != visited {
      assert lines == visited + [""];
      AccumulateLine(visited, "");
      assert ValueOf("", Uuid) == ValueOf("", Bus) == ValueOf("", Minor) == None;
    }
  }

  method ParseGpuInformation(path: Option<string>, text: Option<string>) returns (result: bool, info: GpuInfo)
    ensures text.None? ==> !result
    ensures text.Some? ==> Meaning(path, Split(text.value, '\n')) == if result then Some(info) else None
    ensures info.present == result
  {
    info := GpuInfo(false, -1, "", "");
    if text.None? {
      return false, info;
    }
    ghost var lines := Split(text.value, '\n');
    var ok;
    ok, info := ReadLines(text.value);
    if ok {
      LastFits(lines, Minor);
      LastFits(lines, Bus);
      if info.busId == "" {
        var bus := ProcPaths.ExtractProcBus(path);
        if bus.None? {
          ok := false;
        } else {
          info := info.(busId := bus.value);
        }
      }
    }
    info := info.(present := ok && info.deviceMinor >= 0 && info.busId != "");
    result := ok && info.present;
  }
}
