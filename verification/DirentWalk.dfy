/** The filter's loop as a function of the bytes it is given, and what it does to them. */
module DirentWalk {
  import opened Sequences
  import opened CStrings
  import opened DirentRecords

  /** What the loop returns, leaves in the buffer, and the read offsets it passes through. */
  datatype Outcome = Outcome(r: nat, bytes: seq<Octet>, offsets: seq<nat>)

  /** The filter returned r and left these bytes. */
  ghost predicate SameEnd(w: Outcome, r: int, bytes: seq<Octet>) {
    w.r == r && w.bytes == bytes
  }

  /** The loop's variables: the buffer, the read offset and the write offset. */
  datatype Cursor = Cursor(b: seq<Octet>, ro: nat, wo: nat) {
    ghost predicate Valid() {
      wo <= ro
    }

    ghost predicate AtRecord() {
      Valid() && ro < |b| && HasRecord(b[ro..])
    }
  }

  /** One turn of the loop.  The length field is read again from the bytes after a move. */
  ghost function Turn(keep: Record -> bool, c: Cursor): (d: Cursor)
    requires c.AtRecord()
    ensures d.Valid() && |d.b| == |c.b| && d.ro >= c.ro
  {
    var l := LengthAt(c.b, c.ro);
    if keep(c.b[c.ro..][..l]) then
      var b' := Moved(c.b, c.wo, c.ro, l);
      Cursor(b', c.ro + LengthAt(b', c.ro), c.wo + LengthAt(b', c.ro))
    else Cursor(c.b, c.ro + l, c.wo)
  }

  /** Bytes still ahead. */
  ghost function Ahead(b: seq<Octet>, ro: nat): nat {
    if ro < |b| then |b| - ro else 0
  }

  /** Whether the length at the read offset allows another turn; a zero length there does not. */
  ghost function Readable(b: seq<Octet>, ro: nat): nat {
    if ro + HEADER <= |b| && LengthAt(b, ro) >= HEADER then 1 else 0
  }

  lemma TurnProgress(keep: Record -> bool, c: Cursor)
    requires c.AtRecord()
    ensures var d := Turn(keep, c);
            d.ro > c.ro || (d.ro == c.ro && Readable(d.b, d.ro) < Readable(c.b, c.ro))
  {
  }

  /** The whole loop, on every input: it ends when no record is ahead. */
  ghost function Walk(keep: Record -> bool, c: Cursor): (w: Outcome)
    requires c.Valid()
    ensures |w.bytes| == |c.b|
    decreases Ahead(c.b, c.ro), Readable(c.b, c.ro)
  {
    if !c.AtRecord() then Outcome(if c.ro < |c.b| then |c.b| else c.wo, c.b, [c.ro])
    else
      TurnProgress(keep, c);
      var w := Walk(keep, Turn(keep, c));
      w.(offsets := [c.ro] + w.offsets)
  }

  /** The filter on a buffer's bytes. */
  ghost function Filtering(keep: Record -> bool, b: seq<Octet>): Outcome {
    Walk(keep, Cursor(b, 0, 0))
  }

  // ----- one turn on bytes

  /** The stale bytes, between packed records and unread ones, after a kept record was copied down. */
  ghost function StaleAfter(stale: seq<Octet>, rec: Record): seq<Octet> {
    (stale + rec)[|rec|..]
  }

  lemma MoveParts(front: seq<Octet>, stale: seq<Octet>, rec: Record, later: seq<Octet>)
    ensures Moved(front + stale + (rec + later), |front|, |front| + |stale|, |rec|) ==
            (front + rec) + StaleAfter(stale, rec) + later
  {
    var b, stale' := front + stale + (rec + later), StaleAfter(stale, rec);
    var l, wo, ro := |rec|, |front|, |front| + |stale|;
    if stale == [] {
      assert stale' == [];
      assert b == (front + rec) + stale' + later;
    } else {
      assert b == front + ((stale + rec) + later);
      assert b[ro..ro + l] == rec;
      assert b[wo + l..] == ((stale + rec) + later)[l..] == stale' + later;
      assert (front + rec) + (stale' + later) == (front + rec) + stale' + later;
    }
  }

  /** What the second read of the length field sees at the old place of a record that was moved. */
  lemma RereadParts(front: seq<Octet>, stale: seq<Octet>, rec: Record, later: seq<Octet>)
    requires IsRecord(rec)
    ensures LengthAt((front + rec) + StaleAfter(stale, rec) + later, |front| + |stale|) ==
            if stale == [] then |rec| else RereadLength(rec, |stale|)
  {
    var b' := (front + rec) + StaleAfter(stale, rec) + later;
    forall k | LENGTH_AT <= k <= LENGTH_AT + 1
      ensures b'[|front| + |stale| + k] == if k + |stale| < |rec| then rec[k + |stale|] else rec[k]
    {
      if k + |stale| >= |rec| {
        var j := |stale| + k - |rec|;
        assert StaleAfter(stale, rec)[j] == (stale + rec)[|rec| + j] == rec[k];
      }
    }
  }

  // ----- the loop while it is in step with the records

  /**
   The buffer as packed records, stale bytes up to the read offset, and the unread records; visited
   are the read offsets passed so far.
   */
  datatype Progress = Progress(front: seq<Octet>, stale: seq<Octet>, rs: Records, visited: seq<nat>) {
    ghost function ReadOffset(): nat {
      |front| + |stale|
    }

    ghost function Bytes(tail: seq<Octet>): seq<Octet> {
      front + stale + (Flatten(rs) + tail)
    }

    ghost function Kept(): Progress
      requires rs.Cons?
    {
      Progress(front + rs.rec, StaleAfter(stale, rs.rec), rs.more, visited + [ReadOffset()])
    }

    ghost function Dropped(): Progress
      requires rs.Cons?
    {
      Progress(front, stale + rs.rec, rs.more, visited + [ReadOffset()])
    }
  }

  /** all and tail are what the original bytes b0 parse to. */
  ghost predicate InStep(keep: Record -> bool, b0: seq<Octet>, all: Records, tail: seq<Octet>, p: Progress) {
    AllRecords(p.rs) &&
    Flatten(Kept(keep, all)) == p.front + Flatten(Kept(keep, p.rs)) &&
    |p.front| <= |b0| && p.stale + (Flatten(p.rs) + tail) == b0[|p.front|..] &&
    AllSurvive(keep, all, 0) == AllSurvive(keep, p.rs, |p.stale|) &&
    Boundaries(0, all) == p.visited + Boundaries(p.ReadOffset(), p.rs)
  }

  lemma InStepKept(keep: Record -> bool, b0: seq<Octet>, all: Records, tail: seq<Octet>, p: Progress)
    requires InStep(keep, b0, all, tail, p) && p.rs.Cons? && keep(p.rs.rec) && Survives(p.rs.rec, |p.stale|)
    ensures InStep(keep, b0, all, tail, p.Kept())
  {
    hide IsRecord, RereadLength;
    var rec, more := p.rs.rec, p.rs.more;
    var later, packed := Flatten(more) + tail, Flatten(Kept(keep, more));
    var offsets := Boundaries(p.ReadOffset() + |rec|, more);
    assert p.front + (rec + packed) == (p.front + rec) + packed;
    assert p.visited + ([p.ReadOffset()] + offsets) == (p.visited + [p.ReadOffset()]) + offsets;
    assert rec + Flatten(more) + tail == rec + later;
    assert StaleAfter(p.stale, rec) + later == (p.stale + (rec + later))[|rec|..] == b0[|p.front|..][|rec|..];
  }

  lemma InStepDropped(keep: Record -> bool, b0: seq<Octet>, all: Records, tail: seq<Octet>, p: Progress)
    requires InStep(keep, b0, all, tail, p) && p.rs.Cons? && !keep(p.rs.rec)
    ensures InStep(keep, b0, all, tail, p.Dropped())
    ensures p.Dropped().Bytes(tail) == p.Bytes(tail)
  {
    var rec, more := p.rs.rec, p.rs.more;
    var later := Flatten(more) + tail;
    var offsets := Boundaries(p.ReadOffset() + |rec|, more);
    assert p.visited + ([p.ReadOffset()] + offsets) == (p.visited + [p.ReadOffset()]) + offsets;
    assert rec + Flatten(more) + tail == rec + later;
    assert (p.stale + rec) + later == p.stale + (rec + later);
    assert p.front + (p.stale + rec) + later == p.front + p.stale + (rec + later);
  }

  /** Moving a kept record, and what its length field reads as afterwards. */
  lemma BytesAfterMove(tail: seq<Octet>, p: Progress)
    requires p.rs.Cons? && IsRecord(p.rs.rec)
    ensures |p.Bytes(tail)| >= p.ReadOffset() + |p.rs.rec|
    ensures Moved(p.Bytes(tail), |p.front|, p.ReadOffset(), |p.rs.rec|) == p.Kept().Bytes(tail)
    ensures LengthAt(p.Kept().Bytes(tail), p.ReadOffset()) ==
            if p.stale == [] then |p.rs.rec| else RereadLength(p.rs.rec, |p.stale|)
  {
    hide IsRecord, RereadLength, LengthAt, Moved, StaleAfter;
    var rec, later := p.rs.rec, Flatten(p.rs.more) + tail;
    assert rec + Flatten(p.rs.more) + tail == rec + later;
    MoveParts(p.front, p.stale, rec, later);
    RereadParts(p.front, p.stale, rec, later);
  }

  /** Where the loop stands: at the next record, or at the malformed or empty tail. */
  lemma BytesAhead(tail: seq<Octet>, p: Progress)
    requires AllRecords(p.rs)
    ensures p.Bytes(tail)[p.ReadOffset()..] == Flatten(p.rs) + tail
    ensures p.rs.Nil? ==> p.Bytes(tail)[p.ReadOffset()..] == tail
    ensures p.rs.Cons? ==>
              var b := p.Bytes(tail)[p.ReadOffset()..];
              HasRecord(b) && LengthAt(b, 0) == |p.rs.rec| && b[..|p.rs.rec|] == p.rs.rec
  {
    assert p.Bytes(tail)[p.ReadOffset()..] == Flatten(p.rs) + tail;
    if p.rs.Cons? {
      assert Flatten(p.rs) + tail == p.rs.rec + (Flatten(p.rs.more) + tail);
      RecordThenBytes(p.rs.rec, Flatten(p.rs.more) + tail);
    }
  }

  /** The loop has taken a length that is not the record's own: it has left the original records. */
  ghost predicate Astray(keep: Record -> bool, all: Records, offsets: seq<nat>) {
    !AllSurvive(keep, all, 0) && exists k :: DifferAt(offsets, Boundaries(0, all), k)
  }

  ghost predicate DifferAt(a: seq<nat>, b: seq<nat>, k: nat) {
    k < |a| && k < |b| && a[k] != b[k]
  }

  lemma GoesAstray(keep: Record -> bool, b0: seq<Octet>, all: Records, tail: seq<Octet>, p: Progress, next: nat)
    requires InStep(keep, b0, all, tail, p) && p.rs.Cons? && keep(p.rs.rec) && !Survives(p.rs.rec, |p.stale|)
    requires next != p.ReadOffset() + |p.rs.rec|
    ensures Astray(keep, all, p.visited + [p.ReadOffset()] + [next])
  {
    var expected, k := Boundaries(0, all), |p.visited| + 1;
    var offsets := Boundaries(p.ReadOffset() + |p.rs.rec|, p.rs.more);
    assert expected == p.visited + ([p.ReadOffset()] + offsets);
    assert offsets[0] == p.ReadOffset() + |p.rs.rec|;
    assert expected[k] == offsets[0];
    assert (p.visited + [p.ReadOffset()] + [next])[k] == next;
    assert DifferAt(p.visited + [p.ReadOffset()] + [next], expected, k);
  }

  lemma StaysAstray(keep: Record -> bool, all: Records, offsets: seq<nat>, next: nat)
    requires Astray(keep, all, offsets)
    ensures Astray(keep, all, offsets + [next])
  {
    var k :| DifferAt(offsets, Boundaries(0, all), k);
    assert DifferAt(offsets + [next], Boundaries(0, all), k);
  }

  lemma Arrived(keep: Record -> bool, b0: seq<Octet>, all: Records, tail: seq<Octet>, p: Progress)
    requires InStep(keep, b0, all, tail, p) && p.rs.Nil? && (all, tail) == Parse(b0)
    ensures p.visited + [p.ReadOffset()] == Boundaries(0, all) && AllSurvive(keep, all, 0)
    ensures p.ReadOffset() + |tail| == |b0|
    ensures Compacted(keep, b0, p.Bytes(tail), if tail == [] then |p.front| else |b0|)
  {
    assert p.front + [] == p.front && [] + tail == tail;
    assert p.front + p.stale + tail == p.front + (p.stale + tail);
  }

  /** The loop's variables are those of p, which is in step with the original bytes b0. */
  ghost predicate OnCourse(keep: Record -> bool, b0: seq<Octet>, b: seq<Octet>, ro: nat, wo: nat, visited: seq<nat>,
                           p: Progress) {
    InStep(keep, b0, Parse(b0).0, Parse(b0).1, p) && !HasRecord(Parse(b0).1) && b == p.Bytes(Parse(b0).1) &&
    ro == p.ReadOffset() && wo == |p.front| && visited == p.visited
  }

  /** The loop invariant: in step with the records, until a length is misread. */
  ghost predicate Tracked(keep: Record -> bool, b0: seq<Octet>, b: seq<Octet>, ro: nat, wo: nat, visited: seq<nat>) {
    Astray(keep, Parse(b0).0, visited + [ro]) || exists p :: OnCourse(keep, b0, b, ro, wo, visited, p)
  }

  lemma InStepInit(keep: Record -> bool, b0: seq<Octet>, all: Records, tail: seq<Octet>)
    requires AllRecords(all) && Flatten(all) + tail == b0
    ensures InStep(keep, b0, all, tail, Progress([], [], all, []))
    ensures Progress([], [], all, []).Bytes(tail) == b0
  {
    assert [] + Flatten(Kept(keep, all)) == Flatten(Kept(keep, all));
    assert [] + Boundaries(0, all) == Boundaries(0, all);
    assert [] + b0 == b0 && b0[0..] == b0 && [] + [] + b0 == b0;
  }

  lemma TrackedInit(keep: Record -> bool, b0: seq<Octet>)
    ensures Tracked(keep, b0, b0, 0, 0, [])
  {
    ParseSound(b0);
    InStepInit(keep, b0, Parse(b0).0, Parse(b0).1);
    assert OnCourse(keep, b0, b0, 0, 0, [], Progress([], [], Parse(b0).0, []));
  }

  lemma OnCourseAhead(keep: Record -> bool, b0: seq<Octet>, b: seq<Octet>, ro: nat, wo: nat, visited: seq<nat>,
                      p: Progress)
    requires OnCourse(keep, b0, b, ro, wo, visited, p)
    ensures ro <= |b| && (HasRecord(b[ro..]) <==> p.rs.Cons?)
    ensures p.rs.Cons? ==> IsRecord(p.rs.rec) && p.rs.rec == b[ro..][..LengthAt(b[ro..], 0)]
  {
    BytesAhead(Parse(b0).1, p);
  }

  lemma OnCourseKept(keep: Record -> bool, b0: seq<Octet>, b: seq<Octet>, ro: nat, wo: nat, visited: seq<nat>,
                     p: Progress, b': seq<Octet>)
    requires OnCourse(keep, b0, b, ro, wo, visited, p)
    requires p.rs.Cons? && IsRecord(p.rs.rec) && keep(p.rs.rec)
    requires ro + |p.rs.rec| <= |b| && b' == Moved(b, wo, ro, |p.rs.rec|)
    ensures var l' := LengthAt(b', ro);
            Tracked(keep, b0, b', ro + l', wo + l', visited + [ro])
  {
    hide InStep, Astray, Parse, LengthAt, Moved;
    var (all, tail) := Parse(b0);
    var l' := LengthAt(b', ro);
    BytesAfterMove(tail, p);
    if Survives(p.rs.rec, |p.stale|) {
      InStepKept(keep, b0, all, tail, p);
      assert OnCourse(keep, b0, b', ro + l', wo + l', visited + [ro], p.Kept());
    } else {
      GoesAstray(keep, b0, all, tail, p, ro + l');
    }
  }

  lemma TrackedKept(keep: Record -> bool, b0: seq<Octet>, b: seq<Octet>, ro: nat, wo: nat, visited: seq<nat>,
                    b': seq<Octet>)
    requires Tracked(keep, b0, b, ro, wo, visited) && wo <= ro < |b| && HasRecord(b[ro..])
    requires keep(b[ro..][..LengthAt(b[ro..], 0)]) && b' == Moved(b, wo, ro, LengthAt(b[ro..], 0))
    ensures var l' := LengthAt(b', ro);
            Tracked(keep, b0, b', ro + l', wo + l', visited + [ro])
  {
    hide OnCourse, Astray, Parse, Moved;
    var l' := LengthAt(b', ro);
    if Astray(keep, Parse(b0).0, visited + [ro]) {
      StaysAstray(keep, Parse(b0).0, visited + [ro], ro + l');
    } else {
      var p :| OnCourse(keep, b0, b, ro, wo, visited, p);
      OnCourseAhead(keep, b0, b, ro, wo, visited, p);
      OnCourseKept(keep, b0, b, ro, wo, visited, p, b');
    }
  }

  lemma OnCourseDropped(keep: Record -> bool, b0: seq<Octet>, b: seq<Octet>, ro: nat, wo: nat, visited: seq<nat>,
                        p: Progress)
    requires OnCourse(keep, b0, b, ro, wo, visited, p) && p.rs.Cons? && !keep(p.rs.rec)
    ensures OnCourse(keep, b0, b, ro + |p.rs.rec|, wo, visited + [ro], p.Dropped())
  {
    InStepDropped(keep, b0, Parse(b0).0, Parse(b0).1, p);
  }

  lemma TrackedDropped(keep: Record -> bool, b0: seq<Octet>, b: seq<Octet>, ro: nat, wo: nat, visited: seq<nat>)
    requires Tracked(keep, b0, b, ro, wo, visited) && wo <= ro < |b| && HasRecord(b[ro..])
    requires !keep(b[ro..][..LengthAt(b[ro..], 0)])
    ensures Tracked(keep, b0, b, ro + LengthAt(b[ro..], 0), wo, visited + [ro])
  {
    hide OnCourse, Astray, Parse;
    if Astray(keep, Parse(b0).0, visited + [ro]) {
      StaysAstray(keep, Parse(b0).0, visited + [ro], ro + LengthAt(b[ro..], 0));
    } else {
      var p :| OnCourse(keep, b0, b, ro, wo, visited, p);
      OnCourseAhead(keep, b0, b, ro, wo, visited, p);
      OnCourseDropped(keep, b0, b, ro, wo, visited, p);
    }
  }

  /** What the filter promises about the bytes it was given, whichever way it leaves the loop. */
  ghost predicate Filtered(keep: Record -> bool, b0: seq<Octet>, b: seq<Octet>, r: nat, offsets: seq<nat>) {
    (offsets == Boundaries(0, Parse(b0).0) <==> AllSurvive(keep, Parse(b0).0, 0)) &&
    (AllSurvive(keep, Parse(b0).0, 0) ==> Compacted(keep, b0, b, r))
  }

  lemma TrackedEnd(keep: Record -> bool, b0: seq<Octet>, b: seq<Octet>, ro: nat, wo: nat, visited: seq<nat>)
    requires Tracked(keep, b0, b, ro, wo, visited)
    requires |b| == |b0| && (ro >= |b| || !HasRecord(b[ro..]))
    ensures Filtered(keep, b0, b, if ro < |b| then |b| else wo, visited + [ro])
  {
    var (all, tail) := Parse(b0);
    if !Astray(keep, all, visited + [ro]) {
      var p :| OnCourse(keep, b0, b, ro, wo, visited, p);
      OnCourseAhead(keep, b0, b, ro, wo, visited, p);
      assert ro >= |b| ==> b[ro..] == [];
      Arrived(keep, b0, all, tail, p);
    }
  }

  lemma {:induction false} WalkFiltered(keep: Record -> bool, b0: seq<Octet>, c: Cursor, visited: seq<nat>)
    requires c.Valid() && |c.b| == |b0| && Tracked(keep, b0, c.b, c.ro, c.wo, visited)
    ensures var w := Walk(keep, c); Filtered(keep, b0, w.bytes, w.r, visited + w.offsets)
    decreases Ahead(c.b, c.ro), Readable(c.b, c.ro)
  {
    hide Tracked, Filtered, Moved;
    if !c.AtRecord() {
      TrackedEnd(keep, b0, c.b, c.ro, c.wo, visited);
    } else {
      var d := Turn(keep, c);
      TurnProgress(keep, c);
      TrackedTurn(keep, b0, c, visited);
      WalkFiltered(keep, b0, d, visited + [c.ro]);
      assert visited + ([c.ro] + Walk(keep, d).offsets) == visited + [c.ro] + Walk(keep, d).offsets;
    }
  }

  lemma TrackedTurn(keep: Record -> bool, b0: seq<Octet>, c: Cursor, visited: seq<nat>)
    requires c.AtRecord() && Tracked(keep, b0, c.b, c.ro, c.wo, visited)
    ensures var d := Turn(keep, c); Tracked(keep, b0, d.b, d.ro, d.wo, visited + [c.ro])
  {
    hide Tracked, Moved;
    var l := LengthAt(c.b, c.ro);
    assert l == LengthAt(c.b[c.ro..], 0);
    if keep(c.b[c.ro..][..l]) {
      TrackedKept(keep, b0, c.b, c.ro, c.wo, visited, Moved(c.b, c.wo, c.ro, l));
    } else {
      TrackedDropped(keep, b0, c.b, c.ro, c.wo, visited);
    }
  }

  /**
   The read offsets are those of the original records exactly when every kept record's length field
   survives its move; and then the result is the compaction and never exceeds the length.
   */
  lemma FilteringTheorem(keep: Record -> bool, b: seq<Octet>)
    ensures var w := Filtering(keep, b);
            (w.offsets == Boundaries(0, Parse(b).0) <==> AllSurvive(keep, Parse(b).0, 0)) &&
            (AllSurvive(keep, Parse(b).0, 0) ==> Compacted(keep, b, w.bytes, w.r) && w.r <= |b|)
  {
    hide Tracked;
    TrackedInit(keep, b);
    WalkFiltered(keep, b, Cursor(b, 0, 0), []);
    var w := Filtering(keep, b);
    assert [] + w.offsets == w.offsets;
  }

  // ----- when the result exceeds the length

  /** The loop's variables before its last turn, if it makes one. */
  ghost function LastTurn(keep: Record -> bool, c: Cursor): (last: Option<Cursor>)
    requires c.Valid()
    ensures last.Some? ==> last.value.AtRecord() && |last.value.b| == |c.b|
    decreases Ahead(c.b, c.ro), Readable(c.b, c.ro)
  {
    if !c.AtRecord() then None
    else
      TurnProgress(keep, c);
      var later := LastTurn(keep, Turn(keep, c));
      if later.Some? then later else Some(c)
  }

  /** A turn that keeps its record and then reads a length beyond the bytes left to write. */
  ghost predicate Overreads(keep: Record -> bool, c: Cursor)
    requires c.AtRecord()
  {
    var l := LengthAt(c.b, c.ro);
    keep(c.b[c.ro..][..l]) && LengthAt(Moved(c.b, c.wo, c.ro, l), c.ro) > |c.b| - c.wo
  }

  /** The filter's last turn on these bytes overreads. */
  ghost predicate OverreadsAtLast(keep: Record -> bool, b: seq<Octet>) {
    var last := LastTurn(keep, Cursor(b, 0, 0));
    last.Some? && Overreads(keep, last.value)
  }

  /** The result exceeds the length exactly when the last turn overreads, and by less than 65536. */
  lemma {:induction false} OverrunExact(keep: Record -> bool, c: Cursor)
    requires c.Valid() && c.wo <= |c.b|
    ensures var w, last := Walk(keep, c), LastTurn(keep, c);
            (w.r > |c.b| <==> last.Some? && Overreads(keep, last.value)) && w.r < |c.b| + 0x1_0000
    decreases Ahead(c.b, c.ro), Readable(c.b, c.ro)
  {
    hide Moved;
    if c.AtRecord() {
      var d := Turn(keep, c);
      TurnProgress(keep, c);
      if d.wo <= |d.b| {
        OverrunExact(keep, d);
      }
    }
  }
}
