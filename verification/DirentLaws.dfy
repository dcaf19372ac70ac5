/** When the directory filter is exact, when it is not, and what a second pass does. */
module DirentLaws {
  import opened CStrings
  import opened DirentRecords
  import opened DirentWalk

  /** Every record is at least m bytes long, and every kept one at most m + 16. */
  ghost predicate KeptWithin(keep: Record -> bool, rs: Records, m: nat) {
    match rs
    case Nil => true
    case Cons(rec, more) => m <= |rec| && (keep(rec) ==> |rec| <= m + LENGTH_AT) && KeptWithin(keep, more, m)
  }

  /** A record that moves by at least its length less 16 does not cover its own length field. */
  lemma LongMoveSurvives(rec: Record, gap: nat)
    requires IsRecord(rec) && |rec| <= gap + LENGTH_AT
    ensures Survives(rec, gap)
  {
  }

  /** Every kept record is in place already, or moves by at least its length less 16. */
  ghost predicate FarMoves(keep: Record -> bool, rs: Records, gap: nat) {
    match rs
    case Nil => true
    case Cons(rec, more) =>
      if keep(rec) then (gap == 0 || |rec| <= gap + LENGTH_AT) && FarMoves(keep, more, gap)
      else FarMoves(keep, more, gap + |rec|)
  }

  /** The bound on bytes dropped before each kept record is enough for the filter to be exact. */
  lemma {:induction false} FarMovesSurvive(keep: Record -> bool, rs: Records, gap: nat)
    requires AllRecords(rs) && FarMoves(keep, rs, gap)
    ensures AllSurvive(keep, rs, gap)
    decreases rs
  {
    match rs
    case Nil =>
    case Cons(rec, more) =>
      if !keep(rec) {
        FarMovesSurvive(keep, more, gap + |rec|);
      } else {
        if gap > 0 {
          LongMoveSurvives(rec, gap);
        }
        FarMovesSurvive(keep, more, gap);
      }
  }

  lemma {:induction false} KeptWithinFarMoves(keep: Record -> bool, rs: Records, m: nat, gap: nat)
    requires KeptWithin(keep, rs, m) && (gap == 0 || m <= gap)
    ensures FarMoves(keep, rs, gap)
    decreases rs
  {
    if rs.Cons? {
      KeptWithinFarMoves(keep, rs.more, m, if keep(rs.rec) then gap else gap + |rs.rec|);
    }
  }

  lemma KeptWithinSurvives(keep: Record -> bool, rs: Records, m: nat)
    requires AllRecords(rs) && KeptWithin(keep, rs, m)
    ensures AllSurvive(keep, rs, 0)
  {
    KeptWithinFarMoves(keep, rs, m, 0);
    FarMovesSurvive(keep, rs, 0);
  }

  // ----- buffers the filter handles exactly

  ghost predicate AllWithin(rs: Records, limit: nat, unit: nat)
    requires unit > 0
  {
    rs.Cons? ==> |rs.rec| <= limit && |rs.rec| % unit == 0 && AllWithin(rs.more, limit, unit)
  }

  /** Records of at most 36 bytes, or 8-aligned records of at most 40 bytes, always survive. */
  lemma SmallRecordsSurvive(keep: Record -> bool, rs: Records)
    requires AllRecords(rs) && (AllWithin(rs, 36, 1) || AllWithin(rs, 40, 8))
    ensures AllSurvive(keep, rs, 0)
  {
    if AllWithin(rs, 36, 1) {
      SmallRecordsWithin(keep, rs, 36, 1, 20);
      KeptWithinSurvives(keep, rs, 20);
    } else {
      SmallRecordsWithin(keep, rs, 40, 8, 24);
      KeptWithinSurvives(keep, rs, 24);
    }
  }

  lemma {:induction false} SmallRecordsWithin(keep: Record -> bool, rs: Records, limit: nat, unit: nat, m: nat)
    requires unit > 0 && AllRecords(rs) && AllWithin(rs, limit, unit) && limit <= m + LENGTH_AT
    requires (unit == 1 && m == 20) || (unit == 8 && m == 24)
    ensures KeptWithin(keep, rs, m)
    decreases rs
  {
    if rs.Cons? {
      assert |rs.rec| > HEADER;
      SmallRecordsWithin(keep, rs.more, limit, unit, m);
    }
  }

  // ----- buffers it does not

  function Byte(n: nat): (c: Octet)
    ensures c as nat == n % 256
  {
    (n % 256) as char
  }

  /** Text the C side can hold: octets, none of them NUL. */
  ghost predicate IsCText(s: string) {
    forall k :: 0 <= k < |s| ==> s[k] as int < 256 && s[k] != '\0'
  }

  function SampleByte(i: nat, length: nat, name: seq<Octet>, at: nat, padding: Octet): Octet {
    if i == LENGTH_AT then Byte(length)
    else if i == LENGTH_AT + 1 then Byte(length / 256)
    else if HEADER <= i < HEADER + |name| then name[i - HEADER]
    else if i == at && (i == HEADER - 1 || i > HEADER + |name|) then padding
    else '\0'
  }

  /** A record of the given length and name, zero elsewhere but for one byte, of the padding or the type. */
  function Sample(length: nat, name: seq<Octet>, at: nat, padding: Octet): (rec: Record)
    ensures |rec| == length
  {
    seq<Octet>(length, i requires 0 <= i => SampleByte(i, length, name, at, padding))
  }

  lemma SampleIsRecord(length: nat, name: seq<Octet>, at: nat, padding: Octet)
    requires HEADER + |name| < length < 0x1_0000 && IsCText(name)
    ensures IsRecord(Sample(length, name, at, padding))
    ensures Name(Sample(length, name, at, padding)) == name
  {
    var rec := Sample(length, name, at, padding);
    assert rec[LENGTH_AT] == Byte(length) && rec[LENGTH_AT + 1] == Byte(length / 256);
    assert rec[HEADER..length][|name|] == rec[HEADER + |name|] == '\0';
    assert rec[HEADER..][..|name|] == name;
    CStrOfText(rec[HEADER..], name);
  }

  lemma {:induction false} CStrOfText(s: string, text: string)
    requires IsCText(text) && |text| < |s| && s[..|text|] == text && s[|text|] == '\0'
    ensures CStr(s) == text
  {
    if text != "" {
      assert s[0] == text[0];
      assert s[1..][..|text| - 1] == text[1..];
      CStrOfText(s[1..], text[1..]);
      assert text == [text[0]] + text[1..];
    }
  }

  /**
   The bound is exact: after gap dropped bytes, every record of a given length named "." keeps its
   length field iff the length is at most gap + 16.
   */
  lemma BoundIsExact(length: nat, gap: nat)
    requires HEADER + 1 < length < 0x1_0000 && gap > HEADER
    ensures (forall rec :: IsRecord(rec) && |rec| == length && Name(rec) == "." ==> Survives(rec, gap)) <==>
            length <= gap + LENGTH_AT
  {
    if length <= gap + LENGTH_AT {
      forall rec | IsRecord(rec) && |rec| == length ensures Survives(rec, gap) {
        LongMoveSurvives(rec, gap);
      }
    } else {
      var rec := Misread(length, gap);
    }
  }

  /** A record whose length field reads differently after it moved. */
  lemma Misread(length: nat, gap: nat) returns (rec: Record)
    requires HEADER + 1 < length < 0x1_0000 && HEADER < gap && gap + LENGTH_AT < length
    ensures IsRecord(rec) && |rec| == length && Name(rec) == "." && !Survives(rec, gap)
  {
    hide IsRecord, RereadLength, Sample, Byte, Name;
    rec := Sample(length, ".", LENGTH_AT + gap, Byte(length + 1));
    SampleIsRecord(length, ".", LENGTH_AT + gap, Byte(length + 1));
    PaddingOfSample(length, ".", LENGTH_AT + gap, Byte(length + 1));
    LowByteReread(rec, gap);
  }

  lemma PaddingOfSample(length: nat, name: seq<Octet>, at: nat, padding: Octet)
    requires HEADER + |name| < at < length
    ensures Sample(length, name, at, padding)[at] == padding
  {
  }

  lemma LowByteReread(rec: Record, gap: nat)
    requires HEADER <= LENGTH_AT + gap < |rec| && rec[LENGTH_AT + gap] == Byte(|rec| + 1)
    ensures RereadLength(rec, gap) != |rec|
  {
    var high := if LENGTH_AT + 1 + gap < |rec| then rec[LENGTH_AT + 1 + gap] else rec[LENGTH_AT + 1];
    OtherLowByte(|rec|, high as nat);
  }

  lemma OtherLowByte(length: nat, high: nat)
    ensures Byte(length + 1) as nat + 256 * high != length
  {
    assert (length + 1) % 256 != length % 256;
  }

  lemma LengthBehind(front: seq<Octet>, b: seq<Octet>)
    requires HEADER <= |b|
    ensures LengthAt(front + b, |front|) == LengthAt(b, 0)
  {
  }

  lemma DroppedTurn(keep: Record -> bool, rec: Record, later: seq<Octet>)
    requires IsRecord(rec) && !keep(rec)
    ensures Cursor(rec + later, 0, 0).AtRecord()
    ensures Turn(keep, Cursor(rec + later, 0, 0)) == Cursor(rec + later, |rec|, 0)
  {
    hide LengthAt, Moved;
    assert (rec + later)[0..] == rec + later;
    RecordThenBytes(rec, later);
  }

  lemma KeptBytes(stale: seq<Octet>, rec: Record, later: seq<Octet>)
    requires IsRecord(rec) && stale != []
    ensures Moved(stale + (rec + later), 0, |stale|, |rec|) == rec + StaleAfter(stale, rec) + later
    ensures LengthAt(rec + StaleAfter(stale, rec) + later, |stale|) == RereadLength(rec, |stale|)
  {
    hide LengthAt, Moved, RereadLength;
    MoveParts([], stale, rec, later);
    RereadParts([], stale, rec, later);
    assert [] + stale + (rec + later) == stale + (rec + later);
    assert [] + rec == rec;
  }

  lemma KeptTurn(keep: Record -> bool, stale: seq<Octet>, rec: Record, later: seq<Octet>)
    requires IsRecord(rec) && keep(rec) && stale != []
    ensures var c, l := Cursor(stale + (rec + later), |stale|, 0), RereadLength(rec, |stale|);
            c.AtRecord() && Turn(keep, c) == Cursor(rec + StaleAfter(stale, rec) + later, |stale| + l, l)
  {
    hide LengthAt, Moved, RereadLength, StaleAfter;
    var b := stale + (rec + later);
    assert b[|stale|..] == rec + later;
    RecordThenBytes(rec, later);
    LengthBehind(stale, rec + later);
    KeptBytes(stale, rec, later);
  }

  lemma WalkStep(keep: Record -> bool, c: Cursor)
    requires c.AtRecord()
    ensures var v := Walk(keep, Turn(keep, c)); SameEnd(Walk(keep, c), v.r, v.bytes)
  {
    TurnProgress(keep, c);
  }

  /**
   A dropped record, a kept one and a tail: the filter goes on from the length that the kept record's
   move leaves behind.
   */
  lemma DropThenKeep(keep: Record -> bool, dropped: Record, kept: Record, tail: seq<Octet>)
    requires IsRecord(dropped) && IsRecord(kept) && !keep(dropped) && keep(kept)
    ensures var w, l := Filtering(keep, dropped + kept + tail), RereadLength(kept, |dropped|);
            var v := Walk(keep, Cursor(kept + StaleAfter(dropped, kept) + tail, |dropped| + l, l));
            SameEnd(w, v.r, v.bytes)
  {
    hide Turn, Walk, Cursor.AtRecord;
    assert dropped + kept + tail == dropped + (kept + tail);
    DroppedTurn(keep, dropped, kept + tail);
    WalkStep(keep, Cursor(dropped + (kept + tail), 0, 0));
    KeptTurn(keep, dropped, kept, tail);
    WalkStep(keep, Cursor(dropped + (kept + tail), |dropped|, 0));
  }

  lemma DropThenKeepParses(keep: Record -> bool, dropped: Record, kept: Record, tail: seq<Octet>)
    requires IsRecord(dropped) && IsRecord(kept) && !keep(dropped) && keep(kept) && !HasRecord(tail)
    ensures Parse(dropped + kept + tail) == (Cons(dropped, Cons(kept, Nil)), tail)
    ensures Compact(keep, dropped + kept + tail) == kept
    ensures AllSurvive(keep, Parse(dropped + kept + tail).0, 0) <==> Survives(kept, |dropped|)
  {
    hide IsRecord, HasRecord, Parse, Survives;
    var rs := Cons(dropped, Cons(kept, Nil));
    assert Flatten(Cons(kept, Nil)) == kept;
    assert Kept(keep, Cons(kept, Nil)) == Cons(kept, Kept(keep, Nil));
    assert Kept(keep, rs) == Cons(kept, Nil);
    ParseFlatten(rs, tail);
    assert AllSurvive(keep, rs, 0) == AllSurvive(keep, Cons(kept, Nil), 0 + |dropped|);
  }

  /**
   Losing a length field need not show: if it reads as 0 and a malformed tail follows, the outcome is
   the compaction all the same.
   */
  lemma MisreadZeroIsHarmless(keep: Record -> bool, dropped: Record, kept: Record, tail: seq<Octet>)
    requires IsRecord(dropped) && IsRecord(kept) && !keep(dropped) && keep(kept)
    requires RereadLength(kept, |dropped|) == 0 && !HasRecord(tail) && tail != []
    ensures var b := dropped + kept + tail; var w := Filtering(keep, b);
            !AllSurvive(keep, Parse(b).0, 0) && Compacted(keep, b, w.bytes, w.r)
  {
    hide Parse, Walk, HasRecord, LengthAt, RereadLength, Flatten, Kept;
    RecordSize(dropped);
    RecordSize(kept);
    var b, b' := dropped + kept + tail, kept + StaleAfter(dropped, kept) + tail;
    DropThenKeepParses(keep, dropped, kept, tail);
    DropThenKeep(keep, dropped, kept, tail);
    KeptBytes(dropped, kept, tail);
    StopsAtZero(keep, Cursor(b', |dropped|, 0));
    assert b[|kept|..] == StaleAfter(dropped, kept) + tail;
  }

  lemma RecordSize(rec: Record)
    requires IsRecord(rec)
    ensures |rec| > HEADER
  {
  }

  lemma StopsAtZero(keep: Record -> bool, c: Cursor)
    requires c.Valid() && c.ro + HEADER <= |c.b| && LengthAt(c.b, c.ro) == 0
    ensures SameEnd(Walk(keep, c), |c.b|, c.b)
  {
    assert LengthAt(c.b[c.ro..], 0) == LengthAt(c.b, c.ro);
  }

  // ----- a second pass, and buffers that end in a malformed record

  lemma {:induction false} KeptTwice(keep: Record -> bool, rs: Records)
    requires AllRecords(rs)
    ensures var ks := Kept(keep, rs);
            AllRecords(ks) && Kept(keep, ks) == ks && AllSurvive(keep, ks, 0)
  {
    if rs.Cons? {
      KeptTwice(keep, rs.more);
    }
  }

  /** The front of a compacted buffer parses to exactly the kept records, in order. */
  lemma CompactParses(keep: Record -> bool, b: seq<Octet>)
    ensures Parse(Compact(keep, b)) == (Kept(keep, Parse(b).0), [])
  {
    ParseSound(b);
    KeptTwice(keep, Parse(b).0);
    assert Compact(keep, b) + [] == Compact(keep, b) && !HasRecord([]);
    ParseFlatten(Kept(keep, Parse(b).0), []);
  }

  /** After a success, filtering the result again changes nothing. */
  lemma SecondPassIsIdentity(keep: Record -> bool, b: seq<Octet>)
    requires Parse(b).1 == [] && AllSurvive(keep, Parse(b).0, 0)
    ensures var w := Filtering(keep, b);
            w.r <= |b| && SameEnd(Filtering(keep, w.bytes[..w.r]), w.r, w.bytes[..w.r])
  {
    hide Walk;
    FilteringTheorem(keep, b);
    var out := Compact(keep, b);
    assert Filtering(keep, b).bytes[..|out|] == out;
    ParseSound(b);
    CompactParses(keep, b);
    KeptTwice(keep, Parse(b).0);
    FilteringTheorem(keep, out);
    assert out[|out|..] == [];
    assert Compact(keep, out) == out;
  }

  ghost predicate AllKept(keep: Record -> bool, rs: Records) {
    rs.Cons? ==> keep(rs.rec) && AllKept(keep, rs.more)
  }

  lemma {:induction false} KeepingAll(keep: Record -> bool, rs: Records, gap: nat)
    requires AllKept(keep, rs)
    ensures Kept(keep, rs) == rs
    ensures gap == 0 ==> AllSurvive(keep, rs, gap)
  {
    if rs.Cons? {
      KeepingAll(keep, rs.more, gap);
    }
  }

  /** If nothing is dropped before the end or the first malformed record, the buffer is unchanged. */
  lemma NothingDropped(keep: Record -> bool, b: seq<Octet>)
    requires AllKept(keep, Parse(b).0)
    ensures SameEnd(Filtering(keep, b), |b|, b)
  {
    hide Walk;
    ParseSound(b);
    KeepingAll(keep, Parse(b).0, 0);
    FilteringTheorem(keep, b);
    var out := Compact(keep, b);
    assert b[|out|..] == Parse(b).1;
    assert Parse(b).1 == [] ==> |out| == |b|;
  }
}
