/** Listings laid out as the kernel does: the allow-lists the filter is exact for, and what fails for others. */
module KernelListings {
  import opened Sequences
  import opened CStrings
  import opened Topology
  import opened DirentRecords
  import opened DirentWalk
  import opened DirentLaws

  /** The kernel pads a record to a multiple of 8 just past the NUL of its name. */
  function KernelLength(name: string): nat {
    (HEADER + |name| + 1 + 7) / 8 * 8
  }

  ghost predicate KernelShaped(rs: Records) {
    rs.Cons? ==> Name(rs.rec) != "" && |rs.rec| == KernelLength(Name(rs.rec)) && KernelShaped(rs.more)
  }

  ghost predicate IsKernelRecord(rec: Record) {
    IsRecord(rec) && Name(rec) != "" && |rec| == KernelLength(Name(rec))
  }

  /** Bytes the kernel can deliver: whole records, laid out as it does. */
  ghost predicate IsListing(b: seq<Octet>) {
    Parse(b).1 == [] && KernelShaped(Parse(b).0)
  }

  lemma OneRecordIsListing(rec: Record)
    requires IsKernelRecord(rec) && Parse(rec) == (Cons(rec, Nil), [])
    ensures IsListing(rec)
  {
    assert KernelShaped(Cons(rec, Nil));
  }

  /** A bus whose record keeps its length field however far it moves. */
  predicate SafeBus(bus: string) {
    |bus| <= 20 || (|bus| == 22 && bus[21] == '0')
  }

  /** What a buffer for bus names can hold. */
  ghost predicate IsBusText(bus: string) {
    IsCText(bus) && |bus| < BUS_ID_MAX
  }

  ghost predicate IsAllowList(allowed: Allowed) {
    allowed.valid && |allowed.gpus| <= MAX_GPUS &&
    forall i :: 0 <= i < |allowed.gpus| ==> IsBusText(allowed.gpus[i].busId)
  }

  // ----- safe buses

  lemma {:induction false} CStrBytes(s: string)
    ensures |CStr(s)| <= |s| && CStr(s) == s[..|CStr(s)|]
    ensures |CStr(s)| < |s| ==> s[|CStr(s)|] == '\0'
    ensures '\0' in s ==> |CStr(s)| < |s|
  {
    if s != [] && s[0] != '\0' {
      CStrBytes(s[1..]);
    }
  }

  /** Where the name of a record and its NUL are. */
  lemma NameBytes(rec: Record)
    requires IsRecord(rec)
    ensures HEADER + |Name(rec)| < |rec| && rec[HEADER + |Name(rec)|] == '\0'
    ensures rec[HEADER..HEADER + |Name(rec)|] == Name(rec)
  {
    assert rec[HEADER..LengthAt(rec, 0)] == rec[HEADER..];
    CStrBytes(rec[HEADER..]);
  }

  lemma SafeRecordSurvives(rec: Record, gap: nat)
    requires IsRecord(rec) && |rec| == KernelLength(Name(rec)) && SafeBus(Name(rec))
    requires gap == 0 || gap >= 24
    requires gap % 8 == 0
    ensures Survives(rec, gap)
  {
    var name := Name(rec);
    if gap > 0 {
      if |name| <= 20 || gap >= 32 {
        LongMoveSurvives(rec, gap);
      } else {
        NameBytes(rec);
        assert rec[40] == rec[HEADER..HEADER + |name|][21] == name[21];
      }
    }
  }

  lemma {:induction false} SafeBusesSurvive(allowed: Allowed, rs: Records, gap: nat)
    requires forall i :: 0 <= i < |allowed.gpus| ==> SafeBus(allowed.gpus[i].busId)
    requires AllRecords(rs) && KernelShaped(rs) && gap % 8 == 0 && (gap == 0 || gap >= 24)
    ensures AllSurvive(Keeps(Some(allowed)), rs, gap)
    decreases rs
  {
    if rs.Cons? {
      if Keeps(Some(allowed))(rs.rec) {
        assert SafeBus(Name(rs.rec));
        SafeRecordSurvives(rs.rec, gap);
        SafeBusesSurvive(allowed, rs.more, gap);
      } else {
        SafeBusesSurvive(allowed, rs.more, gap + |rs.rec|);
      }
    }
  }

  // ----- other buses

  /** A record as the kernel writes it, with zeros in every field the filter does not read. */
  function KernelRecord(name: seq<Octet>): Record {
    Sample(KernelLength(name), name, 0, '\0')
  }

  lemma KernelRecordIs(name: seq<Octet>)
    requires IsBusText(name) && name != ""
    ensures IsRecord(KernelRecord(name)) && |KernelRecord(name)| == KernelLength(name)
    ensures Name(KernelRecord(name)) == name
  {
    SampleIsRecord(KernelLength(name), name, 0, '\0');
  }

  /** What the length field of a bus's record reads as after a move by 24 bytes. */
  function ReadInName(bus: string): nat
    requires |bus| >= 21
  {
    (if |bus| > 21 then bus[21] as nat else 0) + 256 * (if |bus| > 22 then bus[22] as nat else 0)
  }

  lemma ReadsItsName(bus: seq<Octet>)
    requires IsBusText(bus) && |bus| >= 21
    ensures RereadLength(KernelRecord(bus), 24) == ReadInName(bus)
  {
    var rec := KernelRecord(bus);
    assert forall k :: 40 <= k <= 41 ==> rec[k] == SampleByte(k, KernelLength(bus), bus, 0, '\0');
  }

  /** Among enough one-character names there is one that no listed GPU has. */
  lemma {:induction false} UnusedName(gpus: seq<GpuInfo>, candidates: set<char>) returns (c: char)
    requires |candidates| > |gpus|
    ensures c in candidates && forall i :: 0 <= i < |gpus| ==> gpus[i].busId != [c]
  {
    if gpus == [] {
      c :| c in candidates;
    } else {
      var bus := gpus[0].busId;
      var fewer := if |bus| == 1 then candidates - {bus[0]} else candidates;
      assert |fewer| >= |candidates| - 1;
      c := UnusedName(gpus[1..], fewer);
      assert forall i :: 1 <= i < |gpus| ==> gpus[i] == gpus[1..][i - 1];
    }
  }

  function Letters(n: nat): (s: set<char>)
    requires n <= 100
    ensures |s| == n && forall c :: c in s ==> 100 <= c as int < 100 + n
  {
    if n == 0 then {} else Letters(n - 1) + {(99 + n) as char}
  }

  /** An entry the filter drops, in the kernel's smallest record. */
  lemma HiddenRecord(allowed: Allowed) returns (rec: Record)
    requires IsAllowList(allowed)
    ensures IsKernelRecord(rec) && |rec| == 24 && !Keeps(Some(allowed))(rec)
  {
    var c := UnusedName(allowed.gpus, Letters(MAX_GPUS + 1));
    KernelRecordIs([c]);
    rec := KernelRecord([c]);
  }

  /** The buffer after the record of a bus moved to its front, over a hidden entry. */
  ghost function Overwritten(hidden: Record, kept: Record): seq<Octet> {
    kept + StaleAfter(hidden, kept) + []
  }

  /**
   A listing of a hidden entry and one that is kept: the filter goes on from the length it reads in the
   place the kept record moved from.
   */
  lemma HiddenThenKept(allowed: Allowed, kept: Record) returns (hidden: Record)
    requires IsAllowList(allowed) && IsKernelRecord(kept) && Keeps(Some(allowed))(kept)
    ensures IsRecord(hidden) && |hidden| == 24 && !Keeps(Some(allowed))(hidden)
    ensures IsListing(hidden + kept + []) && Compact(Keeps(Some(allowed)), hidden + kept + []) == kept
    ensures Parse(hidden + kept + []).1 == []
    ensures var l := RereadLength(kept, 24);
            Filtering(Keeps(Some(allowed)), hidden + kept + []).r ==
            Walk(Keeps(Some(allowed)), Cursor(Overwritten(hidden, kept), 24 + l, l)).r
  {
    hide Walk, Keeps, IsRecord, RereadLength, KernelLength, Name, Parse, HasRecord;
    hidden := HiddenRecord(allowed);
    NoRecordInNothing();
    DropThenKeepParses(Keeps(Some(allowed)), hidden, kept, []);
    DropThenKeep(Keeps(Some(allowed)), hidden, kept, []);
    assert KernelShaped(Cons(kept, Nil));
  }

  lemma NoRecordInNothing()
    ensures !HasRecord([])
  {
  }

  lemma BusIsKept(allowed: Allowed, bus: seq<Octet>)
    requires IsAllowList(allowed) && CarriesBus(allowed.gpus, bus) && bus != ""
    ensures IsKernelRecord(KernelRecord(bus)) && Name(KernelRecord(bus)) == bus
    ensures Keeps(Some(allowed))(KernelRecord(bus))
  {
    KernelRecordIs(bus);
  }

  lemma OverwrittenBytes(hidden: Record, kept: Record)
    requires |hidden| == 24 && |kept| == 48
    ensures |Overwritten(hidden, kept)| == 72
    ensures forall k :: 0 <= k < 48 ==> Overwritten(hidden, kept)[k] == kept[k]
    ensures forall k :: 48 <= k < 72 ==> Overwritten(hidden, kept)[k] == kept[k - 24]
  {
  }

  // ----- where the filter ends after a misread length

  lemma WalkEnds(keep: Record -> bool, c: Cursor)
    requires c.Valid() && c.ro >= |c.b|
    ensures Walk(keep, c).r == c.wo
  {
  }

  lemma WalkGivesUp(keep: Record -> bool, c: Cursor)
    requires c.Valid() && c.ro < |c.b| && !HasRecord(c.b[c.ro..])
    ensures Walk(keep, c).r == |c.b|
  {
  }

  lemma LengthAhead(b: seq<Octet>, ro: nat)
    requires ro + HEADER <= |b| && (LengthAt(b, ro) < HEADER || LengthAt(b, ro) > |b| - ro)
    ensures !HasRecord(b[ro..])
  {
    assert LengthAt(b[ro..], 0) == LengthAt(b, ro);
  }

  /** The bytes of the record of a bus with 22 characters. */
  lemma BusBytes(bus: seq<Octet>)
    requires |bus| == 22
    ensures |KernelRecord(bus)| == 48
    ensures forall k :: 19 <= k < 48 ==> KernelRecord(bus)[k] == if k < 41 then bus[k - 19] else '\0'
  {
  }

  /** Past a bus of 22 characters the filter stops at a malformed record, or leaves the buffer. */
  lemma AfterTwentyTwo(allowed: Allowed, hidden: Record, bus: seq<Octet>)
    requires IsBusText(bus) && |bus| == 22 && bus[21] != '0' && |hidden| == 24
    ensures var l := bus[21] as nat;
            Walk(Keeps(Some(allowed)), Cursor(Overwritten(hidden, KernelRecord(bus)), 24 + l, l)).r != 48
  {
    hide KernelRecord, Overwritten, Walk, HasRecord, Keeps;
    var b, l := Overwritten(hidden, KernelRecord(bus)), bus[21] as nat;
    var c := Cursor(b, 24 + l, l);
    BusBytes(bus);
    OverwrittenBytes(hidden, KernelRecord(bus));
    if l >= 48 {
      WalkEnds(Keeps(Some(allowed)), c);
    } else if l == 24 {
      EmptyNameAhead(allowed, c);
    } else {
      NothingReadable(bus, b, l);
      WalkGivesUp(Keeps(Some(allowed)), c);
    }
  }

  lemma NothingReadable(bus: seq<Octet>, b: seq<Octet>, l: nat)
    requires IsBusText(bus) && |bus| == 22 && |b| == 72 && l == bus[21] as nat && l < 48 && l != 24
    requires forall k :: 19 <= k < 48 ==> b[k] == if k < 41 then bus[k - 19] else '\0'
    requires forall k :: 48 <= k < 72 ==> b[k] == b[k - 24]
    ensures !HasRecord(b[24 + l..])
  {
    if l <= 29 {
      assert b[24 + l + LENGTH_AT] == b[40 + l] && b[24 + l + LENGTH_AT + 1] == b[41 + l];
      assert l >= 8 ==> b[40 + l] == b[16 + l] && b[41 + l] == b[17 + l];
      assert l == 7 ==> b[41 + l] == b[24];
      LengthAhead(b, 24 + l);
    }
  }

  /** A length and a NUL behind it make a record of the bytes ahead, wherever they came from. */
  lemma RecordAhead(b: seq<Octet>, ro: nat, end: nat)
    requires ro + HEADER <= end < |b| && b[end] == '\0' && end < ro + LengthAt(b, ro) <= |b|
    ensures HasRecord(b[ro..]) && LengthAt(b[ro..], 0) == LengthAt(b, ro)
  {
    assert LengthAt(b[ro..], 0) == LengthAt(b, ro);
    assert b[ro..][HEADER..LengthAt(b, ro)][end - ro - HEADER] == b[end];
  }

  lemma NameAhead(b: seq<Octet>, ro: nat, l: nat, name: string)
    requires IsCText(name) && ro + HEADER + |name| < ro + l <= |b|
    requires b[ro + HEADER..ro + HEADER + |name|] == name && b[ro + HEADER + |name|] == '\0'
    ensures Name(b[ro..][..l]) == name
  {
    var text := b[ro..][..l][HEADER..];
    assert text[..|name|] == name && text[|name|] == '\0';
    CStrOfText(text, name);
  }

  lemma EmptyNameAhead(allowed: Allowed, c: Cursor)
    requires |c.b| == 72 && c.ro == 48 && c.wo == 24
    requires c.b[64] as nat == 24 && c.b[65] == '\0' && c.b[67] == '\0'
    ensures Walk(Keeps(Some(allowed)), c).r == 24
  {
    hide HasRecord, Walk, Name;
    RecordAhead(c.b, 48, 67);
    NameAhead(c.b, 48, 24, "");
    assert Turn(Keeps(Some(allowed)), c) == Cursor(c.b, 72, 24);
    WalkStep(Keeps(Some(allowed)), c);
    WalkEnds(Keeps(Some(allowed)), Cursor(c.b, 72, 24));
  }

  lemma AfterUnsafeBus(allowed: Allowed, hidden: Record, bus: seq<Octet>)
    requires IsRecord(hidden) && |hidden| == 24 && IsBusText(bus) && !SafeBus(bus)
    ensures var l, kept := ReadInName(bus), KernelRecord(bus);
            RereadLength(kept, 24) == l &&
            Walk(Keeps(Some(allowed)), Cursor(Overwritten(hidden, kept), 24 + l, l)).r != |kept|
  {
    hide Walk, Keeps, IsRecord, RereadLength, Overwritten, LengthAt, KernelRecord;
    var keep, l, b := Keeps(Some(allowed)), ReadInName(bus), Overwritten(hidden, KernelRecord(bus));
    ReadsItsName(bus);
    OverwrittenLength(hidden, bus);
    if |bus| == 21 {
      StopsAtZero(keep, Cursor(b, 24, 0));
    } else if |bus| == 22 {
      AfterTwentyTwo(allowed, hidden, bus);
    } else {
      assert bus[22] != '\0';
      WalkEnds(keep, Cursor(b, 24 + l, l));
    }
  }

  lemma WrongResult(keep: Record -> bool, b: seq<Octet>)
    requires Parse(b).1 == [] && Filtering(keep, b).r != |Compact(keep, b)|
    ensures !FilteredExactly(keep, b)
  {
  }

  lemma UnsafeIsText(allowed: Allowed, bus: string)
    requires IsAllowList(allowed) && CarriesBus(allowed.gpus, bus) && !SafeBus(bus)
    ensures IsBusText(bus) && bus != "" && forall k :: 0 <= k < |bus| ==> bus[k] as int < 256
  {
  }

  /** For every allowed bus that is not safe there is a listing for which the result is wrong. */
  lemma UnsafeListing(allowed: Allowed, bus: string) returns (b: seq<Octet>)
    requires IsAllowList(allowed) && CarriesBus(allowed.gpus, bus) && !SafeBus(bus)
    ensures IsListing(b) && !FilteredExactly(Keeps(Some(allowed)), b)
  {
    hide *;
    UnsafeIsText(allowed, bus);
    BusIsKept(allowed, bus);
    var hidden := HiddenThenKept(allowed, KernelRecord(bus));
    b := hidden + KernelRecord(bus) + [];
    AfterUnsafeBus(allowed, hidden, bus);
    WrongResult(Keeps(Some(allowed)), b);
  }

  lemma OverwrittenLength(hidden: Record, bus: seq<Octet>)
    requires IsRecord(hidden) && |hidden| == 24 && IsBusText(bus) && |bus| >= 21
    ensures |Overwritten(hidden, KernelRecord(bus))| == 24 + |KernelRecord(bus)|
    ensures 48 <= |KernelRecord(bus)| == KernelLength(bus) <= 56
    ensures LengthAt(Overwritten(hidden, KernelRecord(bus)), 24) == RereadLength(KernelRecord(bus), 24)
  {
    hide LengthAt, RereadLength;
    KernelRecordIs(bus);
    KeptBytes(hidden, KernelRecord(bus), []);
  }

  /** The filter leaves the kept records packed in front and says how many bytes they are. */
  ghost predicate FilteredExactly(keep: Record -> bool, b: seq<Octet>) {
    var w := Filtering(keep, b);
    Compacted(keep, b, w.bytes, w.r)
  }

  /**
   The filter treats every listing the kernel can write as intended exactly when every allowed bus is
   safe.
   */
  lemma KernelListingsExact(allowed: Allowed)
    requires IsAllowList(allowed)
    ensures (forall b :: IsListing(b) ==> FilteredExactly(Keeps(Some(allowed)), b)) <==>
            (forall i :: 0 <= i < |allowed.gpus| ==> SafeBus(allowed.gpus[i].busId))
  {
    hide IsListing, FilteredExactly, Keeps;
    if i :| 0 <= i < |allowed.gpus| && !SafeBus(allowed.gpus[i].busId) {
      var b := UnsafeListing(allowed, allowed.gpus[i].busId);
    } else {
      forall b | IsListing(b) ensures FilteredExactly(Keeps(Some(allowed)), b) {
        SafeListing(allowed, b);
      }
    }
  }

  lemma SafeListing(allowed: Allowed, b: seq<Octet>)
    requires forall i :: 0 <= i < |allowed.gpus| ==> SafeBus(allowed.gpus[i].busId)
    requires IsListing(b)
    ensures AllSurvive(Keeps(Some(allowed)), Parse(b).0, 0)
    ensures FilteredExactly(Keeps(Some(allowed)), b)
    ensures Filtering(Keeps(Some(allowed)), b).r <= |b|
  {
    hide Keeps, Walk;
    ParseSound(b);
    SafeBusesSurvive(allowed, Parse(b).0, 0);
    FilteringTheorem(Keeps(Some(allowed)), b);
  }

  /** The same condition decides whether no length field is ever misread. */
  lemma KernelListingsSurvive(allowed: Allowed)
    requires IsAllowList(allowed)
    ensures (forall b :: IsListing(b) ==> AllSurvive(Keeps(Some(allowed)), Parse(b).0, 0)) <==>
            (forall i :: 0 <= i < |allowed.gpus| ==> SafeBus(allowed.gpus[i].busId))
  {
    hide IsListing, Filtering, AllSurvive, Keeps, Compacted, SafeBus;
    if i :| 0 <= i < |allowed.gpus| && !SafeBus(allowed.gpus[i].busId) {
      var b := UnsafeListing(allowed, allowed.gpus[i].busId);
      FilteringTheorem(Keeps(Some(allowed)), b);
    } else {
      forall b | IsListing(b) ensures AllSurvive(Keeps(Some(allowed)), Parse(b).0, 0) {
        SafeListing(allowed, b);
      }
    }
  }
}
