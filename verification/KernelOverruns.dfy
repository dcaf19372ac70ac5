/** Listings laid out as the kernel does for which the filter's result exceeds the buffer. */
module KernelOverruns {
  import opened Sequences
  import opened CStrings
  import opened Topology
  import opened DirentRecords
  import opened DirentWalk
  import opened DirentLaws
  import opened KernelListings

  /** A bus that is not safe, other than those of 22 characters that end below '0'. */
  predicate CanOverrun(bus: string) {
    |bus| >= 21 && (|bus| == 22 ==> bus[21] > '0')
  }

  // ----- two entries are enough for most of them

  /** The bus's record, with 1 in its first byte of padding if it has 21 characters. */
  function BusRecord(bus: seq<Octet>): Record {
    Sample(KernelLength(bus), bus, 41, if |bus| == 21 then Byte(1) else '\0')
  }

  lemma BusRecordIs(allowed: Allowed, bus: seq<Octet>)
    requires IsAllowList(allowed) && CarriesBus(allowed.gpus, bus) && IsBusText(bus) && |bus| >= 21
    ensures IsKernelRecord(BusRecord(bus)) && Keeps(Some(allowed))(BusRecord(bus))
    ensures |BusRecord(bus)| == KernelLength(bus)
  {
    SampleIsRecord(KernelLength(bus), bus, 41, if |bus| == 21 then Byte(1) else '\0');
  }

  lemma BusRecordReread(bus: seq<Octet>)
    requires IsBusText(bus) && |bus| >= 21
    ensures RereadLength(BusRecord(bus), 24) == if |bus| == 21 then 256 else ReadInName(bus)
  {
    var rec, padding := BusRecord(bus), if |bus| == 21 then Byte(1) else '\0';
    assert forall k :: 40 <= k <= 41 ==> rec[k] == SampleByte(k, KernelLength(bus), bus, 41, padding);
  }

  lemma OverrunOfTwo(allowed: Allowed, bus: seq<Octet>) returns (b: seq<Octet>)
    requires IsAllowList(allowed) && CarriesBus(allowed.gpus, bus) && IsBusText(bus)
    requires |bus| >= 21 && (|bus| == 22 ==> bus[21] as nat > 72)
    ensures IsListing(b) && |b| == 24 + KernelLength(bus)
    ensures Filtering(Keeps(Some(allowed)), b).r == if |bus| == 21 then 256 else ReadInName(bus)
    ensures Filtering(Keeps(Some(allowed)), b).r > |b|
  {
    hide Walk, Keeps, IsKernelRecord, RereadLength, BusRecord, IsListing, Parse, KernelShaped, Compact;
    BusRecordIs(allowed, bus);
    var hidden := HiddenThenKept(allowed, BusRecord(bus));
    b := hidden + BusRecord(bus) + [];
    BusRecordReread(bus);
    assert |bus| > 22 ==> bus[22] != '\0';
    var l := RereadLength(BusRecord(bus), 24);
    assert l > |b|;
    WalkEnds(Keeps(Some(allowed)), Cursor(Overwritten(hidden, BusRecord(bus)), 24 + l, l));
  }

  // ----- 22 characters that end in '1' to 'H' need a longer listing

  /** A kept record whose length field, read again, lies among its own bytes. */
  lemma KeepAndLeave(keep: Record -> bool, c: Cursor, l: nat)
    requires c.AtRecord() && l == LengthAt(c.b, c.ro) && c.ro + l <= |c.b| && keep(c.b[c.ro..][..l])
    requires c.wo < c.ro && c.ro - c.wo + LENGTH_AT + 1 < l
    requires 256 * c.b[2 * c.ro - c.wo + LENGTH_AT + 1] as nat > |c.b|
    ensures Walk(keep, c).r > |c.b|
  {
    hide Walk, Moved, Cursor.AtRecord;
    LengthOfNext(c);
    MovedByte(c.b, c.wo, c.ro, l, c.ro + LENGTH_AT + 1);
    assert LengthAt(Moved(c.b, c.wo, c.ro, l), c.ro) > |c.b|;
    WalkStep(keep, c);
    WalkEnds(keep, Turn(keep, c));
  }

  lemma LengthOfNext(c: Cursor)
    requires c.AtRecord()
    ensures c.ro + HEADER <= |c.b| && c.wo <= c.ro
  {
  }

  lemma MovedByte(b: seq<Octet>, dst: nat, src: nat, n: nat, k: nat)
    requires dst < src && src + n <= |b| && dst <= k < dst + n
    ensures Moved(b, dst, src, n)[k] == b[k - dst + src]
  {
  }

  /**
   What the walk meets when it goes on at s = 24 + c: bytes that pass for a hidden entry, 256 + a bytes
   long, and behind them bytes that pass for an entry named "." of 512 bytes.
   */
  ghost predicate Trap(b: seq<Octet>, s: nat, a: nat, h: Octet) {
    var t := s + 256 + a;
    t + 512 <= |b| < 0xff00 && a <= 8 &&
    b[s + 16] as nat == a && b[s + 17] as nat == 1 && b[s + 19] == h && b[s + 20] == '\0' &&
    b[t + 16] == '\0' && b[t + 17] as nat == 2 && b[t + 19] == '.' && b[t + 20] == '\0' &&
    b[t + 297 + a] as nat == 255
  }

  /** Bytes that pass for a record of l bytes with a name of one character. */
  ghost predicate PassesFor(b: seq<Octet>, s: nat, l: nat, x: char) {
    21 <= l && s + l <= |b| && LengthAt(b, s) == l && HasRecord(b[s..]) && Name(b[s..][..l]) == [x]
  }

  lemma Passes(b: seq<Octet>, s: nat, low: nat, high: nat, x: char)
    requires 21 <= low + 256 * high && s + low + 256 * high <= |b| && x != '\0'
    requires b[s + 16] as nat == low && b[s + 17] as nat == high && b[s + 19] == x && b[s + 20] == '\0'
    ensures PassesFor(b, s, low + 256 * high, x)
  {
    hide HasRecord, Name;
    RecordAhead(b, s, s + 20);
    assert b[s + HEADER..s + HEADER + 1] == [x];
    NameAhead(b, s, low + 256 * high, [x]);
  }

  lemma FirstTrap(allowed: Allowed, b: seq<Octet>, c: nat, a: nat, h: Octet)
    requires Trap(b, 24 + c, a, h) && h != '\0' && h != '.' && !CarriesBus(allowed.gpus, [h])
    ensures Cursor(b, 24 + c, c).AtRecord()
    ensures Turn(Keeps(Some(allowed)), Cursor(b, 24 + c, c)) == Cursor(b, 280 + c + a, c)
  {
    hide HasRecord, Name, LengthAt, Moved;
    Passes(b, 24 + c, a, 1, h);
  }

  lemma SecondTrap(allowed: Allowed, b: seq<Octet>, c: nat, a: nat, h: Octet)
    requires Trap(b, 24 + c, a, h)
    ensures Walk(Keeps(Some(allowed)), Cursor(b, 280 + c + a, c)).r > |b|
  {
    hide HasRecord, Name, LengthAt, Walk;
    Passes(b, 280 + c + a, 0, 2, '.');
    KeepAndLeave(Keeps(Some(allowed)), Cursor(b, 280 + c + a, c), 512);
  }

  lemma TrapOverruns(allowed: Allowed, b: seq<Octet>, c: nat, a: nat, h: Octet)
    requires Trap(b, 24 + c, a, h) && h != '\0' && h != '.' && !CarriesBus(allowed.gpus, [h])
    ensures Walk(Keeps(Some(allowed)), Cursor(b, 24 + c, c)).r > |b|
  {
    hide Walk, Trap, Turn, Keeps, Cursor.AtRecord;
    FirstTrap(allowed, b, c, a, h);
    WalkStep(Keeps(Some(allowed)), Cursor(b, 24 + c, c));
    SecondTrap(allowed, b, c, a, h);
  }

  // ----- such bytes occur across entries of the kernel's own layout

  /** The low byte of the trap's length, at offset o of an entry; it puts the next trap at offset 1 of another. */
  function LowByte(o: nat): (a: nat)
    requires o >= 1
    ensures a <= 8 && (a == 0 <==> o == 1) && (o + a) % 8 == 1
  {
    if o == 1 then 0 else 8 - (o + 7) % 8
  }

  function TrapChar(o: nat, h: Octet, i: nat): Octet
    requires o >= 1
  {
    if i == o then h else if i + 3 == o then Byte(LowByte(o)) else Byte(1)
  }

  /** A name whose last character is the hidden entry's, and whose others supply the trap's length. */
  function TrapName(o: nat, h: Octet): seq<Octet>
    requires o >= 1
  {
    seq<Octet>(o + 1, i requires 0 <= i => TrapChar(o, h, i))
  }

  function TrapType(o: nat): Octet
    requires o >= 1
  {
    if o == 1 then Byte(1) else Byte(LowByte(o))
  }

  function TrapRecord(o: nat, h: Octet): Record
    requires o >= 1
  {
    Sample(KernelLength(TrapName(o, h)), TrapName(o, h), HEADER - 1, TrapType(o))
  }

  /** An entry of the kernel's layout with a given length, the same character throughout, also as its type. */
  function Filler(length: nat, c: Octet): Record {
    Sample(length, seq<Octet>(if length < 24 then 0 else length - 20, i => c), HEADER - 1, c)
  }

  lemma FillerIs(length: nat, c: Octet)
    requires 24 <= length < 0x1_0000 && length % 8 == 0 && c != '\0'
    ensures IsKernelRecord(Filler(length, c)) && |Filler(length, c)| == length
    ensures forall k :: HEADER - 1 <= k < length - 1 ==> Filler(length, c)[k] == c
  {
    SampleIsRecord(length, seq<Octet>(length - 20, i => c), HEADER - 1, c);
  }

  lemma TrapRecordIs(o: nat, h: Octet)
    requires 1 <= o <= 24 && h != '\0'
    ensures IsKernelRecord(TrapRecord(o, h)) && |TrapRecord(o, h)| == (o + 28) / 8 * 8
    ensures o + 20 < |TrapRecord(o, h)|
  {
    hide LowByte;
    SampleIsRecord(KernelLength(TrapName(o, h)), TrapName(o, h), HEADER - 1, TrapType(o));
  }

  lemma TrapRecordBytes(o: nat, h: Octet)
    requires 1 <= o <= 24 && |TrapRecord(o, h)| == (o + 28) / 8 * 8
    ensures o + 20 < |TrapRecord(o, h)|
    ensures TrapRecord(o, h)[o + 16] as nat == LowByte(o) && TrapRecord(o, h)[o + 17] as nat == 1
    ensures TrapRecord(o, h)[o + 19] == h && TrapRecord(o, h)[o + 20] == '\0'
  {
    var n := |TrapRecord(o, h)|;
    forall k: nat | k < n ensures TrapRecord(o, h)[k] == SampleByte(k, n, TrapName(o, h), HEADER - 1, TrapType(o)) {
    }
  }

  /** An entry that passes for a kept one of 512 bytes from its second byte on. */
  function DotRecord(): Record {
    Sample(24, [Byte(1), '.'], HEADER - 1, Byte(2))
  }

  lemma DotRecordIs()
    ensures IsKernelRecord(DotRecord()) && |DotRecord()| == 24
    ensures DotRecord()[17] == '\0' && DotRecord()[18] as nat == 2
    ensures DotRecord()[20] == '.' && DotRecord()[21] == '\0'
  {
    SampleIsRecord(24, [Byte(1), '.'], HEADER - 1, Byte(2));
  }

  // ----- the whole listing

  /** The entries behind the bus: the trap, the entry named ".", and fillers to put them in their places. */
  function Tail(o: nat, h: Octet): Records
    requires 1 <= o <= 24
  {
    var x := TrapRecord(o, h);
    Cons(x, Cons(Filler(255 + o + LowByte(o) - |x|, Byte(1)),
    Cons(DotRecord(), Cons(Filler(256, Byte(1)), Cons(Filler(256, Byte(255)), Nil)))))
  }

  ghost predicate AllKernelRecords(rs: Records) {
    rs.Cons? ==> IsKernelRecord(rs.rec) && AllKernelRecords(rs.more)
  }

  lemma {:induction false} ShapedRecords(rs: Records)
    requires AllKernelRecords(rs)
    ensures AllRecords(rs) && KernelShaped(rs)
  {
    if rs.Cons? {
      ShapedRecords(rs.more);
    }
  }

  lemma RecordsAreListing(rs: Records)
    requires AllKernelRecords(rs)
    ensures IsListing(Flatten(rs))
  {
    ShapedRecords(rs);
    assert Flatten(rs) + [] == Flatten(rs);
    NoRecordInNothing();
    ParseFlatten(rs, []);
  }

  lemma TailIs(o: nat, h: Octet)
    requires 1 <= o <= 24 && h != '\0'
    ensures AllKernelRecords(Tail(o, h))
  {
    hide IsKernelRecord, TrapRecord, Filler, DotRecord, LowByte;
    var n := |TrapRecord(o, h)|;
    TrapRecordIs(o, h);
    FillerIs(255 + o + LowByte(o) - n, Byte(1));
    DotRecordIs();
    FillerIs(256, Byte(1));
    FillerIs(256, Byte(255));
    var last := Cons(Filler(256, Byte(255)), Nil);
    var dots := Cons(DotRecord(), Cons(Filler(256, Byte(1)), last));
    assert AllKernelRecords(last);
    assert AllKernelRecords(dots);
  }

  /** Where the bytes of five pieces end up. */
  lemma Five(front: seq<Octet>, x: seq<Octet>, f: seq<Octet>, d: seq<Octet>, g: seq<Octet>, y: seq<Octet>)
    ensures var b := front + (x + (f + (d + (g + (y + []))))); var at := |front| + |x| + |f|;
            |b| == at + |d| + |g| + |y| &&
            (forall k :: 0 <= k < |x| ==> b[|front| + k] == x[k]) &&
            (forall k :: 0 <= k < |d| ==> b[at + k] == d[k]) &&
            (forall k :: 0 <= k < |y| ==> b[at + |d| + |g| + k] == y[k])
  {
  }

  lemma FlattenFive(x: Record, f: Record, d: Record, g: Record, y: Record)
    ensures Flatten(Cons(x, Cons(f, Cons(d, Cons(g, Cons(y, Nil)))))) == x + (f + (d + (g + (y + []))))
  {
    assert Flatten(Cons(y, Nil)) == y + Flatten(Nil);
    assert Flatten(Cons(g, Cons(y, Nil))) == g + (y + []);
    assert Flatten(Cons(d, Cons(g, Cons(y, Nil)))) == d + (g + (y + []));
  }

  lemma TailTraps(front: seq<Octet>, o: nat, h: Octet)
    requires |front| == 72 && 1 <= o <= 24 && h != '\0'
    ensures Trap(front + Flatten(Tail(o, h)), 72 + o, LowByte(o), h)
  {
    hide IsKernelRecord, TrapRecord, Filler, DotRecord, LowByte, Flatten;
    var x, a := TrapRecord(o, h), LowByte(o);
    TrapRecordIs(o, h);
    TrapRecordBytes(o, h);
    FillerIs(255 + o + a - |x|, Byte(1));
    DotRecordIs();
    FillerIs(256, Byte(1));
    FillerIs(256, Byte(255));
    var f, d := Filler(255 + o + a - |x|, Byte(1)), DotRecord();
    var g, y := Filler(256, Byte(1)), Filler(256, Byte(255));
    FlattenFive(x, f, d, g, y);
    Five(front, x, f, d, g, y);
    var b := front + (x + (f + (d + (g + (y + [])))));
    assert b[72 + o + 16] == x[o + 16] && b[72 + o + 17] == x[o + 17];
    assert b[72 + o + 19] == x[o + 19] && b[72 + o + 20] == x[o + 20];
    var at := 327 + o + a;
    assert b[at + 17] == d[17] && b[at + 18] == d[18] && b[at + 20] == d[20] && b[at + 21] == d[21];
    assert b[at + 280 + (18 + a)] == y[18 + a];
  }

  lemma TwoMore(a: Record, b: Record, rs: Records)
    requires IsKernelRecord(a) && IsKernelRecord(b) && AllKernelRecords(rs)
    ensures IsListing(a + b + Flatten(rs))
  {
    hide IsKernelRecord, IsListing;
    assert AllKernelRecords(Cons(b, rs));
    RecordsAreListing(Cons(a, Cons(b, rs)));
    assert Flatten(Cons(a, Cons(b, rs))) == a + Flatten(Cons(b, rs));
    assert a + (b + Flatten(rs)) == a + b + Flatten(rs);
  }

  lemma HiddenIsDropped(allowed: Allowed, h: Octet)
    requires h != '\0' && h != '.' && !CarriesBus(allowed.gpus, [h])
    ensures IsKernelRecord(KernelRecord([h])) && |KernelRecord([h])| == 24 && !Keeps(Some(allowed))(KernelRecord([h]))
  {
    KernelRecordIs([h]);
  }

  lemma OverrunOfMany(allowed: Allowed, bus: seq<Octet>) returns (b: seq<Octet>)
    requires IsAllowList(allowed) && CarriesBus(allowed.gpus, bus) && IsBusText(bus)
    requires |bus| == 22 && 48 < bus[21] as nat <= 72
    ensures IsListing(b) && Filtering(Keeps(Some(allowed)), b).r > |b|
  {
    hide Walk, Keeps, IsRecord, RereadLength, KernelRecord, Tail, Trap, Flatten, LowByte;
    var kept, o, keep := KernelRecord(bus), bus[21] as nat - 48, Keeps(Some(allowed));
    var h := UnusedName(allowed.gpus, Letters(MAX_GPUS + 1));
    HiddenIsDropped(allowed, h);
    var hidden := KernelRecord([h]);
    BusIsKept(allowed, bus);
    TailIs(o, h);
    var tail := Flatten(Tail(o, h));
    b := hidden + kept + tail;
    ReadsItsName(bus);
    DropThenKeep(keep, hidden, kept, tail);
    var front := kept + StaleAfter(hidden, kept);
    TailTraps(front, o, h);
    TrapOverruns(allowed, front + tail, bus[21] as nat, LowByte(o), h);
    TwoMore(hidden, kept, Tail(o, h));
  }

  // ----- which allow-lists keep every result within its buffer

  /**
   If every allowed bus is safe, no listing of the kernel gets a result beyond its length; if some bus is
   not, and does not end below '0' with 22 characters, some listing does.
   */
  lemma KernelListingsFit(allowed: Allowed)
    requires IsAllowList(allowed)
    ensures (forall i :: 0 <= i < |allowed.gpus| ==> SafeBus(allowed.gpus[i].busId)) ==>
              forall b :: IsListing(b) ==> Filtering(Keeps(Some(allowed)), b).r <= |b|
    ensures (exists i :: 0 <= i < |allowed.gpus| && CanOverrun(allowed.gpus[i].busId)) ==>
              exists b :: IsListing(b) && Filtering(Keeps(Some(allowed)), b).r > |b|
  {
    hide IsListing, Filtering, Keeps, SafeBus;
    if forall i :: 0 <= i < |allowed.gpus| ==> SafeBus(allowed.gpus[i].busId) {
      forall b | IsListing(b) ensures Filtering(Keeps(Some(allowed)), b).r <= |b| {
        SafeListing(allowed, b);
      }
    }
    if i :| 0 <= i < |allowed.gpus| && CanOverrun(allowed.gpus[i].busId) {
      var b := Overrun(allowed, allowed.gpus[i].busId);
    }
  }

  /** For every listed bus that can, a listing that overruns. */
  lemma Overrun(allowed: Allowed, bus: string) returns (b: seq<Octet>)
    requires IsAllowList(allowed) && CarriesBus(allowed.gpus, bus) && CanOverrun(bus)
    ensures IsListing(b) && Filtering(Keeps(Some(allowed)), b).r > |b|
  {
    hide IsListing, Filtering, Keeps;
    if |bus| == 22 && bus[21] as nat <= 72 {
      b := OverrunOfMany(allowed, bus);
    } else {
      b := OverrunOfTwo(allowed, bus);
    }
  }
}
