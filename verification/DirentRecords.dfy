/**
 Directory records in a buffer.  A record carries its own length in the two bytes at offset 16 (little
 endian) and its NUL-terminated name from offset 19 on.
 */
module DirentRecords {
  import opened Sequences
  import opened CStrings
  import opened Topology

  const LENGTH_AT: nat := 16
  const HEADER: nat := 19

  type Record = seq<Octet>

  datatype Records = Nil | Cons(rec: Record, more: Records)

  /** The length field of the record that starts at an offset. */
  function LengthAt(b: seq<Octet>, o: nat): (n: nat)
    requires o + HEADER <= |b|
    ensures n < 0x1_0000
  {
    b[o + LENGTH_AT] as nat + 256 * b[o + LENGTH_AT + 1] as nat
  }

  predicate NameIsValid(b: seq<Octet>)
    requires |b| >= HEADER
  {
    HEADER <= LengthAt(b, 0) <= |b| && '\0' in b[HEADER..LengthAt(b, 0)]
  }

  predicate HasRecord(b: seq<Octet>) {
    |b| >= HEADER && NameIsValid(b)
  }

  ghost predicate IsRecord(rec: Record) {
    HasRecord(rec) && LengthAt(rec, 0) == |rec|
  }

  function Name(rec: Record): string {
    if |rec| < HEADER then "" else CStr(rec[HEADER..])
  }

  ghost predicate KeepName(allowed: Option<Allowed>, name: string) {
    IsDot(name) || ContainsBus(allowed, name)
  }

  ghost function Keeps(allowed: Option<Allowed>): Record -> bool {
    rec => KeepName(allowed, Name(rec))
  }

  // ----- records and bytes

  /** The well-formed records at the front, and the bytes from the first malformed record on. */
  ghost function Parse(b: seq<Octet>): (Records, seq<Octet>)
    decreases |b|
  {
    if !HasRecord(b) then (Nil, b)
    else
      var (rs, tail) := Parse(b[LengthAt(b, 0)..]);
      (Cons(b[..LengthAt(b, 0)], rs), tail)
  }

  ghost function Flatten(rs: Records): seq<Octet> {
    match rs
    case Nil => []
    case Cons(rec, more) => rec + Flatten(more)
  }

  ghost predicate AllRecords(rs: Records) {
    rs.Cons? ==> IsRecord(rs.rec) && AllRecords(rs.more)
  }

  ghost function Kept(keep: Record -> bool, rs: Records): Records {
    match rs
    case Nil => Nil
    case Cons(rec, more) => if keep(rec) then Cons(rec, Kept(keep, more)) else Kept(keep, more)
  }

  /** When bytes start with a record, and what its length and name are. */
  lemma RecordExact(b: seq<Octet>)
    ensures HasRecord(b) <==>
            |b| >= 19 && 19 <= b[16] as int + 256 * b[17] as int <= |b| &&
            exists k :: 19 <= k < b[16] as int + 256 * b[17] as int && b[k] == '\0'
    ensures HasRecord(b) ==>
              LengthAt(b, 0) == b[16] as int + 256 * b[17] as int &&
              Name(b[..LengthAt(b, 0)]) == CStr(b[19..LengthAt(b, 0)])
  {
    if |b| >= HEADER && HEADER <= LengthAt(b, 0) <= |b| {
      var l := LengthAt(b, 0);
      assert forall k :: 19 <= k < l ==> b[HEADER..l][k - 19] == b[k];
      assert b[..l][HEADER..] == b[HEADER..l];
    }
  }

  /** A record at the front of some bytes is recognised whatever follows it. */
  lemma RecordThenBytes(rec: Record, later: seq<Octet>)
    requires IsRecord(rec)
    ensures HasRecord(rec + later) && LengthAt(rec + later, 0) == |rec|
    ensures (rec + later)[..|rec|] == rec && (rec + later)[|rec|..] == later
  {
    assert (rec + later)[HEADER..|rec|] == rec[HEADER..];
  }

  /** The record at the front of some bytes. */
  lemma CutRecord(b: seq<Octet>)
    requires HasRecord(b)
    ensures var l := LengthAt(b, 0);
            0 < l <= |b| && IsRecord(b[..l]) && b == b[..l] + b[l..]
  {
    assert b[..LengthAt(b, 0)][HEADER..] == b[HEADER..LengthAt(b, 0)];
  }

  lemma {:induction false} ParseSound(b: seq<Octet>)
    ensures var (rs, tail) := Parse(b);
            AllRecords(rs) && Flatten(rs) + tail == b && !HasRecord(tail)
    decreases |b|
  {
    hide NameIsValid, LengthAt, IsRecord;
    if HasRecord(b) {
      CutRecord(b);
      var first, rest := b[..LengthAt(b, 0)], b[LengthAt(b, 0)..];
      ParseSound(rest);
      assert first + Flatten(Parse(rest).0) + Parse(rest).1 == first + (Flatten(Parse(rest).0) + Parse(rest).1);
    }
  }

  /** Parsing undoes concatenation. */
  lemma {:induction false} ParseFlatten(rs: Records, tail: seq<Octet>)
    requires AllRecords(rs) && !HasRecord(tail)
    ensures Parse(Flatten(rs) + tail) == (rs, tail)
  {
    match rs
    case Nil =>
      assert [] + tail == tail;
    case Cons(rec, more) =>
      ParseFlatten(more, tail);
      RecordThenBytes(rec, Flatten(more) + tail);
      assert rec + Flatten(more) + tail == rec + (Flatten(more) + tail);
  }

  // ----- the re-read length

  /**
   The length found at the old place of a record after it moved left by gap bytes: the move may have
   covered the field with later bytes of the same record.
   */
  ghost function RereadLength(rec: Record, gap: nat): nat
    requires |rec| >= HEADER
  {
    (if LENGTH_AT + gap < |rec| then rec[LENGTH_AT + gap] else rec[LENGTH_AT]) as nat +
    256 * (if LENGTH_AT + 1 + gap < |rec| then rec[LENGTH_AT + 1 + gap] else rec[LENGTH_AT + 1]) as nat
  }

  ghost predicate Survives(rec: Record, gap: nat) {
    gap == 0 || (|rec| >= HEADER && RereadLength(rec, gap) == |rec|)
  }

  /** Every kept record's length field survives its own move; gap counts the bytes dropped so far. */
  ghost predicate AllSurvive(keep: Record -> bool, rs: Records, gap: nat) {
    match rs
    case Nil => true
    case Cons(rec, more) =>
      if keep(rec) then Survives(rec, gap) && AllSurvive(keep, more, gap)
      else AllSurvive(keep, more, gap + |rec|)
  }

  /** The offsets at which consecutive records start, and where the last one ends. */
  ghost function Boundaries(start: nat, rs: Records): seq<nat>
    decreases rs
  {
    match rs
    case Nil => [start]
    case Cons(rec, more) => [start] + Boundaries(start + |rec|, more)
  }

  /** The kept records packed together. */
  ghost function Compact(keep: Record -> bool, b: seq<Octet>): seq<Octet> {
    Flatten(Kept(keep, Parse(b).0))
  }

  /** What the filter should leave behind: the kept records in front, every later byte as it was. */
  ghost predicate Compacted(keep: Record -> bool, before: seq<Octet>, after: seq<Octet>, r: int) {
    var out := Compact(keep, before);
    |out| <= |before| && after == out + before[|out|..] &&
    r == if Parse(before).1 == [] then |out| else |before|
  }

  /** Bytes copied to a lower place; the source copies nothing when they are in place already. */
  function Moved(b: seq<Octet>, dst: nat, src: nat, n: nat): (b': seq<Octet>)
    requires dst + n <= |b| && src + n <= |b|
    ensures |b'| == |b|
  {
    if dst == src then b else b[..dst] + b[src..src + n] + b[dst + n..]
  }
}
