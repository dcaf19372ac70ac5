/** Listing the gpus directory through getdents64 and through readdir. */
module Listing {
  import opened Sequences
  import opened CStrings
  import opened Topology
  import opened DirentRecords
  import opened DirentWalk
  import opened DirentLaws
  import opened KernelListings
  import opened FdMap
  import opened OpenatPaths
  import opened Shim

  function Names(rs: Records): seq<string> {
    match rs
    case Nil => []
    case Cons(rec, more) => [Name(rec)] + Names(more)
  }

  /** Reading a stream with repeated readdir calls until it answers NULL. */
  ghost function ReadAll(shown: string -> bool, entries: seq<string>, pos: nat): seq<string>
    requires pos <= |entries|
    decreases |entries| - pos
  {
    var k := NextShown(shown, entries, pos);
    if k == |entries| then [] else [entries[k]] + ReadAll(shown, entries, k + 1)
  }

  /** Repeated readdir yields the shown entries, in order. */
  lemma {:induction false} ReadAllIsFilter(shown: string -> bool, entries: seq<string>, pos: nat)
    requires pos <= |entries|
    ensures ReadAll(shown, entries, pos) == Filter(shown, entries[pos..])
    decreases |entries| - pos
  {
    var k := NextShown(shown, entries, pos);
    SkippedEntries(shown, entries, pos, k);
    if k < |entries| {
      ReadAllIsFilter(shown, entries, k + 1);
      assert entries[k..][1..] == entries[k + 1..];
    }
  }

  lemma {:induction false} SkippedEntries(shown: string -> bool, entries: seq<string>, pos: nat, k: nat)
    requires pos <= k <= |entries| && forall j :: pos <= j < k ==> !shown(entries[j])
    ensures Filter(shown, entries[pos..]) == Filter(shown, entries[k..])
    decreases k - pos
  {
    if pos < k {
      SkippedEntries(shown, entries, pos + 1, k);
      assert entries[pos..][1..] == entries[pos + 1..];
      assert [] + Filter(shown, entries[pos + 1..]) == Filter(shown, entries[pos + 1..]);
    }
  }

  ghost function NameTest(allowed: Option<Allowed>): string -> bool {
    (name: string) => KeepName(allowed, name)
  }

  lemma {:induction false} NamesOfKept(allowed: Option<Allowed>, rs: Records)
    ensures Names(Kept(Keeps(allowed), rs)) == Filter(NameTest(allowed), Names(rs))
    decreases rs
  {
    match rs
    case Nil =>
    case Cons(rec, more) =>
      NamesOfKept(allowed, more);
      assert Names(rs)[1..] == Names(more);
      assert [] + Filter(NameTest(allowed), Names(more)) == Filter(NameTest(allowed), Names(more));
  }

  /** The bytes one getdents64 call got from the kernel: records only, each with a length that survives. */
  ghost predicate GoodChunk(allowed: Option<Allowed>, raw: seq<Octet>) {
    Parse(raw).1 == [] && AllSurvive(Keeps(allowed), Parse(raw).0, 0)
  }

  /** The entries the kernel delivered that the filter shows. */
  ghost function ShownNames(allowed: Option<Allowed>, raw: seq<Octet>): seq<string> {
    Filter(NameTest(allowed), Names(Parse(raw).0))
  }

  /** The result the caller gets for the kernel's bytes. */
  ghost function Answer(allowed: Option<Allowed>, raw: seq<Octet>): nat {
    Filtering(Keeps(allowed), raw).r
  }

  /** The names a caller finds in the bytes it was told about. */
  ghost function Delivered(allowed: Option<Allowed>, raw: seq<Octet>): seq<string> {
    var w := Filtering(Keeps(allowed), raw);
    if w.r <= |w.bytes| then Names(Parse(w.bytes[..w.r]).0) else []
  }

  ghost function RawNames(chunks: seq<seq<Octet>>): seq<string> {
    if chunks == [] then [] else Names(Parse(chunks[0]).0) + RawNames(chunks[1..])
  }

  /** Reading a directory with getdents64 until it answers 0, which means its end. */
  ghost function GetdentsAll(allowed: Option<Allowed>, chunks: seq<seq<Octet>>): seq<string> {
    if chunks == [] || Answer(allowed, chunks[0]) == 0 then []
    else Delivered(allowed, chunks[0]) + GetdentsAll(allowed, chunks[1..])
  }

  lemma ChunkDelivers(allowed: Option<Allowed>, raw: seq<Octet>)
    requires GoodChunk(allowed, raw)
    ensures Delivered(allowed, raw) == ShownNames(allowed, raw)
    ensures Answer(allowed, raw) == 0 <==> ShownNames(allowed, raw) == []
  {
    hide Walk;
    FilteringTheorem(Keeps(allowed), raw);
    var out := Compact(Keeps(allowed), raw);
    assert Filtering(Keeps(allowed), raw).bytes[..|out|] == out;
    CompactParses(Keeps(allowed), raw);
    NamesOfKept(allowed, Parse(raw).0);
    ParseSound(raw);
    KeptTwice(Keeps(allowed), Parse(raw).0);
    assert Parse(out).0.Cons? ==> |out| >= HEADER;
  }

  ghost predicate AllGood(allowed: Option<Allowed>, chunks: seq<seq<Octet>>) {
    forall i :: 0 <= i < |chunks| ==> GoodChunk(allowed, chunks[i])
  }

  /** Once the kernel delivers a chunk with no shown entry, no later chunk has one. */
  ghost predicate NothingAfterEmpty(allowed: Option<Allowed>, chunks: seq<seq<Octet>>) {
    forall i, j :: 0 <= i < j < |chunks| && ShownNames(allowed, chunks[i]) == [] ==>
                     ShownNames(allowed, chunks[j]) == []
  }

  /** What the chunks hold that is shown, whether or not the reader gets that far. */
  lemma AllShown(allowed: Option<Allowed>, chunks: seq<seq<Octet>>)
    ensures Filter(NameTest(allowed), RawNames(chunks)) ==
            if chunks == [] then []
            else ShownNames(allowed, chunks[0]) + Filter(NameTest(allowed), RawNames(chunks[1..]))
  {
    if chunks != [] {
      FilterAppend(NameTest(allowed), Names(Parse(chunks[0]).0), RawNames(chunks[1..]));
    }
  }

  ghost predicate NoneShown(allowed: Option<Allowed>, chunks: seq<seq<Octet>>) {
    forall i :: 0 <= i < |chunks| ==> ShownNames(allowed, chunks[i]) == []
  }

  lemma NoneShownHead(allowed: Option<Allowed>, chunks: seq<seq<Octet>>)
    requires chunks != []
    ensures NoneShown(allowed, chunks) <==> ShownNames(allowed, chunks[0]) == [] && NoneShown(allowed, chunks[1..])
    ensures ShownNames(allowed, chunks[0]) == [] ==>
              (NothingAfterEmpty(allowed, chunks) <==> NoneShown(allowed, chunks[1..]))
  {
    assert forall i :: 1 <= i < |chunks| ==> chunks[i] == chunks[1..][i - 1];
  }

  lemma GoodHead(allowed: Option<Allowed>, chunks: seq<seq<Octet>>)
    requires chunks != [] && AllGood(allowed, chunks)
    ensures GoodChunk(allowed, chunks[0]) && AllGood(allowed, chunks[1..])
  {
  }

  lemma {:induction false} AllEmpty(allowed: Option<Allowed>, chunks: seq<seq<Octet>>)
    ensures Filter(NameTest(allowed), RawNames(chunks)) == [] <==> NoneShown(allowed, chunks)
  {
    hide ShownNames, NameTest, RawNames, Filter;
    AllShown(allowed, chunks);
    if chunks != [] {
      AllEmpty(allowed, chunks[1..]);
      NoneShownHead(allowed, chunks);
    }
  }

  /**
   However the kernel cuts a directory into chunks, reading it with getdents64 yields a prefix of what
   readdir yields, and all of it exactly when no chunk with a shown entry follows one without.
   */
  lemma {:induction false} GetdentsVersusFilter(allowed: Option<Allowed>, chunks: seq<seq<Octet>>)
    requires AllGood(allowed, chunks)
    ensures GetdentsAll(allowed, chunks) <= Filter(NameTest(allowed), RawNames(chunks))
    ensures GetdentsAll(allowed, chunks) == Filter(NameTest(allowed), RawNames(chunks)) <==>
            NothingAfterEmpty(allowed, chunks)
  {
    hide GoodChunk, AllGood, ShownNames, Answer, Delivered, NameTest, RawNames, Filter, NothingAfterEmpty, NoneShown;
    AllShown(allowed, chunks);
    if chunks == [] {
      NothingAfterNone(allowed, chunks);
    } else {
      var rest := chunks[1..];
      GoodHead(allowed, chunks);
      ChunkDelivers(allowed, chunks[0]);
      NoneShownHead(allowed, chunks);
      if ShownNames(allowed, chunks[0]) == [] {
        AllEmpty(allowed, rest);
        assert [] + Filter(NameTest(allowed), RawNames(rest)) == Filter(NameTest(allowed), RawNames(rest));
      } else {
        GetdentsVersusFilter(allowed, rest);
        SamePrefix(ShownNames(allowed, chunks[0]), GetdentsAll(allowed, rest),
                   Filter(NameTest(allowed), RawNames(rest)));
        NothingAfterFull(allowed, chunks);
      }
    }
  }

  lemma NothingAfterNone(allowed: Option<Allowed>, chunks: seq<seq<Octet>>)
    requires chunks == []
    ensures NothingAfterEmpty(allowed, chunks)
  {
  }

  lemma SamePrefix(front: seq<string>, a: seq<string>, b: seq<string>)
    ensures front + a == front + b <==> a == b
    ensures a <= b ==> front + a <= front + b
  {
    assert (front + a)[|front|..] == a && (front + b)[|front|..] == b;
  }

  lemma NothingAfterFull(allowed: Option<Allowed>, chunks: seq<seq<Octet>>)
    requires chunks != [] && ShownNames(allowed, chunks[0]) != []
    ensures NothingAfterEmpty(allowed, chunks) <==> NothingAfterEmpty(allowed, chunks[1..])
  {
    var rest := chunks[1..];
    assert forall i :: 1 <= i < |chunks| ==> chunks[i] == rest[i - 1];
    if NothingAfterEmpty(allowed, rest) {
      forall i, j | 0 <= i < j < |chunks| && ShownNames(allowed, chunks[i]) == []
        ensures ShownNames(allowed, chunks[j]) == []
      {
        assert ShownNames(allowed, rest[i - 1]) == [] ==> ShownNames(allowed, rest[j - 1]) == [];
      }
    }
    if NothingAfterEmpty(allowed, chunks) {
      forall i, j | 0 <= i < j < |rest| && ShownNames(allowed, rest[i]) == []
        ensures ShownNames(allowed, rest[j]) == []
      {
        assert ShownNames(allowed, chunks[i + 1]) == [] ==> ShownNames(allowed, chunks[j + 1]) == [];
      }
    }
  }

  lemma ReaddirShows(policy: Policy, slots: seq<Slot>, fd: int, entries: seq<string>)
    requires policy.ready && IsGpusDir(slots, fd)
    ensures ReadAll(EntryTest(policy, slots, fd), entries, 0) == Filter(NameTest(Some(policy.allowed)), entries)
  {
    ReadAllIsFilter(EntryTest(policy, slots, fd), entries, 0);
    assert entries[0..] == entries;
    FilterAgree(EntryTest(policy, slots, fd), NameTest(Some(policy.allowed)), entries);
  }

  /** The two channels of the shim, on a descriptor recorded as the gpus directory. */
  lemma GetdentsVersusReaddir(policy: Policy, slots: seq<Slot>, fd: int, chunks: seq<seq<Octet>>)
    requires policy.ready && IsGpusDir(slots, fd) && AllGood(Some(policy.allowed), chunks)
    ensures var byReaddir := ReadAll(EntryTest(policy, slots, fd), RawNames(chunks), 0);
            var byGetdents := GetdentsAll(Some(policy.allowed), chunks);
            byGetdents <= byReaddir &&
            (byGetdents == byReaddir <==> NothingAfterEmpty(Some(policy.allowed), chunks))
  {
    ReaddirShows(policy, slots, fd, RawNames(chunks));
    GetdentsVersusFilter(Some(policy.allowed), chunks);
  }

  lemma OneRecord(allowed: Option<Allowed>, rec: Record)
    requires IsRecord(rec)
    ensures GoodChunk(allowed, rec) && Names(Parse(rec).0) == [Name(rec)] && Parse(rec).0 == Cons(rec, Nil)
    ensures ShownNames(allowed, rec) == if Keeps(allowed)(rec) then [Name(rec)] else []
  {
    var rs := Cons(rec, Nil);
    assert Flatten(rs) + [] == rec && !HasRecord([]);
    ParseFlatten(rs, []);
    assert Names(rs) == [Name(rec)];
    assert [Name(rec)][1..] == [] && Filter(NameTest(allowed), []) == [];
  }

  /**
   The listings do differ: if the kernel delivers a hidden entry alone and then any listed bus,
   getdents64 ends before the bus that readdir shows.
   */
  lemma ListingsDiffer(policy: Policy, slots: seq<Slot>, fd: int, bus: string) returns (chunks: seq<seq<Octet>>)
    requires policy.ready && IsGpusDir(slots, fd)
    requires IsAllowList(policy.allowed) && CarriesBus(policy.allowed.gpus, bus) && bus != ""
    ensures |chunks| == 2 && AllGood(Some(policy.allowed), chunks)
    ensures IsListing(chunks[0]) && IsListing(chunks[1])
    ensures GetdentsAll(Some(policy.allowed), chunks) == []
    ensures ReadAll(EntryTest(policy, slots, fd), RawNames(chunks), 0) == [bus]
  {
    hide GoodChunk, IsRecord, Keeps, Answer, Delivered, ShownNames, NameTest, Filter, ReadAll, Parse;
    var allowed := Some(policy.allowed);
    var hidden := HiddenRecord(policy.allowed);
    BusIsKept(policy.allowed, bus);
    var shown := KernelRecord(bus);
    chunks := [hidden, shown];
    OneRecord(allowed, hidden);
    OneRecord(allowed, shown);
    OneRecordIsListing(hidden);
    OneRecordIsListing(shown);
    ChunkDelivers(allowed, hidden);
    AllShown(allowed, chunks);
    AllShown(allowed, chunks[1..]);
    AllShown(allowed, []);
    ReaddirShows(policy, slots, fd, RawNames(chunks));
  }

  // ----- which entries these are

  /** What getdents64 delivers for one chunk: ".", ".." and the names of listed GPUs, in order. */
  lemma DeliveredByRule(allowed: Allowed, raw: seq<Octet>, shown: string -> bool)
    requires allowed.valid && GoodChunk(Some(allowed), raw)
    requires forall name :: shown(name) <==>
               name == "." || name == ".." ||
               (name != "" && exists i :: 0 <= i < |allowed.gpus| && allowed.gpus[i].busId == name)
    ensures Delivered(Some(allowed), raw) == Filter(shown, Names(Parse(raw).0))
  {
    ChunkDelivers(Some(allowed), raw);
    FilterAgree(NameTest(Some(allowed)), shown, Names(Parse(raw).0));
  }

  /** What readdir yields: the same entries on the gpus directory when filtering, and every entry otherwise. */
  lemma ReadAllByRule(policy: Policy, slots: seq<Slot>, fd: int, entries: seq<string>, shown: string -> bool)
    requires policy.ready ==> policy.allowed.valid
    requires forall name :: shown(name) <==>
               !policy.ready || !IsGpusDir(slots, fd) || name == "." || name == ".." ||
               (name != "" && exists i :: 0 <= i < |policy.allowed.gpus| && policy.allowed.gpus[i].busId == name)
    ensures ReadAll(EntryTest(policy, slots, fd), entries, 0) == Filter(shown, entries)
    ensures !policy.ready || !IsGpusDir(slots, fd) ==> ReadAll(EntryTest(policy, slots, fd), entries, 0) == entries
  {
    ReadAllIsFilter(EntryTest(policy, slots, fd), entries, 0);
    assert entries[0..] == entries;
    FilterAgree(EntryTest(policy, slots, fd), shown, entries);
    if !policy.ready || !IsGpusDir(slots, fd) {
      FilterAll(shown, entries);
    }
  }
}
