/** The in-place filter over a buffer of directory records, as src/proc_filter.c runs it. */
module Dirents {
  import opened Sequences
  import opened CStrings
  import opened Topology
  import opened DirentRecords
  import opened DirentWalk

  /** memmove; the source skips it when the record is already in place. */
  method Memmove(buffer: array<Octet>, len: nat, dst: nat, src: nat, n: nat)
    requires dst <= src && src + n <= len <= buffer.Length
    modifies buffer
    ensures buffer[..len] == Moved(old(buffer[..len]), dst, src, n)
    ensures buffer[len..] == old(buffer[len..])
  {
    ghost var b := buffer[..len];
    if dst != src {
      forall i | 0 <= i < n {
        buffer[dst + i] := buffer[src + i];
      }
    }
    forall k | 0 <= k < len ensures buffer[k] == Moved(b, dst, src, n)[k] {
    }
    assert buffer[..len] == Moved(b, dst, src, n);
  }

  method EntryIsKept(rec: Record, allowed: Option<Allowed>) returns (keep: bool)
    requires |rec| >= HEADER
    ensures keep <==> Keeps(allowed)(rec)
    ensures var name := CStr(rec[19..]);
            keep <==> name == "." || name == ".." ||
                      (name != "" && allowed.Some? && allowed.value.valid &&
                       exists i :: 0 <= i < |allowed.value.gpus| && allowed.value.gpus[i].busId == name)
  {
    var name := Name(rec);
    if name == "." || name == ".." {
      return true;
    }
    keep := AllowedContainsBus(allowed, Some(name));
  }

  /**
   The loop body behind the validity checks.  After a move, the length field is read again from the
   buffer, as the source does.
   */
  method TakeEntry(buffer: array<Octet>, len: nat, ro: nat, wo: nat, allowed: Option<Allowed>)
      returns (ro': nat, wo': nat)
    requires wo <= ro < len <= buffer.Length && HasRecord(buffer[..len][ro..])
    modifies buffer
    ensures Cursor(buffer[..len], ro', wo') == Turn(Keeps(allowed), Cursor(old(buffer[..len]), ro, wo))
    ensures buffer[len..] == old(buffer[len..])
  {
    hide Keeps;
    var reclen := LengthAt(buffer[..len], ro);
    var keepIt := EntryIsKept(buffer[..len][ro..][..reclen], allowed);
    wo' := wo;
    if keepIt {
      Memmove(buffer, len, wo, ro, LengthAt(buffer[..len], ro));
      wo' := wo + LengthAt(buffer[..len], ro);
    }
    ro' := ro + LengthAt(buffer[..len], ro);
  }

  /**
   nvfix_filter_dirent64_buffer.  The loop terminates and touches only the first len bytes, whatever
   they are; its result and the bytes it leaves are those of the walk.
   */
  method FilterDirent64Buffer(buffer: array?<Octet>, len: int, allowed: Option<Allowed>) returns (r: int)
    requires buffer != null ==> len <= buffer.Length
    modifies buffer
    ensures buffer == null || len <= 0 || allowed.None? || !allowed.value.valid ==>
              r == len && (buffer != null ==> buffer[..] == old(buffer[..]))
    ensures buffer != null && len > 0 && allowed.Some? && allowed.value.valid ==>
              var w := Filtering(Keeps(allowed), old(buffer[..len]));
              r == w.r && buffer[..len] == w.bytes && buffer[len..] == old(buffer[len..])
    ensures buffer != null && len > 0 && allowed.Some? && allowed.value.valid &&
            AllSurvive(Keeps(allowed), Parse(old(buffer[..len])).0, 0) ==>
              Compacted(Keeps(allowed), old(buffer[..len]), buffer[..len], r) && 0 <= r <= len
    ensures buffer != null && len > 0 && allowed.Some? && allowed.value.valid ==>
              0 <= r < len + 0x1_0000 &&
              (r > len <==> OverreadsAtLast(Keeps(allowed), old(buffer[..len])))
  {
    hide Keeps, Turn, Compacted, AllSurvive;
    if buffer == null || len <= 0 || allowed.None? || !allowed.value.valid {
      return len;
    }
    ghost var keep, b0 := Keeps(allowed), buffer[..len];
    FilteringTheorem(keep, b0);
    OverrunExact(keep, Cursor(b0, 0, 0));
    var ro, wo := 0, 0;
    while ro < len
      invariant 0 <= wo <= ro
      invariant var v := Walk(keep, Cursor(buffer[..len], ro, wo)); SameEnd(Filtering(keep, b0), v.r, v.bytes)
      invariant buffer[len..] == old(buffer[len..])
      decreases Ahead(buffer[..len], ro), Readable(buffer[..len], ro)
    {
      if len - ro < HEADER || !NameIsValid(buffer[..len][ro..]) {
        return len;
      }
      TurnProgress(keep, Cursor(buffer[..len], ro, wo));
      ro, wo := TakeEntry(buffer, len, ro, wo, allowed);
    }
    return wo;
  }
}
