/** The status-event ring of the NDIS wrapper (sys/dev/if_ndis/if_ndis.c):
    ndis_linksts caches the status indications of the miniport in
    sc->ndis_evt[] at ndis_evtpidx, the SIOCGPRIVATE_0 ioctl hands the
    event at ndis_evtcidx to a privileged user and frees its buffer, and
    ndis_stop empties every slot.

    The kernel heap is a map from buffer identities to their contents; a
    slot's ne_buf is a reference into it, which can outlive the buffer.
    Freeing a buffer that is not live sets `faulted`. */
module NdisEvents {
  import opened Common

  /** A malloc'd M_TEMP buffer, or NULL. */
  datatype BufRef = Null | Ptr(id: nat)

  /** struct ndis_evt: the NDIS status (0 marks a free slot), the payload
      length and the payload buffer. */
  datatype Event = Event(sts: int, len: nat, buf: BufRef)

  const EmptyEvent: Event := Event(0, 0, Null)

  /** The buffers ndis_stop frees from `slots`: those of the slots holding
      an event and a non-NULL buffer. */
  function StopFreed(slots: seq<Event>): (ids: set<nat>)
    ensures forall id :: id in ids <==>
              exists k :: 0 <= k < |slots| && slots[k].sts != 0 && slots[k].buf == Ptr(id)
  {
    if slots == [] then {}
    else
      var last := slots[|slots| - 1];
      StopFreed(slots[..|slots| - 1]) + if last.sts != 0 && last.buf.Ptr? then {last.buf.id} else {}
  }

  /** A slot holding an event whose buffer pointer is stale: ndis_stop
      would free it again. */
  predicate DanglingEvent(e: Event, heap: map<nat, seq<Byte>>)
  {
    e.sts != 0 && e.buf.Ptr? && e.buf.id !in heap
  }

  /** No two slots share a buffer. */
  predicate UniqueBufs(slots: seq<Event>)
  {
    forall i, j :: 0 <= i < j < |slots| && slots[i].buf.Ptr? && slots[j].buf.Ptr? ==>
      slots[i].buf.id != slots[j].buf.id
  }

  /** Some slot of `slots` would make ndis_stop free a dead buffer. */
  function AnyDangling(slots: seq<Event>, heap: map<nat, seq<Byte>>): (b: bool)
    ensures b <==> exists k :: 0 <= k < |slots| && DanglingEvent(slots[k], heap)
  {
    if slots == [] then false
    else AnyDangling(slots[..|slots| - 1], heap) || DanglingEvent(slots[|slots| - 1], heap)
  }

  /** Slot i's buffer is not among those freed from the slots before it, so
      the heap ndis_stop has reached by then still holds exactly what it held
      for that buffer. */
  lemma {:induction false} StopStep(s0: seq<Event>, i: nat, h0: map<nat, seq<Byte>>)
    requires i < |s0| && UniqueBufs(s0)
    ensures s0[..i + 1][..i] == s0[..i] && s0[..i + 1][i] == s0[i]
    ensures (h0 - StopFreed(s0[..i])) - StopFreed([s0[i]]) == h0 - StopFreed(s0[..i + 1])
    ensures DanglingEvent(s0[i], h0 - StopFreed(s0[..i])) == DanglingEvent(s0[i], h0)
  {
    assert s0[..i + 1][..i] == s0[..i];
  }

  /** What SIOCGPRIVATE_0 returns: the errno, and on success the status and
      the payload copied out to the user. */
  datatype Delivery = Delivery(err: Errno, sts: int, payload: seq<Byte>)

  class EventRing {
    /** sc->ndis_evt[NDIS_EVENTS] */
    const slots: array<Event>
    /** NDIS_EVTINC, whose wrap rule is left abstract. */
    const succ: nat -> nat
    /** ndis_evtpidx and ndis_evtcidx */
    var pidx: nat
    var cidx: nat
    /** sc->ndis_sts: the last status indicated, kept even for dropped events. */
    var lastStatus: int
    /** The live buffers and their contents. */
    var heap: map<nat, seq<Byte>>
    /** The identity the next malloc returns. */
    var nextId: nat
    /** Some free() was given a buffer that was no longer live. */
    var faulted: bool

    /** Indices stay in range, every buffer identity was handed out by
        malloc and belongs to at most one slot, and an event with a payload
        points at a live buffer of that length. */
    predicate Valid()
      reads this, slots
    {
      && slots.Length > 0
      && (forall i :: 0 <= i < slots.Length ==> succ(i) < slots.Length)
      && pidx < slots.Length && cidx < slots.Length
      && (forall id :: id in heap ==> id < nextId)
      && (forall i :: 0 <= i < slots.Length && slots[i].buf.Ptr? ==> slots[i].buf.id < nextId)
      && UniqueBufs(slots[..])
      && (forall i :: 0 <= i < slots.Length && slots[i].sts != 0 && slots[i].len != 0 ==>
            slots[i].buf.Ptr? && slots[i].buf.id in heap && |heap[slots[i].buf.id]| == slots[i].len)
    }

    /** No slot refers to a freed buffer. */
    predicate NoDangling()
      reads this, slots
    {
      forall i :: 0 <= i < slots.Length && slots[i].buf.Ptr? ==> slots[i].buf.id in heap
    }

    /** A softc as device allocation leaves it: all slots free, both
        indices 0. */
    constructor (n: nat, succ: nat -> nat)
      requires n > 0 && forall i :: 0 <= i < n ==> succ(i) < n
      ensures Valid() && NoDangling() && fresh(slots)
      ensures slots.Length == n && slots[..] == seq(n, _ => EmptyEvent)
      ensures this.succ == succ && pidx == 0 && cidx == 0 && heap == map[] && nextId == 0 && !faulted
    {
      slots := new Event[n](_ => EmptyEvent);
      this.succ := succ;
      pidx, cidx, lastStatus := 0, 0, 0;
      heap, nextId, faulted := map[], 0, false;
    }

    /** ndis_linksts: record the status, then cache the event unless the
        producer's slot is still occupied or the copy of a non-empty payload
        cannot be allocated. A failed malloc still overwrites ne_buf with
        NULL. */
    method Post(status: int, payload: seq<Byte>, allocOk: bool)
      requires Valid()
      modifies this, slots
      ensures Valid()
      ensures lastStatus == status && cidx == old(cidx) && faulted == old(faulted)
      ensures old(slots[pidx].sts) != 0 ==>
                pidx == old(pidx) && slots[..] == old(slots[..]) && heap == old(heap)
      ensures old(slots[pidx].sts) == 0 && |payload| != 0 && !allocOk ==>
                && pidx == old(pidx) && heap == old(heap)
                && slots[..] == old(slots[..])[old(pidx) := old(slots[pidx]).(buf := Null)]
      ensures old(slots[pidx].sts) == 0 && |payload| != 0 && allocOk ==>
                && pidx == succ(old(pidx))
                && heap == old(heap)[old(nextId) := payload]
                && slots[..] == old(slots[..])[old(pidx) := Event(status, |payload|, Ptr(old(nextId)))]
      ensures old(slots[pidx].sts) == 0 && |payload| == 0 ==>
                && pidx == succ(old(pidx)) && heap == old(heap)
                && slots[..] == old(slots[..])[old(pidx) := Event(status, 0, old(slots[pidx].buf))]
      ensures old(NoDangling()) ==> NoDangling()
    {
      lastStatus := status;
      var e := slots[pidx];
      if e.sts != 0 {
        return;
      }
      var buf := e.buf;
      if |payload| != 0 {
        if !allocOk {
          slots[pidx] := e.(buf := Null);
          return;
        }
        buf := Ptr(nextId);
        heap := heap[nextId := payload];
        nextId := nextId + 1;
      }
      slots[pidx] := Event(status, |payload|, buf);
      pidx := succ(pidx);
    }

    /** free(9) on a buffer. */
    method Free(b: BufRef)
      requires b.Ptr?
      modifies this
      ensures heap == old(heap) - {b.id}
      ensures faulted == (old(faulted) || b.id !in old(heap))
      ensures pidx == old(pidx) && cidx == old(cidx) && lastStatus == old(lastStatus) && nextId == old(nextId)
    {
      if b.id !in heap {
        faulted := true;
      }
      heap := heap - {b.id};
    }

    /** SIOCGPRIVATE_0: EPERM without driver privilege, ENOENT when the
        consumer's slot is free, EFAULT when a copyin or copyout fails and
        ENOSPC when the user's ne_len is shorter than the payload. Each error
        leaves the ring as it was. On success the status and the payload
        are handed out, the buffer is freed and NULLed, the slot is cleared
        and the consumer index advances. */
    method Take(privileged: bool, copyinOk: bool, userLen: nat, hdrOk: bool, bufOk: bool)
      returns (d: Delivery)
      requires Valid()
      modifies this, slots
      ensures Valid() && faulted == old(faulted)
      ensures lastStatus == old(lastStatus) && nextId == old(nextId)
      ensures !privileged ==> d.err == EPERM
      ensures privileged && old(slots[cidx].sts) == 0 ==> d.err == ENOENT
      ensures privileged && old(slots[cidx].sts) != 0 && !copyinOk ==> d.err == EFAULT
      ensures privileged && old(slots[cidx].sts) != 0 && copyinOk && userLen < old(slots[cidx].len) ==> d.err == ENOSPC
      ensures privileged && old(slots[cidx].sts) != 0 && copyinOk && userLen >= old(slots[cidx].len) && !hdrOk ==>
                d.err == EFAULT
      ensures (privileged && old(slots[cidx].sts) != 0 && copyinOk && userLen >= old(slots[cidx].len) && hdrOk
               && old(slots[cidx].len) != 0 && !bufOk) ==> d.err == EFAULT
      ensures d.err != 0 ==>
                slots[..] == old(slots[..]) && heap == old(heap) && pidx == old(pidx) && cidx == old(cidx)
      ensures d.err == 0 <==>
                && privileged && old(slots[cidx].sts) != 0 && copyinOk && userLen >= old(slots[cidx].len)
                && hdrOk && (old(slots[cidx].len) != 0 ==> bufOk)
      ensures d.err == 0 ==>
                && d.sts == old(slots[cidx].sts)
                && |d.payload| == old(slots[cidx].len)
                && (old(slots[cidx].len) != 0 ==> d.payload == old(heap[slots[cidx].buf.id]))
                && cidx == succ(old(cidx)) && pidx == old(pidx)
                && slots[..] == old(slots[..])[old(cidx) :=
                     if old(slots[cidx].len) != 0 then EmptyEvent else old(slots[cidx]).(sts := 0)]
                && heap == if old(slots[cidx].len) != 0 then old(heap) - {old(slots[cidx].buf.id)} else old(heap)
      ensures old(NoDangling()) ==> NoDangling()
    {
      if !privileged {
        return Delivery(EPERM, 0, []);
      }
      var e := slots[cidx];
      if e.sts == 0 {
        return Delivery(ENOENT, 0, []);
      }
      if !copyinOk {
        return Delivery(EFAULT, 0, []);
      }
      if userLen < e.len {
        return Delivery(ENOSPC, 0, []);
      }
      if !hdrOk {
        return Delivery(EFAULT, 0, []);
      }
      var payload: seq<Byte> := [];
      if e.len != 0 {
        payload := heap[e.buf.id];
        if !bufOk {
          return Delivery(EFAULT, 0, []);
        }
        Free(e.buf);
        e := e.(buf := Null);
      }
      slots[cidx] := e.(len := 0, sts := 0);
      cidx := succ(cidx);
      d := Delivery(0, e.sts, payload);
    }

    /** One iteration of ndis_stop's loop on slot `i`: free the buffer of
        an event, then clear ne_sts and ne_len. `nullify` also resets
        ne_buf after the free, which the source does not do. */
    method ClearSlot(i: nat, nullify: bool)
      requires Valid() && i < slots.Length
      modifies this, slots
      ensures Valid()
      ensures pidx == old(pidx) && cidx == old(cidx) && nextId == old(nextId) && lastStatus == old(lastStatus)
      ensures slots[..] == old(slots[..])[i := Event(0, 0, if nullify && old(slots[i].sts) != 0 then Null else old(slots[i].buf))]
      ensures heap == old(heap) - StopFreed([old(slots[i])])
      ensures faulted == (old(faulted) || DanglingEvent(old(slots[i]), old(heap)))
      ensures nullify && old(NoDangling()) ==> NoDangling()
    {
      var e := slots[i];
      if e.sts != 0 && e.buf.Ptr? {
        Free(e.buf);
      }
      slots[i] := Event(0, 0, if nullify && e.sts != 0 then Null else e.buf);
    }

    /** ndis_stop's loop over the slots, as written: a buffer is freed when
        its slot holds an event, but ne_buf keeps pointing at it. A later
        payload-less event in that slot inherits the stale pointer. */
    method StopAsWritten()
      requires Valid()
      modifies this, slots
      ensures Valid()
      ensures pidx == 0 && cidx == 0 && nextId == old(nextId) && lastStatus == old(lastStatus)
      ensures forall i :: 0 <= i < slots.Length ==> slots[i] == Event(0, 0, old(slots[i].buf))
      ensures heap == old(heap) - StopFreed(old(slots[..]))
      ensures faulted == (old(faulted) || AnyDangling(old(slots[..]), old(heap)))
    {
      ghost var s0, h0 := slots[..], heap;
      var i := 0;
      while i < slots.Length
        invariant 0 <= i <= slots.Length && Valid() && UniqueBufs(s0) && |s0| == slots.Length
        invariant forall k :: 0 <= k < i ==> slots[k] == Event(0, 0, s0[k].buf)
        invariant forall k :: i <= k < slots.Length ==> slots[k] == s0[k]
        invariant heap == h0 - StopFreed(s0[..i])
        invariant faulted == (old(faulted) || AnyDangling(s0[..i], h0))
        invariant nextId == old(nextId) && lastStatus == old(lastStatus)
      {
        StopStep(s0, i, h0);
        ClearSlot(i, false);
        i := i + 1;
      }
      assert s0[..i] == s0;
      pidx, cidx := 0, 0;
    }

    /** ndis_stop's loop with the freed pointer set to NULL, as the
        SIOCGPRIVATE_0 path does: no slot is left pointing at freed memory,
        so no free can fault. */
    method Stop()
      requires Valid() && NoDangling()
      modifies this, slots
      ensures Valid() && NoDangling()
      ensures pidx == 0 && cidx == 0 && nextId == old(nextId) && faulted == old(faulted) && lastStatus == old(lastStatus)
      ensures forall i :: 0 <= i < slots.Length ==>
                slots[i] == Event(0, 0, if old(slots[i].sts) != 0 then Null else old(slots[i].buf))
      ensures heap == old(heap) - StopFreed(old(slots[..]))
    {
      ghost var s0, h0 := slots[..], heap;
      var i := 0;
      while i < slots.Length
        invariant 0 <= i <= slots.Length && Valid() && NoDangling() && UniqueBufs(s0) && |s0| == slots.Length
        invariant forall k :: 0 <= k < i ==> slots[k] == Event(0, 0, if s0[k].sts != 0 then Null else s0[k].buf)
        invariant forall k :: i <= k < slots.Length ==> slots[k] == s0[k]
        invariant heap == h0 - StopFreed(s0[..i])
        invariant faulted == old(faulted) && nextId == old(nextId) && lastStatus == old(lastStatus)
      {
        StopStep(s0, i, h0);
        ClearSlot(i, true);
        i := i + 1;
      }
      assert s0[..i] == s0;
      pidx, cidx := 0, 0;
    }
  }

  /** An event posted into a fresh ring is the one SIOCGPRIVATE_0 hands out,
      status and payload alike. */
  method PostThenTake(n: nat, succ: nat -> nat, status: int, payload: seq<Byte>) returns (d: Delivery)
    requires n > 0 && forall i :: 0 <= i < n ==> succ(i) < n
    requires status != 0
    ensures d == Delivery(0, status, payload)
  {
    var ring := new EventRing(n, succ);
    ring.Post(status, payload, true);
    d := ring.Take(true, true, |payload|, true, true);
  }

  /** With ndis_stop as written: an event with a payload, a stop, a
      payload-less event in the same slot and a second stop free the first
      buffer twice. */
  method DoubleFreeAsWritten(n: nat, succ: nat -> nat, status: int, payload: seq<Byte>, status2: int)
    returns (faulted: bool)
    requires n > 0 && forall i :: 0 <= i < n ==> succ(i) < n
    requires status != 0 && status2 != 0 && |payload| != 0
    ensures faulted
  {
    var ring := new EventRing(n, succ);
    ring.Post(status, payload, true);
    ghost var before := ring.slots[..];
    assert before[0] == Event(status, |payload|, Ptr(0));
    ring.StopAsWritten();
    assert 0 in StopFreed(before);
    ring.Post(status2, [], true);
    assert DanglingEvent(ring.slots[..][0], ring.heap);
    ring.StopAsWritten();
    faulted := ring.faulted;
  }

  /** The same sequence with the corrected stop frees nothing twice. */
  method NoDoubleFreeCorrected(n: nat, succ: nat -> nat, status: int, payload: seq<Byte>, status2: int)
    returns (faulted: bool)
    requires n > 0 && forall i :: 0 <= i < n ==> succ(i) < n
    requires status != 0 && status2 != 0 && |payload| != 0
    ensures !faulted
  {
    var ring := new EventRing(n, succ);
    ring.Post(status, payload, true);
    ring.Stop();
    ring.Post(status2, [], true);
    ring.Stop();
    faulted := ring.faulted;
  }
}
