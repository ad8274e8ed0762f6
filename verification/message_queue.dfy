/**
 * `message::Queue<QUEUE_SIZE, TIMEOUT_QUEUE_SIZE>`: the deferred-message
 * queue the firmware's main loop drains. Untimed messages are records in
 * the byte ring `queue`, read in order between the counters `read` and
 * `write`; `level` counts them. Delayed messages are images in
 * `timeoutQueue`, described by the slot table `index`, and are delivered
 * once their deadline has passed.
 *
 * The three fixed-size buffers are fields of sequence type whose length
 * never changes; a store into one is a sequence update. A message's image
 * is the bytes its constructor writes; handing it to its receiver is
 * modelled as appending the image to `delivered`. The unread untimed
 * messages are the ghost `unread`, which `RingValid` ties to the bytes of
 * the ring.
 */
module MessageQueue {
  import opened RingLayout
  import opened TimeoutTable

  class Queue {
    /** `QUEUE_SIZE` and `TIMEOUT_QUEUE_SIZE`. */
    const qs: nat
    const tqs: nat
    var queue: seq<byte>
    var timeoutQueue: seq<byte>
    var index: seq<Slot>
    var read: nat
    var write: nat
    var writeTimeout: nat
    var level: nat
    ghost var unread: seq<seq<byte>>
    /** The images handed to their receivers, in the order of the hand-over. */
    var delivered: seq<seq<byte>>

    /** The ring holds the unread records between `read` and `write`, and `level` counts them. */
    ghost predicate RingValid()
      reads this`read, this`write, this`unread, this`level, this`queue
    {
      Geometry(qs) && |queue| == qs &&
      Layout(queue, qs, read, write, unread) && level == |unread|
    }

    /** The slot table is packed and its images fit in `timeoutQueue`. */
    ghost predicate TableValid()
      reads this`writeTimeout, this`timeoutQueue, this`index
    {
      tqs < 0x1_0000 && |timeoutQueue| == tqs && |index| == tqs / 8 &&
      Packed(index, writeTimeout) && writeTimeout <= tqs
    }

    ghost predicate Valid()
      reads this
    {
      RingValid() && TableValid()
    }

    /** The delayed messages waiting, in slot order. */
    function TimedPending(): seq<Entry>
      reads this`timeoutQueue, this`index
    {
      Pending(timeoutQueue, index)
    }

    /** `Queue()`: both buffers zeroed, every slot free, all counters 0. */
    constructor(qs: nat, tqs: nat)
      requires Geometry(qs) && tqs < 0x1_0000
      ensures Valid()
      ensures this.qs == qs && this.tqs == tqs
      ensures read == 0 && write == 0 && writeTimeout == 0 && level == 0
      ensures unread == [] && delivered == [] && TimedPending() == []
    {
      this.qs := qs;
      this.tqs := tqs;
      queue := Fill(0, qs);
      timeoutQueue := Fill(0, tqs);
      index := seq(tqs / 8, _ => Slot(0, 0, 0, 0));
      read, write, writeTimeout, level := 0, 0, 0, 0;
      unread := [];
      delivered := [];
      new;
      SizeFreeTail(index, 0, |index|);
      FreeTail(timeoutQueue, index, 0, |index|);
    }

    /**
     * The corrected `enoughSpace(size)`: the record, with its four-byte
     * header and any padding, fits in the part of the ring already read.
     */
    method EnoughSpace(size: nat) returns (ok: bool)
      requires RingValid()
      ensures ok == RingLayout.EnoughSpace(qs, read, write, size)
      ensures ok ==> HEADER + size <= qs
    {
      var rw := write % qs;
      var pad := if rw + HEADER + size > qs && rw != 0 then qs - rw else 0;
      ok := write + pad + HEADER + size - read <= qs;
      LayoutEnds(queue, qs, read, write, unread);
    }

    /** `enoughTimeoutSpace(size)`: at the first free slot, whether the image fits after the last one. */
    method EnoughTimeoutSpace(size: nat) returns (ok: bool)
      ensures ok == TimeoutTable.EnoughTimeoutSpace(index, writeTimeout, size, tqs)
    {
      for i := 0 to |index|
        invariant forall k :: 0 <= k < i ==> index[k].size > 0
      {
        if index[i].size == 0 {
          assert FirstFree(index) == i;
          return writeTimeout + size <= tqs;
        }
      }
      assert FirstFree(index) == |index|;
      return false;
    }

    /**
     * The untimed `alloc(size)`: pads with 0xFF to the end of the ring
     * when header and bytes would cross it, writes the size header, and
     * returns the index the message goes to.
     */
    method Alloc(size: nat) returns (address: nat)
      requires Geometry(qs) && |queue| == qs && HEADER + size <= qs
      modifies this`write, this`queue
      ensures queue == Reserve(old(queue), qs, old(write), size)
      ensures write == End(qs, old(write), size) && address == Address(qs, old(write), size)
    {
      ghost var w0, b0 := write, queue;
      var rw0 := write % qs;
      var realWrite := rw0;
      if realWrite < qs && realWrite + HEADER + size > qs {
        while realWrite != 0
          invariant w0 <= write && rw0 + (write - w0) <= qs && |queue| == qs
          invariant realWrite == if rw0 + (write - w0) == qs then 0 else rw0 + (write - w0)
          invariant realWrite == write % qs
          invariant forall i :: 0 <= i < qs ==> queue[i] == if rw0 <= i < rw0 + (write - w0) then PAD_BYTE else b0[i]
          decreases qs - rw0 - (write - w0)
        {
          queue := queue[realWrite := PAD_BYTE];
          write := write + 1;
          if rw0 + (write - w0) == qs {
            ModBoundary(w0, qs);
          } else {
            ModOffset(w0, write - w0, qs);
          }
          realWrite := write % qs;
        }
      }
      StartIndex(qs, w0, size);
      assert write == Start(qs, w0, size) && realWrite == Start(qs, w0, size) % qs;
      assert queue == Padded(b0, qs, w0, size);
      queue := Place(queue, realWrite, Word32(size));
      write := write + HEADER;
      address := write % qs;
      write := write + size;
    }

    /** The message constructor placed at `address` of the ring: its bytes are stored there. */
    method Construct(address: nat, image: seq<byte>)
      requires address + |image| <= |queue|
      modifies this`queue
      ensures queue == Place(old(queue), address, image)
    {
      queue := Place(queue, address, image);
    }

    /**
     * The timed `alloc(size, delay, …, id)`: the first free slot takes the
     * image at `writeTimeout`, with the size, id and deadline, and the slot
     * and the length are returned; with no free slot nothing changes. The
     * slot's address and size are uint16_t.
     */
    method AllocTimed(size: nat, deadline: int, id: bv32) returns (ok: bool, address: nat, slot: nat, length: nat)
      modifies this`writeTimeout, this`index
      ensures |index| == |old(index)|
      ensures ok == (FirstFree(old(index)) < |index|)
      ensures ok ==> slot == FirstFree(old(index)) && address == old(writeTimeout) && length == size % 0x1_0000
      ensures ok ==> index == old(index)[slot := Slot(old(writeTimeout) % 0x1_0000, size % 0x1_0000, id, deadline)]
      ensures ok ==> writeTimeout == old(writeTimeout) + size
      ensures !ok ==> index == old(index) && writeTimeout == old(writeTimeout)
    {
      for i := 0 to |index|
        invariant forall k :: 0 <= k < i ==> index[k].size > 0
        invariant index == old(index) && writeTimeout == old(writeTimeout)
      {
        if index[i].size == 0 {
          assert FirstFree(index) == i;
          index := index[i := Slot(writeTimeout % 0x1_0000, size % 0x1_0000, id, deadline)];
          address := writeTimeout;
          writeTimeout := writeTimeout + size;
          return true, address, i, size % 0x1_0000;
        }
      }
      assert FirstFree(index) == |index|;
      return false, 0, 0, 0;
    }

    /** The message constructor placed at `address` of the timed buffer. */
    method ConstructTimed(address: nat, image: seq<byte>)
      requires address + |image| <= |timeoutQueue|
      modifies this`timeoutQueue
      ensures timeoutQueue == Place(old(timeoutQueue), address, image)
    {
      timeoutQueue := Place(timeoutQueue, address, image);
    }

    /** `*timeoutSize = len` in the timed `send`: the slot's size is written back. */
    method WriteBackSize(slot: nat, len: nat)
      requires slot < |index|
      modifies this`index
      ensures index == old(index)[slot := old(index[slot]).(size := len)]
    {
      index := index[slot := index[slot].(size := len)];
    }

    /** `incLevel()`, with the record the caller has just written. */
    method IncLevel(ghost m: seq<byte>)
      modifies this`level, this`unread
      ensures level == old(level) + 1 && unread == old(unread) + [m]
    {
      level := level + 1;
      unread := unread + [m];
    }

    /** `m->deliver()`: the receiver gets the message whose image this is. */
    method Deliver(image: seq<byte>)
      modifies this`delivered
      ensures delivered == old(delivered) + [image]
    {
      delivered := delivered + [image];
    }

    /**
     * `dispatch()`: when a message is unread, it is delivered and `level`
     * drops by one; then the delayed messages are checked.
     */
    method Dispatch(now: int)
      requires Valid()
      modifies this`read, this`level, this`unread, this`delivered, this`writeTimeout, this`timeoutQueue, this`index
      ensures Valid()
      ensures old(level) > 0 ==>
        level == old(level) - 1 && unread == old(unread)[1..] && read == End(qs, old(read), |old(unread)[0]|)
      ensures old(level) == 0 ==> level == 0 && unread == old(unread) && read == old(read)
      ensures delivered == old(delivered) + (if old(level) > 0 then [old(unread)[0]] else []) +
        Images(Expired(old(TimedPending()), now))
      ensures var t := AfterTimeouts(old(timeoutQueue), old(index), old(writeTimeout), now);
        timeoutQueue == t.tq && index == t.idx && writeTimeout == t.wt
      ensures TimedPending() == Remaining(old(TimedPending()), now)
    {
      DeliverIfUnread();
      CheckTimeouts(now);
    }

    /** The untimed half of `dispatch()`: the oldest unread message, if there is one, is delivered. */
    method DeliverIfUnread()
      requires RingValid()
      modifies this`read, this`level, this`unread, this`delivered
      ensures RingValid()
      ensures old(level) > 0 ==>
        level == old(level) - 1 && unread == old(unread)[1..] && read == End(qs, old(read), |old(unread)[0]|)
      ensures old(level) == 0 ==> level == 0 && unread == old(unread) && read == old(read)
      ensures delivered == old(delivered) + if old(level) > 0 then [old(unread)[0]] else []
    {
      if level > 0 {
        DeliverNext();
      }
    }

    /**
     * The untimed half of `dispatch()`, with the corrected skip: the
     * header of the oldest unread record is found past any padding, the
     * message after it is delivered, and `read` moves past it.
     */
    method DeliverNext()
      requires RingValid() && level > 0
      modifies this`read, this`level, this`unread, this`delivered
      ensures RingValid()
      ensures level == old(level) - 1 && unread == old(unread)[1..]
      ensures read == End(qs, old(read), |old(unread)[0]|)
      ensures delivered == old(delivered) + [old(unread)[0]]
    {
      var h, a, size := Locate();
      LayoutRest(queue, qs, read, write, unread);
      Deliver(queue[a..a + size]);
      read := h + HEADER + size;
      level := level - 1;
      unread := unread[1..];
    }

    /**
     * The oldest unread record: past the skip and past a padding run, its
     * header at position `h` gives its `size`, and its bytes are at index `a`.
     */
    method Locate() returns (h: nat, a: nat, size: nat)
      requires RingValid() && level > 0
      ensures a + size <= qs && queue[a..a + size] == unread[0]
      ensures h + HEADER + size == End(qs, read, |unread[0]|)
    {
      NextRecord(queue, qs, read, write, unread);
      h := HeaderAt(queue, qs, read);
      size := ReadWord(queue, h % qs);
      a := (h + HEADER) % qs;
    }

    /**
     * `defragment()`, with the id copied: the active images are packed
     * from offset 0 in slot order into the first slots.
     */
    method Defragment()
      requires |timeoutQueue| == tqs && Sorted(index, writeTimeout) && writeTimeout <= tqs
      modifies this`writeTimeout, this`timeoutQueue, this`index
      ensures var t := Compact(old(timeoutQueue), old(index), old(writeTimeout), true);
        timeoutQueue == t.tq && index == t.idx && writeTimeout == t.wt
    {
      ghost var oldWt := writeTimeout;
      var oldTq := timeoutQueue;
      var oldIdx := index;
      ClearSizes();
      writeTimeout := 0;
      PackImages(oldTq, oldIdx, oldWt);
    }

    /** `defragment`'s first loop: every slot of the table is marked free. */
    method ClearSizes()
      modifies this`index
      ensures index == Cleared(old(index))
    {
      ghost var idx0 := index;
      for i := 0 to |index|
        invariant |index| == |idx0|
        invariant forall k :: 0 <= k < i ==> index[k] == idx0[k].(size := 0)
        invariant forall k :: i <= k < |index| ==> index[k] == idx0[k]
      {
        index := index[i := index[i].(size := 0)];
      }
    }

    /**
     * `defragment`'s second loop: in slot order, each active old slot's
     * image is copied from the saved buffer to `writeTimeout` and the slot
     * is written into the next slot of the cleared table.
     */
    method PackImages(oldTq: seq<byte>, oldIdx: seq<Slot>, ghost oldWt: nat)
      requires Sorted(oldIdx, oldWt) && oldWt <= |oldTq|
      requires timeoutQueue == oldTq && index == Cleared(oldIdx) && writeTimeout == 0
      modifies this`writeTimeout, this`timeoutQueue, this`index
      ensures var t := Compact(oldTq, oldIdx, oldWt, true);
        timeoutQueue == t.tq && index == t.idx && writeTimeout == t.wt
    {
      var n := 0;
      CompactedNone(oldTq, oldIdx, oldWt);
      for k := 0 to |oldIdx|
        invariant Table(timeoutQueue, index, writeTimeout, n) == Compacted(oldTq, oldIdx, oldWt, k, true)
      {
        CompactedVisit(oldTq, oldIdx, oldWt, k);
        n := PackSlot(oldTq, oldIdx[k], n);
      }
    }

    /**
     * One visit of the second loop: an active old slot `s` has its image
     * copied from `oldTq` to `writeTimeout` and is written into slot `n`,
     * which it returns advanced; a free one changes nothing.
     */
    method PackSlot(oldTq: seq<byte>, s: Slot, n: nat) returns (next: nat)
      requires CanVisit(Table(timeoutQueue, index, writeTimeout, n), oldTq, s)
      modifies this`writeTimeout, this`timeoutQueue, this`index
      ensures Table(timeoutQueue, index, writeTimeout, next) ==
        Visit(Table(old(timeoutQueue), old(index), old(writeTimeout), n), oldTq, s)
    {
      next := n;
      if s.size != 0 {
        var img := oldTq[s.address..s.address + s.size];
        timeoutQueue := Place(timeoutQueue, writeTimeout, img);
        index := index[n := Slot(writeTimeout, s.size, s.id, s.timeout)];
        writeTimeout := writeTimeout + s.size;
        next := n + 1;
      }
    }

    /**
     * `checkTimeouts()` at time `now`: every active slot whose deadline is
     * before `now` is delivered and freed, in slot order; if any was, the
     * table is compacted.
     */
    method CheckTimeouts(now: int)
      requires TableValid()
      modifies this`delivered, this`writeTimeout, this`timeoutQueue, this`index
      ensures TableValid()
      ensures delivered == old(delivered) + Images(Expired(old(TimedPending()), now))
      ensures var t := AfterTimeouts(old(timeoutQueue), old(index), old(writeTimeout), now);
        timeoutQueue == t.tq && index == t.idx && writeTimeout == t.wt
      ensures TimedPending() == Remaining(old(TimedPending()), now)
    {
      ghost var tq0, idx0, wt0 := timeoutQueue, index, writeTimeout;
      PackedSorted(idx0, wt0);
      var fired := ExpireScan(now);
      TimeoutsLeaveRemaining(tq0, idx0, wt0, now);
      if fired {
        FreedSorted(index, idx0, wt0);
        Defragment();
      }
    }

    /**
     * `checkTimeouts`' loop: in slot order, every active slot whose
     * deadline is before `now` is delivered and freed. Returns whether any was.
     */
    method ExpireScan(now: int) returns (fired: bool)
      requires InBounds(timeoutQueue, index)
      modifies this`delivered, this`index
      ensures index == Expire(old(index), now)
      ensures delivered == old(delivered) + Images(Expired(Pending(timeoutQueue, old(index)), now))
      ensures fired == AnyDue(old(index), now)
    {
      ghost var tq0, idx0, d0 := timeoutQueue, index, delivered;
      fired := false;
      for i := 0 to |index|
        invariant |index| == |idx0| && timeoutQueue == tq0
        invariant forall k :: 0 <= k < i ==> index[k] == if Due(idx0[k], now) then idx0[k].(size := 0) else idx0[k]
        invariant forall k :: i <= k < |index| ==> index[k] == idx0[k]
        invariant delivered == d0 + DueImages(tq0, idx0, now, i)
        invariant fired <==> exists k :: 0 <= k < i && Due(idx0[k], now)
      {
        var s := index[i];
        if s.size != 0 && s.timeout < now {
          fired := true;
          Deliver(timeoutQueue[s.address..s.address + s.size]);
          index := index[i := s.(size := 0)];
        }
      }
      DueImagesExpired(tq0, idx0, now, |idx0|);
      assert index == Expire(idx0, now);
    }

    /**
     * `cancelTimeouts(id)`: id 0 cancels nothing; otherwise every active
     * slot carrying `id` is freed and, if any was, the table is compacted.
     */
    method CancelTimeouts(id: bv32)
      requires TableValid()
      modifies this`writeTimeout, this`timeoutQueue, this`index
      ensures TableValid()
      ensures var t := AfterCancel(old(timeoutQueue), old(index), old(writeTimeout), id);
        timeoutQueue == t.tq && index == t.idx && writeTimeout == t.wt
      ensures TimedPending() == Kept(old(TimedPending()), id)
    {
      ghost var tq0, idx0, wt0 := timeoutQueue, index, writeTimeout;
      CancelLeavesOthers(tq0, idx0, wt0, id);
      if id == 0 {
        return;
      }
      CancelThenCompact(tq0, idx0, wt0, id);
      var fired := CancelScan(id);
      if fired {
        Defragment();
      }
    }

    /** `cancelTimeouts`' loop: every active slot carrying the non-zero `id` is freed. Returns whether any was. */
    method CancelScan(id: bv32) returns (fired: bool)
      requires id != 0
      modifies this`index
      ensures index == Cancel(old(index), id)
      ensures fired == AnyWithId(old(index), id)
    {
      ghost var idx0 := index;
      fired := false;
      for i := 0 to |index|
        invariant |index| == |idx0|
        invariant forall k :: 0 <= k < i ==> index[k] == if Cancels(idx0[k], id) then idx0[k].(size := 0) else idx0[k]
        invariant forall k :: i <= k < |index| ==> index[k] == idx0[k]
        invariant fired <==> exists k :: 0 <= k < i && Cancels(idx0[k], id)
      {
        var s := index[i];
        if s.size != 0 && s.id == id {
          fired := true;
          index := index[i := s.(size := 0)];
        }
      }
      assert index == Cancel(idx0, id);
    }
  }
}
