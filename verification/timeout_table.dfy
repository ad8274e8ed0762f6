/**
 * The timed side of the deferred-message queue, as values: a byte buffer
 * holding the images of delayed messages and a fixed table of slots, each
 * naming where an image lies, how long it is (0 marks a free slot), the
 * id it can be cancelled by, and its deadline in milliseconds.
 */
module TimeoutTable {
  import opened RingLayout

  datatype Slot = Slot(address: nat, size: nat, id: bv32, timeout: int)

  /** A pending delayed message: its image, its deadline and its id. */
  datatype Entry = Entry(bytes: seq<byte>, timeout: int, id: bv32)

  /** Every active slot's image lies inside the buffer. */
  predicate InBounds(tq: seq<byte>, idx: seq<Slot>) {
    forall k :: 0 <= k < |idx| && idx[k].size > 0 ==> idx[k].address + idx[k].size <= |tq|
  }

  /** The delayed message an active slot holds; a slot reaching past the buffer holds none. */
  function EntryOf(tq: seq<byte>, s: Slot): seq<Entry> {
    if s.size > 0 && s.address + s.size <= |tq| then [Entry(tq[s.address..s.address + s.size], s.timeout, s.id)] else []
  }

  /** The delayed messages the first `n` slots hold, in slot order. */
  function Entries(tq: seq<byte>, idx: seq<Slot>, n: nat): seq<Entry>
    requires n <= |idx|
    decreases n
  {
    if n == 0 then [] else Entries(tq, idx, n - 1) + EntryOf(tq, idx[n - 1])
  }

  /** All pending delayed messages, in slot order. */
  function Pending(tq: seq<byte>, idx: seq<Slot>): seq<Entry> {
    Entries(tq, idx, |idx|)
  }

  /** The first `k + 1` slots hold the entries of the first `k` and then slot `k`'s. */
  lemma EntriesNext(tq: seq<byte>, idx: seq<Slot>, k: nat)
    requires k < |idx|
    ensures Entries(tq, idx, k + 1) == Entries(tq, idx, k) + EntryOf(tq, idx[k])
  {
    var n := k + 1;
    assert Entries(tq, idx, n) == Entries(tq, idx, n - 1) + EntryOf(tq, idx[n - 1]);
  }

  lemma EntryOfActive(tq: seq<byte>, s: Slot)
    requires s.size > 0 && s.address + s.size <= |tq|
    ensures EntryOf(tq, s) == [Entry(tq[s.address..s.address + s.size], s.timeout, s.id)]
  {
  }

  lemma NoEntries(tq: seq<byte>, idx: seq<Slot>)
    ensures Entries(tq, idx, 0) == []
  {
  }

  /** The bytes the first `n` slots take, free slots counting 0. */
  function SizeSum(idx: seq<Slot>, n: nat): nat
    requires n <= |idx|
    decreases n
  {
    if n == 0 then 0 else SizeSum(idx, n - 1) + idx[n - 1].size
  }

  /**
   * The table as every operation leaves it: the active slots are a prefix
   * of the table, their images lie back to back from offset 0 in slot
   * order, and `writeTimeout` is where the last one ends.
   */
  predicate Packed(idx: seq<Slot>, wt: nat) {
    (forall j, k :: 0 <= j < k < |idx| && idx[k].size > 0 ==> idx[j].size > 0) &&
    (forall k :: 0 <= k < |idx| && idx[k].size > 0 ==> idx[k].address == SizeSum(idx, k)) &&
    wt == SizeSum(idx, |idx|)
  }

  /** The weaker shape `defragment` needs: active images in slot order, disjoint, and below `wt`. */
  predicate Sorted(idx: seq<Slot>, wt: nat) {
    (forall j, k :: 0 <= j < k < |idx| && idx[j].size > 0 && idx[k].size > 0 ==>
       idx[j].address + idx[j].size <= idx[k].address) &&
    (forall k :: 0 <= k < |idx| && idx[k].size > 0 ==> idx[k].address + idx[k].size <= wt)
  }

  /** `idx'` is `idx` with some slots freed. */
  predicate Freed(idx': seq<Slot>, idx: seq<Slot>) {
    |idx'| == |idx| && forall k :: 0 <= k < |idx| ==> idx'[k] == idx[k] || idx'[k] == idx[k].(size := 0)
  }

  // ---------------------------------------------------------------------
  // Sizes and prefixes
  // ---------------------------------------------------------------------

  lemma {:induction false} SizeSumMono(idx: seq<Slot>, j: nat, k: nat)
    requires j <= k <= |idx|
    ensures SizeSum(idx, j) <= SizeSum(idx, k)
    decreases k - j
  {
    if j < k {
      SizeSumMono(idx, j, k - 1);
    }
  }

  /** An active slot before `k` ends no later than the first `k` slots' sizes. */
  lemma {:induction false} SlotBelow(idx: seq<Slot>, i: nat, k: nat)
    requires i < k <= |idx|
    ensures SizeSum(idx, i) + idx[i].size <= SizeSum(idx, k)
    decreases k
  {
    if i + 1 < k {
      SlotBelow(idx, i, k - 1);
    }
  }

  lemma {:induction false} SizeSumAgree(a: seq<Slot>, b: seq<Slot>, n: nat)
    requires n <= |a| && n <= |b|
    requires forall i :: 0 <= i < n ==> a[i].size == b[i].size
    ensures SizeSum(a, n) == SizeSum(b, n)
    decreases n
  {
    if n > 0 {
      SizeSumAgree(a, b, n - 1);
    }
  }

  lemma {:induction false} EntriesAgree(tq: seq<byte>, a: seq<Slot>, b: seq<Slot>, n: nat)
    requires n <= |a| && n <= |b|
    requires forall i :: 0 <= i < n ==> a[i] == b[i]
    ensures Entries(tq, a, n) == Entries(tq, b, n)
    decreases n
  {
    if n > 0 {
      EntriesAgree(tq, a, b, n - 1);
    }
  }

  /** Free slots from `k` on add no entries and no bytes. */
  lemma {:induction false} FreeTail(tq: seq<byte>, idx: seq<Slot>, k: nat, n: nat)
    requires k <= n <= |idx|
    requires forall j :: k <= j < |idx| ==> idx[j].size == 0
    ensures Entries(tq, idx, n) == Entries(tq, idx, k)
    ensures SizeSum(idx, n) == SizeSum(idx, k)
    decreases n - k
  {
    if k < n {
      FreeTail(tq, idx, k, n - 1);
      assert Entries(tq, idx, n - 1) + [] == Entries(tq, idx, n - 1);
    }
  }

  lemma {:induction false} SizeFreeTail(idx: seq<Slot>, k: nat, n: nat)
    requires k <= n <= |idx|
    requires forall j :: k <= j < |idx| ==> idx[j].size == 0
    ensures SizeSum(idx, n) == SizeSum(idx, k)
    decreases n - k
  {
    if k < n {
      SizeFreeTail(idx, k, n - 1);
    }
  }

  /** Entries read only the bytes of active images. */
  lemma {:induction false} EntriesFrame(tq: seq<byte>, tq': seq<byte>, idx: seq<Slot>, n: nat, bound: nat)
    requires n <= |idx| && |tq'| == |tq| && bound <= |tq| && tq'[..bound] == tq[..bound]
    requires forall k :: 0 <= k < n && idx[k].size > 0 ==> idx[k].address + idx[k].size <= bound
    ensures Entries(tq', idx, n) == Entries(tq, idx, n)
    decreases n
  {
    if n > 0 {
      EntriesFrame(tq, tq', idx, n - 1, bound);
      var s := idx[n - 1];
      if s.size > 0 {
        assert tq'[s.address..s.address + s.size] == tq'[..bound][s.address..s.address + s.size];
        assert tq[s.address..s.address + s.size] == tq[..bound][s.address..s.address + s.size];
      }
    }
  }

  /** A packed table is sorted. */
  lemma PackedSorted(idx: seq<Slot>, wt: nat)
    requires Packed(idx, wt)
    ensures Sorted(idx, wt)
  {
    forall j, k | 0 <= j < k < |idx| && idx[j].size > 0 && idx[k].size > 0
      ensures idx[j].address + idx[j].size <= idx[k].address
    {
      SlotBelow(idx, j, k);
    }
    forall k | 0 <= k < |idx| && idx[k].size > 0
      ensures idx[k].address + idx[k].size <= wt
    {
      SlotBelow(idx, k, |idx|);
    }
  }

  lemma FreedInBounds(tq: seq<byte>, idx': seq<Slot>, idx: seq<Slot>)
    requires Freed(idx', idx) && InBounds(tq, idx)
    ensures InBounds(tq, idx')
  {
  }

  /** Freeing slots keeps a table sorted. */
  lemma FreedSorted(idx': seq<Slot>, idx: seq<Slot>, wt: nat)
    requires Freed(idx', idx) && Sorted(idx, wt)
    ensures Sorted(idx', wt)
  {
  }

  // ---------------------------------------------------------------------
  // Allocation
  // ---------------------------------------------------------------------

  /** The first free slot, or the table's length when none is free. */
  function FirstFree(idx: seq<Slot>): (n: nat)
    ensures n <= |idx|
    ensures forall k :: 0 <= k < n ==> idx[k].size > 0
    ensures n < |idx| ==> idx[n].size == 0
    decreases |idx|
  {
    if idx == [] then 0
    else if idx[0].size == 0 then 0
    else 1 + FirstFree(idx[1..])
  }

  /** `enoughTimeoutSpace(size)`: a slot is free and the image fits after the last one. */
  predicate EnoughTimeoutSpace(idx: seq<Slot>, wt: nat, size: nat, tqs: nat) {
    FirstFree(idx) < |idx| && wt + size <= tqs
  }

  /**
   * The table after the timed `alloc` and construction of image `m`: when
   * `enoughTimeoutSpace` admits it, the first free slot takes it at `wt`
   * with its deadline and id; otherwise nothing changes.
   */
  function Placed(tq: seq<byte>, idx: seq<Slot>, wt: nat, m: seq<byte>, deadline: int, id: bv32): Table {
    if EnoughTimeoutSpace(idx, wt, |m|, |tq|) then
      Table(Place(tq, wt, m), idx[FirstFree(idx) := Slot(wt, |m|, id, deadline)], wt + |m|, 0)
    else Table(tq, idx, wt, 0)
  }

  /** In a packed table every slot from the first free one on is free, and the images end there. */
  lemma PackedFreeTail(tq: seq<byte>, idx: seq<Slot>, wt: nat)
    requires Packed(idx, wt)
    ensures forall j :: FirstFree(idx) <= j < |idx| ==> idx[j].size == 0
    ensures Pending(tq, idx) == Entries(tq, idx, FirstFree(idx))
    ensures wt == SizeSum(idx, FirstFree(idx))
  {
    FreeTail(tq, idx, FirstFree(idx), |idx|);
  }

  /**
   * The timed `alloc` followed by the constructor: the first free slot
   * of a packed table takes the image at `writeTimeout`, the new message
   * becomes the last pending entry, and the table stays packed.
   */
  lemma AllocAppends(tq: seq<byte>, idx: seq<Slot>, wt: nat, m: seq<byte>, id: bv32, deadline: int)
    requires Packed(idx, wt) && 0 < |m| && EnoughTimeoutSpace(idx, wt, |m|, |tq|)
    ensures var k := FirstFree(idx);
      var idx' := idx[k := Slot(wt, |m|, id, deadline)];
      var tq' := Place(tq, wt, m);
      Packed(idx', wt + |m|) && InBounds(tq', idx') &&
      Pending(tq', idx') == Pending(tq, idx) + [Entry(m, deadline, id)]
  {
    PackedFreeTail(tq, idx, wt);
    PackedSorted(idx, wt);
    AllocPacked(idx, wt, |m|, id, deadline);
    AllocEntries(tq, idx, wt, m, id, deadline);
  }

  lemma AllocPacked(idx: seq<Slot>, wt: nat, size: nat, id: bv32, deadline: int)
    requires Packed(idx, wt) && 0 < size && FirstFree(idx) < |idx|
    requires forall j :: FirstFree(idx) <= j < |idx| ==> idx[j].size == 0
    requires wt == SizeSum(idx, FirstFree(idx))
    ensures Packed(idx[FirstFree(idx) := Slot(wt, size, id, deadline)], wt + size)
  {
    var k := FirstFree(idx);
    var s := Slot(wt, size, id, deadline);
    FilledPrefix(idx, k, s);
    FilledAddresses(idx, k, s);
    assert SizeSum(idx[k := s], |idx|) == wt + size by {
      SizeSumAgree(idx, idx[k := s], k);
      SizeFreeTail(idx[k := s], k + 1, |idx|);
    }
  }

  /** Filling the first free slot keeps the active slots a prefix of the table. */
  lemma FilledPrefix(idx: seq<Slot>, k: nat, s: Slot)
    requires k < |idx| && s.size > 0
    requires forall j :: 0 <= j < k ==> idx[j].size > 0
    requires forall j :: k <= j < |idx| ==> idx[j].size == 0
    ensures var idx' := idx[k := s];
      forall i, j :: 0 <= i < j < |idx'| && idx'[j].size > 0 ==> idx'[i].size > 0
  {
    var idx' := idx[k := s];
    forall i, j | 0 <= i < j < |idx'| && idx'[j].size > 0
      ensures idx'[i].size > 0
    {
      if j != k {
        assert idx[j].size > 0;
      }
    }
  }

  /** Filling the first free slot at the sum of the sizes before it keeps every image where the sizes put it. */
  lemma FilledAddresses(idx: seq<Slot>, k: nat, s: Slot)
    requires k < |idx| && s.address == SizeSum(idx, k)
    requires forall j :: 0 <= j < |idx| && idx[j].size > 0 ==> idx[j].address == SizeSum(idx, j)
    requires forall j :: k <= j < |idx| ==> idx[j].size == 0
    ensures var idx' := idx[k := s];
      forall j :: 0 <= j < |idx'| && idx'[j].size > 0 ==> idx'[j].address == SizeSum(idx', j)
  {
    var idx' := idx[k := s];
    forall j | 0 <= j < |idx'| && idx'[j].size > 0
      ensures idx'[j].address == SizeSum(idx', j)
    {
      if j <= k {
        SizeSumAgree(idx, idx', j);
      }
    }
  }

  lemma AllocEntries(tq: seq<byte>, idx: seq<Slot>, wt: nat, m: seq<byte>, id: bv32, deadline: int)
    requires Sorted(idx, wt) && 0 < |m| && FirstFree(idx) < |idx| && wt + |m| <= |tq|
    requires forall j :: FirstFree(idx) <= j < |idx| ==> idx[j].size == 0
    requires Pending(tq, idx) == Entries(tq, idx, FirstFree(idx))
    ensures var idx' := idx[FirstFree(idx) := Slot(wt, |m|, id, deadline)];
      var tq' := Place(tq, wt, m);
      InBounds(tq', idx') && Pending(tq', idx') == Pending(tq, idx) + [Entry(m, deadline, id)]
  {
    var k := FirstFree(idx);
    var s := Slot(wt, |m|, id, deadline);
    var idx' := idx[k := s];
    var tq' := Place(tq, wt, m);
    assert InBounds(tq', idx');
    assert EntryOf(tq', idx'[k]) == [Entry(m, deadline, id)] by {
      assert idx'[k] == s;
      EntryOfActive(tq', s);
    }
    calc {
      Pending(tq', idx');
      { FreeTail(tq', idx', k + 1, |idx'|); }
      Entries(tq', idx', k + 1);
      { EntriesNext(tq', idx', k); }
      Entries(tq', idx', k) + EntryOf(tq', idx'[k]);
      { AllocPrefix(tq, idx, wt, m, k, s); }
      Entries(tq, idx, k) + [Entry(m, deadline, id)];
    }
  }

  /** The slots before the one `alloc` fills keep their entries: their images lie below `writeTimeout`. */
  lemma AllocPrefix(tq: seq<byte>, idx: seq<Slot>, wt: nat, m: seq<byte>, k: nat, s: Slot)
    requires k < |idx| && wt + |m| <= |tq|
    requires forall i :: 0 <= i < k && idx[i].size > 0 ==> idx[i].address + idx[i].size <= wt
    ensures Entries(Place(tq, wt, m), idx[k := s], k) == Entries(tq, idx, k)
  {
    var tq' := Place(tq, wt, m);
    PlacePrefix(tq, wt, m);
    EntriesFrame(tq, tq', idx, k, wt);
    EntriesAgree(tq', idx, idx[k := s], k);
  }

  // ---------------------------------------------------------------------
  // Expiry and cancellation
  // ---------------------------------------------------------------------

  predicate Due(s: Slot, now: int) {
    s.size > 0 && s.timeout < now
  }

  /** `checkTimeouts`' scan: every active slot whose deadline is before `now` is freed. */
  function Expire(idx: seq<Slot>, now: int): (r: seq<Slot>)
    ensures |r| == |idx|
  {
    seq(|idx|, k requires 0 <= k < |idx| => if Due(idx[k], now) then idx[k].(size := 0) else idx[k])
  }

  /** Whether the scan frees anything, which is when `checkTimeouts` compacts. */
  predicate AnyDue(idx: seq<Slot>, now: int) {
    exists k :: 0 <= k < |idx| && Due(idx[k], now)
  }

  /** The pending entries whose deadline has passed, in order. */
  function Expired(es: seq<Entry>, now: int): (r: seq<Entry>)
    ensures |r| <= |es|
    decreases |es|
  {
    if es == [] then []
    else Expired(es[..|es| - 1], now) + (if es[|es| - 1].timeout < now then [es[|es| - 1]] else [])
  }

  /** The pending entries whose deadline has not passed, in order. */
  function Remaining(es: seq<Entry>, now: int): (r: seq<Entry>)
    ensures |r| <= |es|
    decreases |es|
  {
    if es == [] then []
    else Remaining(es[..|es| - 1], now) + (if es[|es| - 1].timeout < now then [] else [es[|es| - 1]])
  }

  /** The images of a run of entries. */
  function Images(es: seq<Entry>): (r: seq<seq<byte>>)
    ensures |r| == |es|
    decreases |es|
  {
    if es == [] then [] else Images(es[..|es| - 1]) + [es[|es| - 1].bytes]
  }

  lemma ImagesAppend(a: seq<Entry>, b: seq<Entry>)
    ensures Images(a + b) == Images(a) + Images(b)
    decreases |b|
  {
    if b == [] {
      assert a + b == a;
    } else {
      assert (a + b)[..|a + b| - 1] == a + b[..|b| - 1];
      ImagesAppend(a, b[..|b| - 1]);
    }
  }

  /**
   * One step of `checkTimeouts`' scan: slot `s` adds its image to those
   * delivered exactly when it is due.
   */
  lemma ExpiredImagesStep(es: seq<Entry>, tq: seq<byte>, s: Slot, now: int)
    requires s.size > 0 ==> s.address + s.size <= |tq|
    ensures Images(Expired(es + EntryOf(tq, s), now)) ==
      Images(Expired(es, now)) + (if Due(s, now) then [tq[s.address..s.address + s.size]] else [])
  {
    ExpireSlot(es, tq, s, now);
    if Due(s, now) {
      var e := Entry(tq[s.address..s.address + s.size], s.timeout, s.id);
      assert EntryOf(tq, s) == [e];
      ImagesAppend(Expired(es, now), [e]);
    } else {
      assert Expired(es, now) + [] == Expired(es, now);
    }
  }

  /** The images `checkTimeouts`' scan delivers from the first `n` slots, in slot order. */
  function DueImages(tq: seq<byte>, idx: seq<Slot>, now: int, n: nat): seq<seq<byte>>
    requires n <= |idx| && InBounds(tq, idx)
    decreases n
  {
    if n == 0 then []
    else
      var s := idx[n - 1];
      DueImages(tq, idx, now, n - 1) + if Due(s, now) then [tq[s.address..s.address + s.size]] else []
  }

  /** The scan delivers the images of exactly the expired pending entries, in order. */
  lemma {:induction false} DueImagesExpired(tq: seq<byte>, idx: seq<Slot>, now: int, n: nat)
    requires n <= |idx| && InBounds(tq, idx)
    ensures DueImages(tq, idx, now, n) == Images(Expired(Entries(tq, idx, n), now))
    decreases n
  {
    if n == 0 {
      NoEntries(tq, idx);
      assert Images(Expired(Entries(tq, idx, n), now)) == [];
    } else {
      var j := n - 1;
      DueImagesExpired(tq, idx, now, j);
      DueImagesStep(tq, idx, now, j, n);
    }
  }

  lemma DueImagesStep(tq: seq<byte>, idx: seq<Slot>, now: int, j: nat, n: nat)
    requires n == j + 1 <= |idx| && InBounds(tq, idx)
    requires DueImages(tq, idx, now, j) == Images(Expired(Entries(tq, idx, j), now))
    ensures DueImages(tq, idx, now, n) == Images(Expired(Entries(tq, idx, n), now))
  {
    var s := idx[j];
    var es := Entries(tq, idx, j);
    var due := if Due(s, now) then [tq[s.address..s.address + s.size]] else [];
    calc {
      DueImages(tq, idx, now, n);
      { DueImagesNext(tq, idx, now, j); }
      DueImages(tq, idx, now, j) + due;
      Images(Expired(es, now)) + due;
      { ExpiredImagesStep(es, tq, s, now); }
      Images(Expired(es + EntryOf(tq, s), now));
      { EntriesNext(tq, idx, j); }
      Images(Expired(Entries(tq, idx, n), now));
    }
  }

  lemma DueImagesNext(tq: seq<byte>, idx: seq<Slot>, now: int, k: nat)
    requires k < |idx| && InBounds(tq, idx)
    ensures var s := idx[k];
      DueImages(tq, idx, now, k + 1) == DueImages(tq, idx, now, k) + if Due(s, now) then [tq[s.address..s.address + s.size]] else []
  {
    var n := k + 1;
    assert DueImages(tq, idx, now, n) == DueImages(tq, idx, now, n - 1) +
      if Due(idx[n - 1], now) then [tq[idx[n - 1].address..idx[n - 1].address + idx[n - 1].size]] else [];
  }

  lemma ExpiredStep(es: seq<Entry>, e: Entry, now: int)
    ensures Expired(es + [e], now) == Expired(es, now) + (if e.timeout < now then [e] else [])
    ensures Remaining(es + [e], now) == Remaining(es, now) + (if e.timeout < now then [] else [e])
  {
    assert (es + [e])[..|es|] == es;
  }

  /** One more slot in the scan: its entry has expired exactly when it is due, and remains otherwise. */
  lemma ExpireSlot(es: seq<Entry>, tq: seq<byte>, s: Slot, now: int)
    ensures var s' := if Due(s, now) then s.(size := 0) else s;
      Remaining(es + EntryOf(tq, s), now) == Remaining(es, now) + EntryOf(tq, s') &&
      Expired(es + EntryOf(tq, s), now) == Expired(es, now) + (if Due(s, now) then EntryOf(tq, s) else [])
  {
    if s.size > 0 && s.address + s.size <= |tq| {
      ExpiredStep(es, Entry(tq[s.address..s.address + s.size], s.timeout, s.id), now);
    } else {
      assert es + [] == es;
    }
  }

  /** The scan frees exactly the slots of the expired entries: what remains pending is the rest, in order. */
  lemma {:induction false} ExpireKeepsRemaining(tq: seq<byte>, idx: seq<Slot>, now: int, n: nat)
    requires n <= |idx|
    ensures Entries(tq, Expire(idx, now), n) == Remaining(Entries(tq, idx, n), now)
    decreases n
  {
    if n == 0 {
      NoEntries(tq, idx);
      NoEntries(tq, Expire(idx, now));
    } else {
      var j := n - 1;
      ExpireKeepsRemaining(tq, idx, now, j);
      ExpireStep(tq, idx, now, j, n);
    }
  }

  lemma ExpireStep(tq: seq<byte>, idx: seq<Slot>, now: int, j: nat, n: nat)
    requires n == j + 1 <= |idx|
    requires Entries(tq, Expire(idx, now), j) == Remaining(Entries(tq, idx, j), now)
    ensures Entries(tq, Expire(idx, now), n) == Remaining(Entries(tq, idx, n), now)
  {
    var e := Expire(idx, now);
    var s := idx[j];
    var s' := if Due(s, now) then s.(size := 0) else s;
    assert e[j] == s';
    var es := Entries(tq, idx, j);
    calc {
      Entries(tq, e, n);
      { EntriesNext(tq, e, j); }
      Entries(tq, e, j) + EntryOf(tq, s');
      Remaining(es, now) + EntryOf(tq, s');
      { ExpireSlot(es, tq, s, now); }
      Remaining(es + EntryOf(tq, s), now);
      { EntriesNext(tq, idx, j); }
      Remaining(Entries(tq, idx, n), now);
    }
  }

  /** Whether `cancelTimeouts(id)` frees slot `s`. */
  predicate Cancels(s: Slot, id: bv32) {
    id != 0 && s.size > 0 && s.id == id
  }

  /** `cancelTimeouts(id)`'s scan: id 0 cancels nothing; any other id frees every active slot carrying it. */
  function Cancel(idx: seq<Slot>, id: bv32): (r: seq<Slot>)
    ensures |r| == |idx|
  {
    seq(|idx|, k requires 0 <= k < |idx| => if Cancels(idx[k], id) then idx[k].(size := 0) else idx[k])
  }

  /** Whether the scan frees anything, which is when `cancelTimeouts` compacts. */
  predicate AnyWithId(idx: seq<Slot>, id: bv32) {
    exists k :: 0 <= k < |idx| && Cancels(idx[k], id)
  }

  /** The pending entries not carrying `id`, in order. */
  function WithoutId(es: seq<Entry>, id: bv32): (r: seq<Entry>)
    ensures |r| <= |es|
    decreases |es|
  {
    if es == [] then []
    else WithoutId(es[..|es| - 1], id) + (if es[|es| - 1].id == id then [] else [es[|es| - 1]])
  }

  lemma WithoutIdStep(es: seq<Entry>, e: Entry, id: bv32)
    ensures WithoutId(es + [e], id) == WithoutId(es, id) + (if e.id == id then [] else [e])
  {
    assert (es + [e])[..|es|] == es;
  }

  /** One more slot in the scan: its entry stays exactly when it carries another id. */
  lemma WithoutIdSlot(es: seq<Entry>, tq: seq<byte>, s: Slot, id: bv32)
    requires id != 0
    ensures var s' := if Cancels(s, id) then s.(size := 0) else s;
      WithoutId(es + EntryOf(tq, s), id) == WithoutId(es, id) + EntryOf(tq, s')
  {
    if s.size > 0 && s.address + s.size <= |tq| {
      WithoutIdStep(es, Entry(tq[s.address..s.address + s.size], s.timeout, s.id), id);
    } else {
      assert es + [] == es;
    }
  }

  /** Cancelling by a non-zero id leaves pending exactly the entries that carry another id. */
  lemma {:induction false} CancelRemovesId(tq: seq<byte>, idx: seq<Slot>, id: bv32, n: nat)
    requires id != 0 && n <= |idx|
    ensures Entries(tq, Cancel(idx, id), n) == WithoutId(Entries(tq, idx, n), id)
    decreases n
  {
    if n == 0 {
      NoEntries(tq, idx);
      NoEntries(tq, Cancel(idx, id));
    } else {
      var j := n - 1;
      CancelRemovesId(tq, idx, id, j);
      CancelStep(tq, idx, id, j, n);
    }
  }

  lemma CancelStep(tq: seq<byte>, idx: seq<Slot>, id: bv32, j: nat, n: nat)
    requires id != 0 && n == j + 1 <= |idx|
    requires Entries(tq, Cancel(idx, id), j) == WithoutId(Entries(tq, idx, j), id)
    ensures Entries(tq, Cancel(idx, id), n) == WithoutId(Entries(tq, idx, n), id)
  {
    var c := Cancel(idx, id);
    var s := idx[j];
    var s' := if Cancels(s, id) then s.(size := 0) else s;
    assert c[j] == s';
    var es := Entries(tq, idx, j);
    calc {
      Entries(tq, c, n);
      { EntriesNext(tq, c, j); }
      Entries(tq, c, j) + EntryOf(tq, s');
      WithoutId(es, id) + EntryOf(tq, s');
      { WithoutIdSlot(es, tq, s, id); }
      WithoutId(es + EntryOf(tq, s), id);
      { EntriesNext(tq, idx, j); }
      WithoutId(Entries(tq, idx, n), id);
    }
  }

  // ---------------------------------------------------------------------
  // Compaction
  // ---------------------------------------------------------------------

  /** The timed buffer, the slot table, `writeTimeout` and the next slot to fill. */
  datatype Table = Table(tq: seq<byte>, idx: seq<Slot>, wt: nat, next: nat)

  /** `defragment`'s first loop: every slot is marked free; addresses, ids and deadlines stay. */
  function Cleared(idx: seq<Slot>): (r: seq<Slot>)
    ensures |r| == |idx| && forall k :: 0 <= k < |idx| ==> r[k] == idx[k].(size := 0)
  {
    seq(|idx|, k requires 0 <= k < |idx| => idx[k].(size := 0))
  }

  /**
   * `defragment` after its second loop has visited the first `k` old
   * slots: each active one has had its image copied to `wt` and has been
   * written into slot `next`. `copyId` says whether the slot's id is
   * copied too; the source does not copy it.
   */
  function Compacted(oldTq: seq<byte>, oldIdx: seq<Slot>, oldWt: nat, k: nat, copyId: bool): (t: Table)
    requires Sorted(oldIdx, oldWt) && oldWt <= |oldTq| && k <= |oldIdx|
    ensures |t.tq| == |oldTq| && |t.idx| == |oldIdx| && t.next <= k
    ensures t.wt == SizeSum(oldIdx, k) && t.wt <= oldWt
    decreases k
  {
    if k == 0 then Table(oldTq, Cleared(oldIdx), 0, 0)
    else
      var t := Compacted(oldTq, oldIdx, oldWt, k - 1, copyId);
      var s := oldIdx[k - 1];
      if s.size == 0 then t
      else
        SizeSumBelow(oldIdx, oldWt, k - 1, k - 1);
        Move(t, oldTq[s.address..s.address + s.size], s, copyId)
  }

  /** The first `n` slots' sizes add up to no more than where any later active image starts. */
  lemma {:induction false} SizeSumBelow(idx: seq<Slot>, wt: nat, n: nat, j: nat)
    requires Sorted(idx, wt) && n <= j < |idx| && idx[j].size > 0
    ensures SizeSum(idx, n) <= idx[j].address
    decreases n
  {
    if n > 0 {
      var i := n - 1;
      if idx[i].size > 0 {
        SizeSumBelow(idx, wt, i, i);
      } else {
        SizeSumBelow(idx, wt, i, j);
      }
    }
  }

  /** One visit of an active old slot `s` whose image is `img`. */
  function Move(t: Table, img: seq<byte>, s: Slot, copyId: bool): (r: Table)
    requires t.next < |t.idx| && t.wt + |img| <= |t.tq|
  {
    var moved := if copyId then Slot(t.wt, |img|, s.id, s.timeout)
                 else t.idx[t.next].(address := t.wt, size := |img|, timeout := s.timeout);
    Table(Place(t.tq, t.wt, img), t.idx[t.next := moved], t.wt + |img|, t.next + 1)
  }

  /** The visit of an active old slot `k`: its image lies in the buffer and is moved to `wt`. */
  lemma CompactedMove(oldTq: seq<byte>, oldIdx: seq<Slot>, oldWt: nat, k: nat)
    requires Sorted(oldIdx, oldWt) && oldWt <= |oldTq| && k < |oldIdx| && oldIdx[k].size > 0
    ensures var t := Compacted(oldTq, oldIdx, oldWt, k, true);
      var s := oldIdx[k];
      s.address + s.size <= |oldTq| && t.next < |t.idx| && t.wt + s.size <= |t.tq| &&
      Compacted(oldTq, oldIdx, oldWt, k + 1, true) == Move(t, oldTq[s.address..s.address + s.size], s, true)
  {
    SizeSumBelow(oldIdx, oldWt, k, k);
  }

  /** What visiting old slot `s` needs: an active one's image lies in `tq` and fits at `wt`. */
  predicate CanVisit(t: Table, tq: seq<byte>, s: Slot) {
    s.size > 0 ==> s.address + s.size <= |tq| && t.next < |t.idx| && t.wt + s.size <= |t.tq|
  }

  /** One visit of `defragment`'s second loop, copying the id: a free slot changes nothing. */
  function Visit(t: Table, tq: seq<byte>, s: Slot): Table
    requires CanVisit(t, tq, s)
  {
    if s.size == 0 then t else Move(t, tq[s.address..s.address + s.size], s, true)
  }

  /** The visit of old slot `k` takes the table after `k` visits to the one after `k + 1`. */
  lemma CompactedVisit(oldTq: seq<byte>, oldIdx: seq<Slot>, oldWt: nat, k: nat)
    requires Sorted(oldIdx, oldWt) && oldWt <= |oldTq| && k < |oldIdx|
    ensures var t := Compacted(oldTq, oldIdx, oldWt, k, true);
      CanVisit(t, oldTq, oldIdx[k]) &&
      Compacted(oldTq, oldIdx, oldWt, k + 1, true) == Visit(t, oldTq, oldIdx[k])
  {
    var t := Compacted(oldTq, oldIdx, oldWt, k, true);
    var s := oldIdx[k];
    if s.size > 0 {
      CompactedMove(oldTq, oldIdx, oldWt, k);
      assert Visit(t, oldTq, s) == Move(t, oldTq[s.address..s.address + s.size], s, true);
    } else {
      CompactedSkip(oldTq, oldIdx, oldWt, k);
      assert Visit(t, oldTq, s) == t;
    }
  }

  /** The visit of a free old slot `k` changes nothing. */
  lemma CompactedSkip(oldTq: seq<byte>, oldIdx: seq<Slot>, oldWt: nat, k: nat)
    requires Sorted(oldIdx, oldWt) && oldWt <= |oldTq| && k < |oldIdx| && oldIdx[k].size == 0
    ensures Compacted(oldTq, oldIdx, oldWt, k + 1, true) == Compacted(oldTq, oldIdx, oldWt, k, true)
  {
  }

  /** Before the first visit: every slot cleared, nothing copied. */
  lemma CompactedNone(oldTq: seq<byte>, oldIdx: seq<Slot>, oldWt: nat)
    requires Sorted(oldIdx, oldWt) && oldWt <= |oldTq|
    ensures Compacted(oldTq, oldIdx, oldWt, 0, true) == Table(oldTq, Cleared(oldIdx), 0, 0)
  {
  }

  /** The whole of `defragment`. */
  function Compact(tq: seq<byte>, idx: seq<Slot>, wt: nat, copyId: bool): Table
    requires Sorted(idx, wt) && wt <= |tq|
  {
    Compacted(tq, idx, wt, |idx|, copyId)
  }

  /** The new table `defragment` builds: packed up to slot `next`, free after it. */
  predicate CompactedShape(t: Table) {
    t.next <= |t.idx| && t.wt <= |t.tq| &&
    (forall i :: 0 <= i < t.next ==> t.idx[i].size > 0) &&
    (forall i :: t.next <= i < |t.idx| ==> t.idx[i].size == 0) &&
    (forall i :: 0 <= i < t.next ==> t.idx[i].address == SizeSum(t.idx, i)) &&
    t.wt == SizeSum(t.idx, t.next) &&
    InBounds(t.tq, t.idx)
  }

  /** What `defragment` (with the id copied) keeps true after visiting `k` old slots. */
  predicate CompactedInvariant(oldTq: seq<byte>, oldIdx: seq<Slot>, t: Table, k: nat)
    requires k <= |oldIdx|
  {
    |t.idx| == |oldIdx| && |t.tq| == |oldTq| && CompactedShape(t) &&
    Entries(t.tq, t.idx, t.next) == Entries(oldTq, oldIdx, k)
  }

  lemma {:induction false} CompactedKeeps(oldTq: seq<byte>, oldIdx: seq<Slot>, oldWt: nat, k: nat)
    requires Sorted(oldIdx, oldWt) && oldWt <= |oldTq| && k <= |oldIdx|
    ensures CompactedInvariant(oldTq, oldIdx, Compacted(oldTq, oldIdx, oldWt, k, true), k)
    decreases k
  {
    if k > 0 {
      var j := k - 1;
      CompactedKeeps(oldTq, oldIdx, oldWt, j);
      CompactStep(oldTq, oldIdx, oldWt, j, k);
    } else {
      CompactStart(oldTq, oldIdx, oldWt);
    }
  }

  lemma CompactStart(oldTq: seq<byte>, oldIdx: seq<Slot>, oldWt: nat)
    requires Sorted(oldIdx, oldWt) && oldWt <= |oldTq|
    ensures CompactedInvariant(oldTq, oldIdx, Compacted(oldTq, oldIdx, oldWt, 0, true), 0)
  {
    var t := Compacted(oldTq, oldIdx, oldWt, 0, true);
    assert t == Table(oldTq, Cleared(oldIdx), 0, 0);
    assert Entries(t.tq, t.idx, 0) == [];
  }

  /** One visit: the invariant survives old slot `k`, moved into slot `p.next` when active. */
  lemma CompactStep(oldTq: seq<byte>, oldIdx: seq<Slot>, oldWt: nat, k: nat, k': nat)
    requires Sorted(oldIdx, oldWt) && oldWt <= |oldTq| && k' == k + 1 <= |oldIdx|
    ensures CompactedInvariant(oldTq, oldIdx, Compacted(oldTq, oldIdx, oldWt, k, true), k) ==>
      CompactedInvariant(oldTq, oldIdx, Compacted(oldTq, oldIdx, oldWt, k', true), k')
  {
    var p := Compacted(oldTq, oldIdx, oldWt, k, true);
    if !CompactedInvariant(oldTq, oldIdx, p, k) {
      return;
    }
    var s := oldIdx[k];
    if s.size > 0 {
      CompactedMove(oldTq, oldIdx, oldWt, k);
      MoveKeeps(oldTq, oldIdx, k, p, oldTq[s.address..s.address + s.size]);
    } else {
      CompactedSkip(oldTq, oldIdx, oldWt, k);
      EntriesNext(oldTq, oldIdx, k);
    }
  }

  lemma MoveKeeps(oldTq: seq<byte>, oldIdx: seq<Slot>, k: nat, p: Table, img: seq<byte>)
    requires k < |oldIdx| && oldIdx[k].size > 0 && oldIdx[k].address + oldIdx[k].size <= |oldTq|
    requires img == oldTq[oldIdx[k].address..oldIdx[k].address + oldIdx[k].size]
    requires CompactedInvariant(oldTq, oldIdx, p, k)
    requires p.next < |p.idx| && p.wt + |img| <= |p.tq|
    ensures CompactedInvariant(oldTq, oldIdx, Move(p, img, oldIdx[k], true), k + 1)
  {
    var s := oldIdx[k];
    var e := Entry(img, s.timeout, s.id);
    var t := Move(p, img, s, true);
    assert Entries(oldTq, oldIdx, k + 1) == Entries(oldTq, oldIdx, k) + [e] by {
      EntryOfActive(oldTq, s);
      EntriesNext(oldTq, oldIdx, k);
    }
    assert CompactedShape(t) by {
      MoveShape(p, img, s);
    }
    assert Entries(t.tq, t.idx, t.next) == Entries(p.tq, p.idx, p.next) + [e] by {
      ShapeBelow(p);
      MoveEntries(p, img, s);
    }
  }

  lemma MoveShape(p: Table, img: seq<byte>, s: Slot)
    requires CompactedShape(p) && 0 < |img| && p.next < |p.idx| && p.wt + |img| <= |p.tq|
    ensures CompactedShape(Move(p, img, s, true))
  {
    var t := Move(p, img, s, true);
    var n := p.next;
    SizeSumAgree(p.idx, t.idx, n);
    forall i | 0 <= i < t.next
      ensures t.idx[i].address == SizeSum(t.idx, i)
    {
      if i < n {
        SizeSumAgree(p.idx, t.idx, i);
      }
    }
    assert InBounds(t.tq, t.idx) by {
      forall i | 0 <= i < |t.idx| && t.idx[i].size > 0
        ensures t.idx[i].address + t.idx[i].size <= |t.tq|
      {
        if i < n {
          SlotBelow(p.idx, i, n);
        }
      }
    }
  }

  /** In the table being built, every image lies below `wt`. */
  lemma ShapeBelow(p: Table)
    requires CompactedShape(p)
    ensures forall i :: 0 <= i < p.next ==> p.idx[i].address + p.idx[i].size <= p.wt
  {
    forall i | 0 <= i < p.next
      ensures p.idx[i].address + p.idx[i].size <= p.wt
    {
      SlotBelow(p.idx, i, p.next);
    }
  }

  lemma MoveEntries(p: Table, img: seq<byte>, s: Slot)
    requires 0 < |img| && p.next < |p.idx| && p.wt + |img| <= |p.tq|
    requires forall i :: 0 <= i < p.next ==> p.idx[i].address + p.idx[i].size <= p.wt
    ensures var t := Move(p, img, s, true);
      Entries(t.tq, t.idx, t.next) == Entries(p.tq, p.idx, p.next) + [Entry(img, s.timeout, s.id)]
  {
    var t := Move(p, img, s, true);
    var n := p.next;
    assert Entries(t.tq, t.idx, n) == Entries(p.tq, p.idx, n) by {
      MoveFrame(p, img, s);
    }
    assert EntryOf(t.tq, t.idx[n]) == [Entry(img, s.timeout, s.id)] by {
      MovedEntry(p, img, s);
    }
    EntriesNext(t.tq, t.idx, n);
  }

  /** The copy lands at `wt`, above every image already moved, so their entries stay. */
  lemma MoveFrame(p: Table, img: seq<byte>, s: Slot)
    requires p.next < |p.idx| && p.wt + |img| <= |p.tq|
    requires forall i :: 0 <= i < p.next ==> p.idx[i].address + p.idx[i].size <= p.wt
    ensures var t := Move(p, img, s, true);
      Entries(t.tq, t.idx, p.next) == Entries(p.tq, p.idx, p.next)
  {
    var t := Move(p, img, s, true);
    assert t.tq[..p.wt] == p.tq[..p.wt] by {
      PlacePrefix(p.tq, p.wt, img);
    }
    EntriesFrame(p.tq, t.tq, p.idx, p.next, p.wt);
    EntriesAgree(t.tq, p.idx, t.idx, p.next);
  }

  /** The moved slot holds the copied image with the old slot's deadline and id. */
  lemma MovedEntry(p: Table, img: seq<byte>, s: Slot)
    requires 0 < |img| && p.next < |p.idx| && p.wt + |img| <= |p.tq|
    ensures var t := Move(p, img, s, true);
      EntryOf(t.tq, t.idx[p.next]) == [Entry(img, s.timeout, s.id)]
  {
    var t := Move(p, img, s, true);
    var moved := Slot(p.wt, |img|, s.id, s.timeout);
    assert t.idx[p.next] == moved;
    assert t.tq[p.wt..p.wt + |img|] == img;
    EntryOfActive(t.tq, moved);
  }

  /**
   * `defragment`, with the id copied: the pending entries are unchanged,
   * in order, and the table comes out packed.
   */
  lemma CompactKeepsEntries(tq: seq<byte>, idx: seq<Slot>, wt: nat)
    requires Sorted(idx, wt) && wt <= |tq|
    ensures var t := Compact(tq, idx, wt, true);
      InBounds(t.tq, t.idx) && Packed(t.idx, t.wt) && t.wt <= |t.tq| &&
      Pending(t.tq, t.idx) == Pending(tq, idx)
  {
    var t := Compact(tq, idx, wt, true);
    CompactedKeeps(tq, idx, wt, |idx|);
    FreeTail(t.tq, t.idx, t.next, |t.idx|);
  }

  // ---------------------------------------------------------------------
  // A scan followed by compaction
  // ---------------------------------------------------------------------

  /** The timed state `checkTimeouts(now)` leaves: the due slots freed, then compacted if any was. */
  function AfterTimeouts(tq: seq<byte>, idx: seq<Slot>, wt: nat, now: int): Table
    requires Packed(idx, wt) && wt <= |tq|
  {
    var e := Expire(idx, now);
    if AnyDue(idx, now) then
      PackedSorted(idx, wt);
      FreedSorted(e, idx, wt);
      Compact(tq, e, wt, true)
    else Table(tq, idx, wt, 0)
  }

  /**
   * `checkTimeouts(now)` keeps exactly the entries whose deadline has not
   * passed, in order, and leaves the table packed; when nothing is due it
   * changes nothing.
   */
  lemma TimeoutsLeaveRemaining(tq: seq<byte>, idx: seq<Slot>, wt: nat, now: int)
    requires Packed(idx, wt) && wt <= |tq|
    ensures var t := AfterTimeouts(tq, idx, wt, now);
      |t.tq| == |tq| && |t.idx| == |idx| && Packed(t.idx, t.wt) && t.wt <= |tq| &&
      Pending(t.tq, t.idx) == Remaining(Pending(tq, idx), now)
    ensures !AnyDue(idx, now) ==> Expire(idx, now) == idx && AfterTimeouts(tq, idx, wt, now) == Table(tq, idx, wt, 0)
  {
    var e := Expire(idx, now);
    ExpireKeepsRemaining(tq, idx, now, |idx|);
    if AnyDue(idx, now) {
      PackedSorted(idx, wt);
      FreedSorted(e, idx, wt);
      CompactKeepsEntries(tq, e, wt);
    } else {
      assert e == idx;
    }
  }

  /** The timed state `cancelTimeouts(id)` leaves: the slots carrying `id` freed, then compacted if any was. */
  function AfterCancel(tq: seq<byte>, idx: seq<Slot>, wt: nat, id: bv32): Table
    requires Packed(idx, wt) && wt <= |tq|
  {
    var c := Cancel(idx, id);
    if AnyWithId(idx, id) then
      PackedSorted(idx, wt);
      FreedSorted(c, idx, wt);
      Compact(tq, c, wt, true)
    else Table(tq, idx, wt, 0)
  }

  /** The scan keeps the table sorted, and when it frees anything `cancelTimeouts` is the scan and a compaction. */
  lemma CancelThenCompact(tq: seq<byte>, idx: seq<Slot>, wt: nat, id: bv32)
    requires Packed(idx, wt) && wt <= |tq|
    ensures Sorted(Cancel(idx, id), wt)
    ensures AnyWithId(idx, id) ==> AfterCancel(tq, idx, wt, id) == Compact(tq, Cancel(idx, id), wt, true)
  {
    PackedSorted(idx, wt);
    FreedSorted(Cancel(idx, id), idx, wt);
  }

  /** The entries a cancellation by `id` keeps: all of them for id 0, otherwise those carrying another id. */
  function Kept(es: seq<Entry>, id: bv32): seq<Entry> {
    if id == 0 then es else WithoutId(es, id)
  }

  /**
   * A timed send's whole effect on the pending messages: those carrying
   * a non-zero `id` are dropped and, when `enoughTimeoutSpace` admits the
   * image, it becomes the last one; the table stays packed.
   */
  lemma CancelThenPlace(tq: seq<byte>, idx: seq<Slot>, wt: nat, m: seq<byte>, deadline: int, id: bv32)
    requires Packed(idx, wt) && wt <= |tq| && 0 < |m|
    ensures var c := AfterCancel(tq, idx, wt, id);
      var t := Placed(c.tq, c.idx, c.wt, m, deadline, id);
      Packed(t.idx, t.wt) && |t.tq| == |tq| && |t.idx| == |idx| &&
      Pending(t.tq, t.idx) == Kept(Pending(tq, idx), id) +
        (if EnoughTimeoutSpace(c.idx, c.wt, |m|, |tq|) then [Entry(m, deadline, id)] else [])
  {
    CancelLeavesOthers(tq, idx, wt, id);
    var c := AfterCancel(tq, idx, wt, id);
    if EnoughTimeoutSpace(c.idx, c.wt, |m|, |c.tq|) {
      AllocAppends(c.tq, c.idx, c.wt, m, id, deadline);
    } else {
      assert Kept(Pending(tq, idx), id) + [] == Kept(Pending(tq, idx), id);
    }
  }

  /** `cancelTimeouts(0)` changes nothing. */
  lemma CancelZero(tq: seq<byte>, idx: seq<Slot>, wt: nat)
    requires Packed(idx, wt) && wt <= |tq|
    ensures AfterCancel(tq, idx, wt, 0) == Table(tq, idx, wt, 0)
  {
    assert !AnyWithId(idx, 0);
  }

  /**
   * `cancelTimeouts(id)` keeps exactly the entries that do not carry a
   * non-zero `id`, in order, and leaves the table packed; with id 0, or
   * when no slot carries `id`, it changes nothing.
   */
  lemma CancelLeavesOthers(tq: seq<byte>, idx: seq<Slot>, wt: nat, id: bv32)
    requires Packed(idx, wt) && wt <= |tq|
    ensures var t := AfterCancel(tq, idx, wt, id);
      |t.tq| == |tq| && |t.idx| == |idx| && Packed(t.idx, t.wt) && t.wt <= |tq| &&
      Pending(t.tq, t.idx) == Kept(Pending(tq, idx), id)
    ensures !AnyWithId(idx, id) ==> Cancel(idx, id) == idx && AfterCancel(tq, idx, wt, id) == Table(tq, idx, wt, 0)
  {
    var c := Cancel(idx, id);
    if id == 0 {
      assert !AnyWithId(idx, id);
      assert c == idx;
    } else if AnyWithId(idx, id) {
      CancelRemovesId(tq, idx, id, |idx|);
      PackedSorted(idx, wt);
      FreedSorted(c, idx, wt);
      CompactKeepsEntries(tq, c, wt);
    } else {
      assert c == idx;
      CancelRemovesId(tq, idx, id, |idx|);
    }
  }

  // ---------------------------------------------------------------------
  // Finding: the id is not copied
  // ---------------------------------------------------------------------

  /** The table of the example below: id 7's message has fired and its slot is free, id 5's waits in slot 1. */
  function FiredExample(): seq<Slot> {
    [Slot(0, 0, 7, 10), Slot(8, 8, 5, 20)]
  }

  /**
   * `defragment` as written moves an entry into a slot without its id.
   * Two 8-byte delayed messages were sent, with ids 7 and 5; the first
   * has fired, which frees slot 0 (its id stays 7) and compacts. As
   * written, the second message now sits in slot 0 carrying id 7: a
   * cancellation by 5 no longer reaches it and one by 7 does.
   */
  lemma DefragmentDropsId(tq: seq<byte>)
    requires |tq| == 16
    ensures var idx := FiredExample();
      var asWritten := Compact(tq, idx, 16, false);
      Pending(tq, idx) == [Entry(tq[8..16], 20, 5)] &&
      asWritten.idx == [Slot(0, 8, 7, 20), Slot(8, 0, 5, 20)] && |asWritten.tq| == 16 &&
      Pending(asWritten.tq, asWritten.idx) == [Entry(tq[8..16], 20, 7)] &&
      Pending(asWritten.tq, Cancel(asWritten.idx, 5)) == Pending(asWritten.tq, asWritten.idx) &&
      Pending(asWritten.tq, Cancel(asWritten.idx, 7)) == []
  {
    var idx := FiredExample();
    assert Pending(tq, idx) == Entries(tq, idx, 1) + EntryOf(tq, idx[1]);
    var start := Table(tq, Cleared(idx), 0, 0);
    assert Cleared(idx) == [Slot(0, 0, 7, 10), Slot(8, 0, 5, 20)];
    assert Compacted(tq, idx, 16, 1, false) == start;
    var a := Move(start, tq[8..16], idx[1], false);
    assert Compact(tq, idx, 16, false) == a;
    assert a.idx == [Slot(0, 8, 7, 20), Slot(8, 0, 5, 20)];
    assert a.tq[0..8] == tq[8..16];
    assert Pending(a.tq, a.idx) == Entries(a.tq, a.idx, 1) + EntryOf(a.tq, a.idx[1]);
    assert Cancel(a.idx, 5) == a.idx;
    var k7 := Cancel(a.idx, 7);
    assert k7 == [Slot(0, 0, 7, 20), Slot(8, 0, 5, 20)];
    assert Pending(a.tq, k7) == Entries(a.tq, k7, 1) + EntryOf(a.tq, k7[1]);
  }

  /** The same table compacted with the id copied: the entry keeps id 5. */
  lemma DefragmentKeepsId(tq: seq<byte>)
    requires |tq| == 16
    ensures var corrected := Compact(tq, FiredExample(), 16, true);
      corrected.idx == [Slot(0, 8, 5, 20), Slot(8, 0, 5, 20)] && |corrected.tq| == 16 &&
      Pending(corrected.tq, corrected.idx) == [Entry(tq[8..16], 20, 5)] &&
      Pending(corrected.tq, corrected.idx) == Pending(tq, FiredExample())
  {
    var idx := FiredExample();
    CompactKeepsEntries(tq, idx, 16);
    assert Pending(tq, idx) == Entries(tq, idx, 1) + EntryOf(tq, idx[1]);
    var start := Table(tq, Cleared(idx), 0, 0);
    assert Cleared(idx) == [Slot(0, 0, 7, 10), Slot(8, 0, 5, 20)];
    assert Compacted(tq, idx, 16, 1, true) == start;
    var c := Move(start, tq[8..16], idx[1], true);
    assert Compact(tq, idx, 16, true) == c;
  }
}
