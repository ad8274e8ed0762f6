/**
 * `message::Message<MSG_T>`: an event, the receiver it is for and its
 * payload, placed by its two `send` overloads into a `Queue` and handed
 * to its receiver by `deliver()`.
 *
 * A message lives in the queue as the bytes of its object. The model
 * takes that image to be the event as a 32-bit word, the receiver's
 * 32-bit address, both stored low byte first, and then the payload's
 * bytes (alignment padding is not modelled). `sizeof(Message<MSG_T>)` is
 * the length of the image.
 */
module Messages {
  import opened RingLayout
  import opened TimeoutTable
  import opened MessageQueue

  datatype Option<T> = None | Some(value: T)

  /** The events a message can carry, numbered from 0 in declaration order. */
  datatype Event =
    | Update | Init | CanRelaisSet | CanRelaisGet
    | StopTime | BlockTime | CanRollershutterSet | CanRollershutterGet
  {
    function Code(): nat {
      match this
      case Update => 0
      case Init => 1
      case CanRelaisSet => 2
      case CanRelaisGet => 3
      case StopTime => 4
      case BlockTime => 5
      case CanRollershutterSet => 6
      case CanRollershutterGet => 7
    }
  }

  /** The event a code names; codes past the last event name none. */
  function EventOf(c: nat): (r: Option<Event>)
    ensures r.Some? <==> c < 8
    ensures r.Some? ==> r.value.Code() == c
  {
    if c == 0 then Some(Update)
    else if c == 1 then Some(Init)
    else if c == 2 then Some(CanRelaisSet)
    else if c == 3 then Some(CanRelaisGet)
    else if c == 4 then Some(StopTime)
    else if c == 5 then Some(BlockTime)
    else if c == 6 then Some(CanRollershutterSet)
    else if c == 7 then Some(CanRollershutterGet)
    else None
  }

  lemma EventCodeRoundTrip(e: Event)
    ensures EventOf(e.Code()) == Some(e)
  {
  }

  /** A receiver's address: a 32-bit pointer. */
  type Ref = n: nat | n < 0x1_0000_0000

  /** A message: the receiver's address, the event and the payload's bytes. */
  datatype Message = Message(receiver: Ref, event: Event, data: seq<byte>)

  /** The two words in front of the payload. */
  const PREFIX: nat := 8

  /** The message's image in the queue. */
  function Encode(m: Message): (b: seq<byte>)
    ensures |b| == PREFIX + |m.data|
  {
    Word32(m.event.Code()) + Word32(m.receiver) + m.data
  }

  /** The message an image holds; an image too short or with no valid event holds none. */
  function Decode(b: seq<byte>): (r: Option<Message>)
    ensures r.Some? ==> |b| >= PREFIX && |r.value.data| == |b| - PREFIX
  {
    if |b| < PREFIX then None
    else match EventOf(WordValue(b[..4]))
      case None => None
      case Some(e) =>
        WordRoundTrip(b[4..8]);
        Some(Message(WordValue(b[4..8]), e, b[8..]))
  }

  /** An encoded message decodes to itself. */
  lemma DecodeEncode(m: Message)
    ensures Decode(Encode(m)) == Some(m)
  {
    var b := Encode(m);
    assert b[..4] == Word32(m.event.Code());
    assert b[4..8] == Word32(m.receiver);
    assert b[8..] == m.data;
    HeaderRoundTrip(m.event.Code());
    HeaderRoundTrip(m.receiver);
    EventCodeRoundTrip(m.event);
  }

  /** An image that decodes is the encoding of what it decodes to. */
  lemma EncodeDecode(b: seq<byte>)
    requires Decode(b).Some?
    ensures Encode(Decode(b).value) == b
  {
    var m := Decode(b).value;
    WordRoundTrip(b[..4]);
    WordRoundTrip(b[4..8]);
    assert m.event.Code() == WordValue(b[..4]);
    assert b == b[..4] + b[4..8] + b[8..];
  }

  /** A hand-over: the receiver called and the message it is given. */
  datatype Handover = Handover(receiver: Ref, message: Message)

  /** `deliver()`: the message an image holds is given to the receiver it names. */
  function Deliver(image: seq<byte>): (h: Option<Handover>)
    ensures h.Some? <==> Decode(image).Some?
    ensures h.Some? ==> h.value.message == Decode(image).value && h.value.receiver == h.value.message.receiver
  {
    match Decode(image)
    case None => None
    case Some(m) => Some(Handover(m.receiver, m))
  }

  /** A sent message, once delivered, goes to its own receiver and no other, unchanged. */
  lemma DeliverToOwnReceiver(m: Message)
    ensures Deliver(Encode(m)) == Some(Handover(m.receiver, m))
  {
    DecodeEncode(m);
  }

  /** The hand-overs a run of delivered images makes, one per image, in order. */
  function Handovers(images: seq<seq<byte>>): (r: seq<Option<Handover>>)
    ensures |r| == |images|
    ensures forall i :: 0 <= i < |images| ==> r[i] == Deliver(images[i])
  {
    seq(|images|, i requires 0 <= i < |images| => Deliver(images[i]))
  }

  /**
   * Delivering the images of sent messages calls each message's own
   * receiver, once per image and in the order they are delivered.
   */
  lemma {:induction false} HandoversOfSent(ms: seq<Message>, images: seq<seq<byte>>)
    requires |images| == |ms| && forall i :: 0 <= i < |ms| ==> images[i] == Encode(ms[i])
    ensures forall i :: 0 <= i < |ms| ==> Handovers(images)[i] == Some(Handover(ms[i].receiver, ms[i]))
  {
    forall i | 0 <= i < |ms|
      ensures Handovers(images)[i] == Some(Handover(ms[i].receiver, ms[i]))
    {
      DeliverToOwnReceiver(ms[i]);
    }
  }

  /**
   * The untimed `send(q, r, e, data)`: when the corrected `enoughSpace`
   * admits the image, it is reserved, constructed in place and counted,
   * and becomes the last unread message; otherwise nothing changes.
   */
  method Send(q: Queue, receiver: Ref, event: Event, data: seq<byte>)
    requires q.RingValid()
    modifies q`write, q`queue, q`level, q`unread
    ensures q.RingValid()
    ensures var m := Encode(Message(receiver, event, data));
      if RingLayout.EnoughSpace(q.qs, old(q.read), old(q.write), |m|) then
        q.unread == old(q.unread) + [m] && q.level == old(q.level) + 1 &&
        q.write == End(q.qs, old(q.write), |m|) &&
        HEADER + |m| <= q.qs && q.queue == Enqueue(old(q.queue), q.qs, old(q.write), m)
      else
        q.unread == old(q.unread) && q.level == old(q.level) && q.write == old(q.write) && q.queue == old(q.queue)
  {
    var image := Encode(Message(receiver, event, data));
    var ok := q.EnoughSpace(|image|);
    if ok {
      SendAppends(q.queue, q.qs, q.read, q.write, q.unread, image);
      var address := q.Alloc(|image|);
      q.Construct(address, image);
      q.IncLevel(image);
    }
  }

  /**
   * The timed `send(q, r, e, data, delay, id)` at time `now`: a non-zero
   * `id` first cancels every delayed message carrying it; then the image
   * is placed as `PlaceTimed` says, with deadline `now + delay`.
   */
  method SendTimed(q: Queue, receiver: Ref, event: Event, data: seq<byte>, now: int, delay: int, id: bv32)
    requires q.TableValid()
    modifies q`writeTimeout, q`timeoutQueue, q`index
    ensures q.TableValid()
    ensures var c := AfterCancel(old(q.timeoutQueue), old(q.index), old(q.writeTimeout), id);
      Table(q.timeoutQueue, q.index, q.writeTimeout, 0) ==
        Placed(c.tq, c.idx, c.wt, Encode(Message(receiver, event, data)), now + delay, id)
  {
    ghost var c := AfterCancel(q.timeoutQueue, q.index, q.writeTimeout, id);
    var image := Encode(Message(receiver, event, data));
    CancelFirst(q, id);
    PlaceTimed(q, image, now + delay, id, c);
  }

  /** The start of the timed `send`: a non-zero `id` cancels the delayed messages carrying it. */
  method CancelFirst(q: Queue, id: bv32)
    requires q.TableValid()
    modifies q`writeTimeout, q`timeoutQueue, q`index
    ensures q.TableValid()
    ensures var c := AfterCancel(old(q.timeoutQueue), old(q.index), old(q.writeTimeout), id);
      q.timeoutQueue == c.tq && q.index == c.idx && q.writeTimeout == c.wt
  {
    if id != 0 {
      q.CancelTimeouts(id);
    } else {
      CancelZero(q.timeoutQueue, q.index, q.writeTimeout);
    }
  }

  /**
   * The rest of the timed `send`: when `enoughTimeoutSpace` admits the
   * image, it takes the first free slot at `writeTimeout` with its
   * deadline and id, is constructed there, and its slot's size is written
   * back, which makes it the last pending delayed message; otherwise
   * nothing changes.
   */
  method PlaceTimed(q: Queue, image: seq<byte>, deadline: int, id: bv32, ghost t: Table)
    requires q.TableValid() && 0 < |image|
    requires t.tq == q.timeoutQueue && t.idx == q.index && t.wt == q.writeTimeout
    modifies q`writeTimeout, q`timeoutQueue, q`index
    ensures q.TableValid()
    ensures Table(q.timeoutQueue, q.index, q.writeTimeout, 0) == Placed(t.tq, t.idx, t.wt, image, deadline, id)
  {
    var ok := q.EnoughTimeoutSpace(|image|);
    if ok {
      StoreTimed(q, image, deadline, id, t);
    }
  }

  /**
   * The admitted case of the timed `send`: the timed `alloc` takes the
   * first free slot, the constructor writes the image at `writeTimeout`
   * and the slot's size is written back.
   */
  method StoreTimed(q: Queue, image: seq<byte>, deadline: int, id: bv32, ghost t: Table)
    requires q.TableValid() && 0 < |image|
    requires t.tq == q.timeoutQueue && t.idx == q.index && t.wt == q.writeTimeout
    requires TimeoutTable.EnoughTimeoutSpace(t.idx, t.wt, |image|, q.tqs)
    modifies q`writeTimeout, q`timeoutQueue, q`index
    ensures q.TableValid()
    ensures Table(q.timeoutQueue, q.index, q.writeTimeout, 0) == Placed(t.tq, t.idx, t.wt, image, deadline, id)
  {
    ghost var idx' := t.idx[FirstFree(t.idx) := Slot(t.wt, |image|, id, deadline)];
    AllocAppends(t.tq, t.idx, t.wt, image, id, deadline);
    ModUnique(t.wt, 0x1_0000, 0, t.wt);
    ModUnique(|image|, 0x1_0000, 0, |image|);
    var found, address, slot, length := q.AllocTimed(|image|, deadline, id);
    q.ConstructTimed(address, image);
    q.WriteBackSize(slot, length);
    assert q.index == idx';
    assert q.timeoutQueue == Place(t.tq, t.wt, image);
    assert q.writeTimeout == t.wt + |image|;
  }
}
