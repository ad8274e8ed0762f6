/**
 * A hall-sensor push button: turns the raw events of the button driver
 * (pressed, released, long press, click) into BUTTON_EVENT messages
 * carrying the button's identifier, a gesture state and a hold counter.
 * A one-shot timer of 250 ms, armed after a release, closes a single or
 * double click; the timer is modelled by an `armed` flag and its expiry
 * by an explicit call.
 */
module ButtonFsm {
  import opened Ican
  import CanBus

  /** `Button::button_id_t`: the identifiers the node gives its three sensors. */
  const HALL1: bv8 := 10
  const HALL2: bv8 := 11
  const HALL3: bv8 := 12

  /** The events the button driver reports (`button_state_t`). */
  datatype Input = Press | Release | Long | Click

  /** The button's packed record and whether the multi-click timer is running. */
  datatype BtnState = BtnState(identifier: bv8, state: ButtonEvent, count: Counter, armed: bool)

  /** The `uint16_t` hold counter, as the two bytes the packed record stores, low byte first. */
  datatype Counter = Counter(lo: bv8, hi: bv8) {
    /** The counter's value. */
    function Value(): bv16 {
      (lo as bv16) | ((hi as bv16) << 8)
    }

    /** `count++`, byte by byte: a carry out of the low byte goes into the high one. */
    function Next(): Counter {
      if lo == 0xFF then Counter(0, hi + 1) else Counter(lo + 1, hi)
    }
  }

  const ZERO: Counter := Counter(0, 0)

  /** The byte-wise increment is the 16-bit one, wrapping past 0xFFFF. */
  lemma CounterNext(c: Counter)
    ensures c.Next().Value() == c.Value() + 1
  {
  }

  /** What handling one event leaves behind: the new record and the messages sent meanwhile. */
  datatype Reply = Reply(state: BtnState, out: seq<Out>)

  /** The four-byte payload: identifier, state, then the count in little-endian order. */
  function Payload(s: BtnState): (r: seq<bv8>)
    ensures |r| == 4 && r[0] == s.identifier && r[1] == s.state.Code()
  {
    [s.identifier, s.state.Code(), s.count.lo, s.count.hi]
  }

  /** The count goes out whole: its two bytes put back together give its value. */
  lemma PayloadCount(s: BtnState)
    ensures var r := Payload(s); (r[2] as bv16) | ((r[3] as bv16) << 8) == s.count.Value()
  {
  }

  /** A BUTTON_EVENT message reporting the record `s`. */
  function Event(s: BtnState): Out {
    Out(BUTTON_EVENT, Payload(s))
  }

  /** `dispatch`: one driver event. */
  function Step(s: BtnState, e: Input): Reply {
    match e
    case Press => PressStep(s)
    case Release => ReleaseStep(s)
    case Long | Click => HoldStep(s)
  }

  /** BUTTON_PRESSED: only a button at rest starts a gesture. */
  function PressStep(s: BtnState): Reply {
    if s.state == Released then
      var t := s.(state := Pressed, count := ZERO);
      Reply(t, [Event(t)])
    else Reply(s, [])
  }

  /** BUTTON_RELEASED: counts clicks while the timer runs, or ends a hold. */
  function ReleaseStep(s: BtnState): Reply {
    if s.state == Pressed then Reply(s.(state := Single, armed := true), [])
    else if s.state == Single then Reply(s.(state := Double, armed := true), [])
    else if s.state == Double then
      var t := s.(armed := false, state := Tripple);
      Reply(t.(state := Released), [Event(t)])
    else if s.state == Hold then
      var t := s.(state := Released);
      Reply(t, [Event(t)])
    else Reply(s, [])
  }

  /** BUTTON_PRESSED_LONG and BUTTON_CLICKED: a pressed or held button counts up. */
  function HoldStep(s: BtnState): Reply {
    if s.state == Pressed || s.state == Hold then
      var t := s.(state := Hold, count := s.count.Next());
      Reply(t, [Event(t)])
    else Reply(s, [])
  }

  /** `send_multi`: the multi-click timer expired; it reports the gesture and returns to rest. */
  function Expire(s: BtnState): Reply
    requires s.armed
  {
    Reply(s.(state := Released, armed := false), [Event(s)])
  }

  /** The record and the sends after a sequence of driver events. */
  function Run(s: BtnState, es: seq<Input>): Reply
    decreases |es|
  {
    if es == [] then Reply(s, [])
    else
      var a := Step(s, es[0]);
      var rest := Run(a.state, es[1..]);
      Reply(rest.state, a.out + rest.out)
  }

  /**
   * The record is consistent: the timer runs exactly in the single and
   * double states, and the triple state is never left behind.
   */
  predicate Consistent(s: BtnState) {
    (s.armed <==> s.state == Single || s.state == Double) && s.state != Tripple
  }

  // ---------------------------------------------------------------------
  // Properties
  // ---------------------------------------------------------------------

  /** Every driver event keeps the record consistent and sends at most one BUTTON_EVENT for this button. */
  lemma StepConsistent(s: BtnState, e: Input)
    requires Consistent(s)
    ensures var r := Step(s, e);
      Consistent(r.state) && r.state.identifier == s.identifier && |r.out| <= 1 &&
      forall o :: o in r.out ==> o.msg == BUTTON_EVENT && o.data[0] == s.identifier
  {
  }

  /** The timer reports a single or a double click, and only then. */
  lemma ExpireReportsClick(s: BtnState)
    requires Consistent(s) && s.armed
    ensures var r := Expire(s);
      Consistent(r.state) && r.state.state == Released &&
      r.out == [Event(s)] && (s.state == Single || s.state == Double)
  {
  }

  /** A press is reported only from rest, with the count restarted; otherwise it is ignored. */
  lemma PressOnlyFromRest(s: BtnState)
    ensures s.state == Released ==>
      Step(s, Press).out == [Out(BUTTON_EVENT, [s.identifier, 1, 0, 0])] &&
      Step(s, Press).state == s.(state := Pressed, count := ZERO)
    ensures s.state != Released ==> Step(s, Press) == Reply(s, [])
  {
  }

  /** A long press or click while held counts up (in 16 bits) and reports HOLD; elsewhere it is ignored. */
  lemma HoldCounts(s: BtnState, e: Input)
    requires e == Long || e == Click
    ensures var r := Step(s, e);
      (s.state == Pressed || s.state == Hold ==>
         r.state.state == Hold && r.state.identifier == s.identifier && r.state.armed == s.armed &&
         r.state.count.Value() == s.count.Value() + 1 && r.out == [Event(r.state)]) &&
      (s.state != Pressed && s.state != Hold ==> r == Reply(s, []))
  {
    CounterNext(s.count);
  }

  /** The hold counter is a `uint16_t`: the 65536th count reads 0 again. */
  lemma HoldCountWraps(s: BtnState)
    requires s.state == Hold && s.count == Counter(0xFF, 0xFF)
    ensures Step(s, Long).state.count == ZERO
    ensures Step(s, Long).out == [Out(BUTTON_EVENT, [s.identifier, 2, 0, 0])]
  {
  }

  /**
   * A release moves PRESSED to SINGLE and SINGLE to DOUBLE silently, with
   * the timer (re)started; it ends a double click by reporting TRIPPLE
   * (5) and a hold by reporting RELEASED (0), both with the timer stopped
   * and the button at rest; at rest it does nothing.
   */
  lemma ReleaseTransitions(s: BtnState)
    ensures s.state == Pressed ==> Step(s, Release) == Reply(s.(state := Single, armed := true), [])
    ensures s.state == Single ==> Step(s, Release) == Reply(s.(state := Double, armed := true), [])
    ensures s.state == Double ==>
      Step(s, Release) == Reply(s.(state := Released, armed := false),
                                [Out(BUTTON_EVENT, [s.identifier, 5, s.count.lo, s.count.hi])])
    ensures s.state == Hold ==>
      Step(s, Release) == Reply(s.(state := Released), [Out(BUTTON_EVENT, [s.identifier, 0, s.count.lo, s.count.hi])])
    ensures s.state == Released ==> Step(s, Release) == Reply(s, [])
  {
  }

  /** The record after one event, spelled out, for composing the gestures below. */
  lemma {:induction false} RunCons(s: BtnState, e: Input, es: seq<Input>)
    ensures Run(s, [e] + es).state == Run(Step(s, e).state, es).state
    ensures Run(s, [e] + es).out == Step(s, e).out + Run(Step(s, e).state, es).out
  {
    assert ([e] + es)[0] == e;
    assert ([e] + es)[1..] == es;
  }

  /** A sequence of events keeps the record consistent. */
  lemma {:induction false} RunConsistent(s: BtnState, es: seq<Input>)
    requires Consistent(s)
    ensures Consistent(Run(s, es).state) && Run(s, es).state.identifier == s.identifier
    decreases |es|
  {
    if es != [] {
      StepConsistent(s, es[0]);
      RunConsistent(Step(s, es[0]).state, es[1..]);
    }
  }

  /** Press, release and the timer's expiry: a PRESSED report, then SINGLE. */
  lemma SingleClick(s: BtnState)
    requires Consistent(s) && s.state == Released
    ensures var r := Run(s, [Press, Release]);
      r.state.armed && r.state.state == Single &&
      r.out == [Out(BUTTON_EVENT, [s.identifier, 1, 0, 0])] &&
      Expire(r.state).out == [Out(BUTTON_EVENT, [s.identifier, 3, 0, 0])]
  {
    RunCons(s, Press, [Release]);
    var p := Step(s, Press).state;
    RunCons(p, Release, []);
  }

  /**
   * Two clicks within the timer: the second press goes unreported, and
   * the timer's expiry reports DOUBLE.
   */
  lemma DoubleClick(s: BtnState)
    requires Consistent(s) && s.state == Released
    ensures var r := Run(s, [Press, Release, Press, Release]);
      r.state.armed && r.state.state == Double &&
      r.out == [Out(BUTTON_EVENT, [s.identifier, 1, 0, 0])] &&
      Expire(r.state).out == [Out(BUTTON_EVENT, [s.identifier, 4, 0, 0])]
  {
    var s1 := Step(s, Press).state;
    var s2 := Step(s1, Release).state;
    var s3 := Step(s2, Press).state;
    RunCons(s, Press, [Release, Press, Release]);
    RunCons(s1, Release, [Press, Release]);
    RunCons(s2, Press, [Release]);
    RunCons(s3, Release, []);
  }

  /** Three clicks within the timer: TRIPPLE is reported at once, the timer is stopped and the button is at rest. */
  lemma TripleClick(s: BtnState)
    requires Consistent(s) && s.state == Released
    ensures var r := Run(s, [Press, Release, Press, Release, Press, Release]);
      !r.state.armed && r.state.state == Released &&
      r.out == [Out(BUTTON_EVENT, [s.identifier, 1, 0, 0]), Out(BUTTON_EVENT, [s.identifier, 5, 0, 0])]
  {
    var s1 := s.(state := Pressed, count := ZERO);
    var s2 := s1.(state := Single, armed := true);
    var s4 := s2.(state := Double);
    assert Step(s, Press) == Reply(s1, [Out(BUTTON_EVENT, [s.identifier, 1, 0, 0])]);
    assert Step(s1, Release) == Reply(s2, []);
    assert Step(s2, Press) == Reply(s2, []);
    assert Step(s2, Release) == Reply(s4, []);
    assert Step(s4, Press) == Reply(s4, []);
    var t := s4.(armed := false, state := Released);
    assert Step(s4, Release) == Reply(t, [Out(BUTTON_EVENT, [s.identifier, 5, 0, 0])]);
    RunCons(s4, Release, []);
    RunCons(s4, Press, [Release]);
    RunCons(s2, Release, [Press, Release]);
    RunCons(s2, Press, [Release, Press, Release]);
    RunCons(s1, Release, [Press, Release, Press, Release]);
    RunCons(s, Press, [Release, Press, Release, Press, Release]);
  }

  /** Press, two long presses and release: PRESSED, HOLD 1, HOLD 2, then RELEASED with count 2. */
  lemma PressAndHold(s: BtnState)
    requires Consistent(s) && s.state == Released
    ensures var r := Run(s, [Press, Long, Long, Release]);
      r.state.state == Released && !r.state.armed && r.state.count == Counter(2, 0) &&
      r.out == [Out(BUTTON_EVENT, [s.identifier, 1, 0, 0]), Out(BUTTON_EVENT, [s.identifier, 2, 1, 0]),
                Out(BUTTON_EVENT, [s.identifier, 2, 2, 0]), Out(BUTTON_EVENT, [s.identifier, 0, 2, 0])]
  {
    var s1 := Step(s, Press).state;
    var s2 := Step(s1, Long).state;
    var s3 := Step(s2, Long).state;
    RunCons(s, Press, [Long, Long, Release]);
    RunCons(s1, Long, [Long, Release]);
    RunCons(s2, Long, [Release]);
    RunCons(s3, Release, []);
  }

  /** While the bus is silenced for an update, no button event reaches the wire. */
  lemma SilencedButtonsSendNothing(id: bv8, typ: bv8, s: BtnState, es: seq<Input>)
    ensures CanBus.Transmit(id, typ, true, Run(s, es).out) == []
  {
    RunOnlyEvents(s, es);
    CanBus.TransmitAllSilenced(id, typ, Run(s, es).out);
  }

  /** Everything a button sends is a BUTTON_EVENT. */
  lemma {:induction false} RunOnlyEvents(s: BtnState, es: seq<Input>)
    ensures forall i :: 0 <= i < |Run(s, es).out| ==> Run(s, es).out[i].msg == BUTTON_EVENT
    decreases |es|
  {
    if es != [] {
      RunOnlyEvents(Step(s, es[0]).state, es[1..]);
    }
  }

  // ---------------------------------------------------------------------
  // The button object
  // ---------------------------------------------------------------------

  class Button {
    var identifier: bv8
    var state: ButtonEvent
    var count: Counter
    /** Whether the one-shot multi-click timer is running. */
    var armed: bool
    /** The transport every report goes through. */
    const can: CanBus.Can

    /** A statically allocated button: its record is zero, so it rests with identifier 0. */
    constructor (can: CanBus.Can)
      ensures this.can == can
      ensures identifier == 0 && state == Released && count == ZERO && !armed
    {
      this.can := can;
      identifier := 0;
      state := Released;
      count := ZERO;
      armed := false;
    }

    function State(): BtnState
      reads this
    {
      BtnState(identifier, state, count, armed)
    }

    /** `init`: an unconnected pin leaves the button untouched; otherwise it takes its identifier and rests. */
    method Init(connected: bool, id: bv8)
      modifies this
      ensures connected ==> State() == old(State()).(identifier := id, state := Released, armed := false)
      ensures !connected ==> State() == old(State())
    {
      if !connected {
        return;
      }
      identifier := id;
      state := Released;
      armed := false;
    }

    /** Sends the current record as a BUTTON_EVENT. */
    method Report()
      requires can.Valid()
      modifies can
      ensures can.Valid() && can.Repr == old(can.Repr)
      ensures can.log == old(can.log) + CanBus.Transmit(can.id, can.typ, can.updateSilence, [Event(State())])
      ensures can.enableFilter == old(can.enableFilter) && can.updateSilence == old(can.updateSilence)
      ensures can.id == old(can.id) && can.typ == old(can.typ) && can.chain == old(can.chain)
      ensures can.received == old(can.received)
    {
      can.Send(BUTTON_EVENT, [identifier, state.Code(), count.lo, count.hi]);
    }

    /** `dispatch`: one driver event, reported through the transport. */
    method Dispatch(e: Input)
      requires can.Valid() && this !in can.Repr
      modifies this, can
      ensures State() == Step(old(State()), e).state
      ensures can.Valid() && can.Repr == old(can.Repr)
      ensures can.log == old(can.log) + CanBus.Transmit(can.id, can.typ, can.updateSilence, Step(old(State()), e).out)
      ensures can.enableFilter == old(can.enableFilter) && can.updateSilence == old(can.updateSilence)
      ensures can.id == old(can.id) && can.typ == old(can.typ) && can.chain == old(can.chain)
      ensures can.received == old(can.received)
    {
      match e
      case Press => OnPressed();
      case Release => OnReleased();
      case Long => OnHeld();
      case Click => OnHeld();
    }

    /** BUTTON_PRESSED, as `PressStep` says. */
    method OnPressed()
      requires can.Valid() && this !in can.Repr
      modifies this, can
      ensures State() == PressStep(old(State())).state
      ensures can.Valid() && can.Repr == old(can.Repr)
      ensures can.log == old(can.log) + CanBus.Transmit(can.id, can.typ, can.updateSilence, PressStep(old(State())).out)
      ensures can.enableFilter == old(can.enableFilter) && can.updateSilence == old(can.updateSilence)
      ensures can.id == old(can.id) && can.typ == old(can.typ) && can.chain == old(can.chain)
      ensures can.received == old(can.received)
    {
      if state == Released {
        state := Pressed;
        count := ZERO;
        Report();
      }
    }

    /** BUTTON_RELEASED, as `ReleaseStep` says. */
    method OnReleased()
      requires can.Valid() && this !in can.Repr
      modifies this, can
      ensures State() == ReleaseStep(old(State())).state
      ensures can.Valid() && can.Repr == old(can.Repr)
      ensures can.log == old(can.log) + CanBus.Transmit(can.id, can.typ, can.updateSilence, ReleaseStep(old(State())).out)
      ensures can.enableFilter == old(can.enableFilter) && can.updateSilence == old(can.updateSilence)
      ensures can.id == old(can.id) && can.typ == old(can.typ) && can.chain == old(can.chain)
      ensures can.received == old(can.received)
    {
      if state == Pressed {
        state := Single;
        armed := true;
      } else if state == Single {
        state := Double;
        armed := true;
      } else if state == Double {
        armed := false;
        state := Tripple;
        Report();
        state := Released;
      } else if state == Hold {
        state := Released;
        Report();
      }
    }

    /** BUTTON_PRESSED_LONG and BUTTON_CLICKED, as `HoldStep` says. */
    method OnHeld()
      requires can.Valid() && this !in can.Repr
      modifies this, can
      ensures State() == HoldStep(old(State())).state
      ensures can.Valid() && can.Repr == old(can.Repr)
      ensures can.log == old(can.log) + CanBus.Transmit(can.id, can.typ, can.updateSilence, HoldStep(old(State())).out)
      ensures can.enableFilter == old(can.enableFilter) && can.updateSilence == old(can.updateSilence)
      ensures can.id == old(can.id) && can.typ == old(can.typ) && can.chain == old(can.chain)
      ensures can.received == old(can.received)
    {
      if state == Pressed || state == Hold {
        state := Hold;
        count := count.Next();
        Report();
      }
    }

    /** `send_multi`: the timer expired; report the gesture and rest. */
    method SendMulti()
      requires can.Valid() && this !in can.Repr && armed
      modifies this, can
      ensures State() == Expire(old(State())).state
      ensures can.Valid() && can.Repr == old(can.Repr)
      ensures can.log == old(can.log) + CanBus.Transmit(can.id, can.typ, can.updateSilence, Expire(old(State())).out)
      ensures can.enableFilter == old(can.enableFilter) && can.updateSilence == old(can.updateSilence)
      ensures can.id == old(can.id) && can.typ == old(can.typ) && can.chain == old(can.chain)
      ensures can.received == old(can.received)
    {
      Report();
      state := Released;
      armed := false;
    }
  }
}
