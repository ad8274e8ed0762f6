/**
 * The bus transport: the receive filter, the ordered dispatcher chain in
 * which the first handler to claim a frame stops the walk, the
 * UPDATE_SILENCE latch and the silence gate on symbolic sends, the
 * identifier composed for those sends, the rx/tx counters and the alert
 * report. Transmitted frames are an appended log.
 */
module CanBus {
  import opened Ican
  import DeviceIdentity
  import Updater
  import RelaisOutput

  /** A transmitted frame: identifier, payload and remote-request flag. */
  datatype TxFrame = TxFrame(id: bv32, data: seq<bv8>, request: bool)

  /** The 64-bit counters wrap at 2^64. */
  const TWO_64: nat := 0x1_0000_0000_0000_0000

  function Inc64(x: nat): (r: nat)
    requires x < TWO_64
    ensures r < TWO_64
  {
    if x + 1 == TWO_64 then 0 else x + 1
  }

  /** A 64-bit counter after `n` increments from 0. */
  function Count64(n: nat): (r: nat)
    ensures r < TWO_64
  {
    if n == 0 then 0 else Inc64(Count64(n - 1))
  }

  /** Incrementing wraps to 0 exactly at 2^64: `n` increments leave the counter at `n` mod 2^64. */
  lemma {:induction false} Count64IsMod(n: nat)
    ensures Count64(n) == n % TWO_64
  {
    if n > 0 {
      Count64IsMod(n - 1);
    }
  }

  // ---------------------------------------------------------------------
  // Receive filter and send identifier
  // ---------------------------------------------------------------------

  /** Whether the receive task dispatches a frame with identifier `fid`. */
  predicate Accepts(fid: bv32, enableFilter: bool, id: bv8, typ: bv8) {
    !enableFilter || IdCompare(fid, 0) || (IdCompare(fid, id) && TypeCompare(fid, typ))
  }

  /** With filtering on, a frame is taken exactly when it is an NG broadcast or addressed to this id and type. */
  lemma AcceptsExactly(fid: bv32, enableFilter: bool, id: bv8, typ: bv8)
    ensures !enableFilter ==> Accepts(fid, enableFilter, id, typ)
    ensures enableFilter ==> (Accepts(fid, enableFilter, id, typ) <==>
      IsNg(fid) && (GetId(fid) == 0 || (GetId(fid) == id as bv32 && GetType(fid) == typ as bv32)))
    ensures enableFilter && !IsNg(fid) ==> !Accepts(fid, enableFilter, id, typ)
  {
  }

  /** A node whose type does not fit the 6-bit field only ever takes broadcasts when filtering. */
  lemma WideTypeTakesOnlyBroadcasts(fid: bv32, id: bv8, typ: bv8)
    requires typ >= 64
    ensures Accepts(fid, true, id, typ) <==> IsNg(fid) && GetId(fid) == 0
  {
  }

  /** The identifier of a symbolic send: NG set, the node id, the node type and the message id. */
  function Compose(id: bv8, typ: bv8, m: bv8): bv32 {
    ID_NG_MASK | ((id as bv32) << 8) | ((typ as bv32) << 16) | (m as bv32)
  }

  /**
   * The receiving side reads back what a symbolic send composed: NG set,
   * the message id and the node id; the type only when it fits its six
   * bits, its top two bits landing in the group.
   */
  lemma ComposeFields(id: bv8, typ: bv8, m: bv8)
    ensures var r := Compose(id, typ, m);
      IsNg(r) && r < 0x2000_0000 && GetMsg(r) == m && GetId(r) == id as bv32 &&
      (GetType(r) == typ as bv32 <==> typ < 64) && GetGroup(r) == (typ as bv32) >> 6
  {
  }

  /** A symbolic send is suppressed while silenced unless its message id is at most FLASH_VERIFY. */
  predicate Silenced(silence: bool, m: bv8) {
    silence && m > FLASH_VERIFY
  }

  /** The frames that a sequence of symbolic sends puts on the bus. */
  function Transmit(id: bv8, typ: bv8, silence: bool, outs: seq<Out>): (r: seq<TxFrame>)
    ensures |r| <= |outs|
    decreases |outs|
  {
    if outs == [] then []
    else
      var first := if Silenced(silence, outs[0].msg) then []
                   else [TxFrame(Compose(id, typ, outs[0].msg), outs[0].data, false)];
      first + Transmit(id, typ, silence, outs[1..])
  }

  lemma {:induction false} TransmitAppend(id: bv8, typ: bv8, silence: bool, a: seq<Out>, b: seq<Out>)
    ensures Transmit(id, typ, silence, a + b) == Transmit(id, typ, silence, a) + Transmit(id, typ, silence, b)
    decreases |a|
  {
    if a == [] {
      assert a + b == b;
    } else {
      assert (a + b)[0] == a[0];
      assert (a + b)[1..] == a[1..] + b;
      TransmitAppend(id, typ, silence, a[1..], b);
    }
  }

  /** One more send appends its frames to those of the sends before it. */
  lemma TransmitSnoc(id: bv8, typ: bv8, silence: bool, outs: seq<Out>, i: nat)
    requires i < |outs|
    ensures Transmit(id, typ, silence, outs[..i + 1]) ==
      Transmit(id, typ, silence, outs[..i]) + Transmit(id, typ, silence, [Out(outs[i].msg, outs[i].data)])
  {
    assert outs[..i + 1] == outs[..i] + [outs[i]];
    TransmitAppend(id, typ, silence, outs[..i], [outs[i]]);
  }

  /** Unsilenced, every symbolic send goes out, in order, with its payload and the composed identifier. */
  lemma {:induction false} TransmitUnsilenced(id: bv8, typ: bv8, outs: seq<Out>)
    ensures |Transmit(id, typ, false, outs)| == |outs|
    ensures forall i :: 0 <= i < |outs| ==>
      Transmit(id, typ, false, outs)[i] == TxFrame(Compose(id, typ, outs[i].msg), outs[i].data, false)
    decreases |outs|
  {
    if outs != [] {
      TransmitUnsilenced(id, typ, outs[1..]);
    }
  }

  /** Silenced, a run of sends whose message ids are all above FLASH_VERIFY puts nothing on the wire. */
  lemma {:induction false} TransmitAllSilenced(id: bv8, typ: bv8, outs: seq<Out>)
    requires forall i :: 0 <= i < |outs| ==> outs[i].msg > FLASH_VERIFY
    ensures Transmit(id, typ, true, outs) == []
    decreases |outs|
  {
    if outs != [] {
      TransmitAllSilenced(id, typ, outs[1..]);
    }
  }

  /** Silenced, exactly the sends with message id at most FLASH_VERIFY go out. */
  lemma {:induction false} TransmitSilenced(id: bv8, typ: bv8, outs: seq<Out>)
    ensures forall o :: o in outs && o.msg <= FLASH_VERIFY ==>
      TxFrame(Compose(id, typ, o.msg), o.data, false) in Transmit(id, typ, true, outs)
    ensures forall t :: t in Transmit(id, typ, true, outs) ==> GetMsg(t.id) <= FLASH_VERIFY
    decreases |outs|
  {
    if outs != [] {
      TransmitSilenced(id, typ, outs[1..]);
      ComposeFields(id, typ, outs[0].msg);
      forall o | o in outs && o.msg <= FLASH_VERIFY
        ensures TxFrame(Compose(id, typ, o.msg), o.data, false) in Transmit(id, typ, true, outs)
      {
        if o != outs[0] {
          assert o in outs[1..];
        }
      }
    }
  }

  /** The alert report: component CAN, three zero bytes, then the alert word least significant byte first. */
  function AlertReport(alerts: bv32): (r: seq<bv8>)
    ensures |r| == 8
    ensures r[0] == COMPONENT_CAN && r[1] == 0 && r[2] == 0 && r[3] == 0
    ensures FromLe32(r[4..]) == alerts
  {
    Le32RoundTrip(alerts, Le32(alerts));
    [COMPONENT_CAN, 0, 0, 0] + Le32(alerts)
  }

  // ---------------------------------------------------------------------
  // The dispatcher chain as a function
  // ---------------------------------------------------------------------

  /** The state of one registered handler, with what it holds fixed. */
  datatype Part =
    | UpdatePart(upd: Updater.UpdState, shaLen: nat)
    | DevicePart(dev: DeviceIdentity.DeviceState, ident: DeviceIdentity.Identity)
    | RelaisPart(levels: seq<bool>)
  {
    predicate Valid() {
      RelaisPart? ==> |levels| == RelaisOutput.CHANNELS
    }

    /** Whether this handler claims message id `m`; no handler's answer depends on its state. */
    predicate Claims(m: bv8) {
      match this
      case UpdatePart(_, _) => Updater.Claims(m)
      case DevicePart(_, _) => DeviceIdentity.Claims(m)
      case RelaisPart(_) => m == RELAIS
    }

    /** The same handler kind with the same fixed parts. */
    predicate SameKind(q: Part) {
      match this
      case UpdatePart(_, shaLen) => q.UpdatePart? && q.shaLen == shaLen
      case DevicePart(_, ident) => q.DevicePart? && q.ident == ident
      case RelaisPart(_) => q.RelaisPart?
    }
  }

  /** One handler offered one frame. */
  function Offer(p: Part, f: Frame, env: DeviceIdentity.Env, sha: Updater.Hash): (r: Reaction<Part>)
    requires p.Valid() && f.Valid()
    ensures r.state.Valid() && p.SameKind(r.state)
    ensures r.claimed <==> p.Claims(f.Msg())
  {
    match p
    case UpdatePart(s, shaLen) =>
      Updater.ClaimsExactly(s, sha, shaLen, f);
      var a := Updater.Step(s, sha, shaLen, f);
      Reaction(UpdatePart(a.state, shaLen), a.out, a.claimed)
    case DevicePart(s, k) =>
      DeviceIdentity.ClaimsExactly(s, k, env, f);
      var a := DeviceIdentity.Step(s, k, env, f);
      Reaction(DevicePart(a.state, k), a.out, a.claimed)
    case RelaisPart(levels) =>
      Reaction(RelaisPart(RelaisOutput.Apply(levels, f)), [], f.Msg() == RELAIS)
  }

  predicate AllValid(ps: seq<Part>) {
    forall k :: 0 <= k < |ps| ==> ps[k].Valid()
  }

  /** `dispatch`: offer the frame to each handler in turn until one claims it. */
  function ChainStep(ps: seq<Part>, f: Frame, env: DeviceIdentity.Env, sha: Updater.Hash): (r: Reaction<seq<Part>>)
    requires AllValid(ps) && f.Valid()
    ensures |r.state| == |ps|
    decreases |ps|
  {
    if ps == [] then Reaction([], [], false)
    else
      var a := Offer(ps[0], f, env, sha);
      if a.claimed then Reaction([a.state] + ps[1..], a.out, true)
      else
        var rest := ChainStep(ps[1..], f, env, sha);
        Reaction([a.state] + rest.state, a.out + rest.out, rest.claimed)
  }

  /** The position of the first handler that claims `m`, or the chain length when none does. */
  function FirstClaim(ps: seq<Part>, m: bv8): (n: nat)
    ensures n <= |ps|
    ensures forall k :: 0 <= k < n ==> !ps[k].Claims(m)
    ensures n < |ps| ==> ps[n].Claims(m)
    decreases |ps|
  {
    if ps == [] then 0
    else if ps[0].Claims(m) then 0
    else 1 + FirstClaim(ps[1..], m)
  }

  /** Each handler's answer to the frame in its current state, in chain order. */
  function Offers(ps: seq<Part>, f: Frame, env: DeviceIdentity.Env, sha: Updater.Hash): (rs: seq<Reaction<Part>>)
    requires AllValid(ps) && f.Valid()
    ensures |rs| == |ps|
    ensures forall k :: 0 <= k < |ps| ==> rs[k] == Offer(ps[k], f, env, sha)
  {
    seq(|ps|, k requires 0 <= k < |ps| => Offer(ps[k], f, env, sha))
  }

  /** `rs` are the answers of the handlers in `ps` to the frame. */
  predicate AnswersOf(ps: seq<Part>, rs: seq<Reaction<Part>>, f: Frame, env: DeviceIdentity.Env, sha: Updater.Hash)
    requires AllValid(ps) && f.Valid()
  {
    |rs| == |ps| && forall k {:trigger Offer(ps[k], f, env, sha)} :: 0 <= k < |ps| ==> rs[k] == Offer(ps[k], f, env, sha)
  }

  /**
   * The walk over the chain `ps`, given the answers `rs` its handlers
   * would give: the first that claims stops it. A handler's answer depends
   * on its own state alone, so `ChainStep` is this walk over `Offers`.
   */
  function Chain(ps: seq<Part>, rs: seq<Reaction<Part>>): (r: Reaction<seq<Part>>)
    requires |rs| == |ps|
    ensures |r.state| == |ps|
    decreases |ps|
  {
    if ps == [] then Reaction([], [], false)
    else if rs[0].claimed then Reaction([rs[0].state] + ps[1..], rs[0].out, true)
    else
      var rest := Chain(ps[1..], rs[1..]);
      Reaction([rs[0].state] + rest.state, rs[0].out + rest.out, rest.claimed)
  }

  lemma {:induction false} ChainStepIsChain(ps: seq<Part>, f: Frame, env: DeviceIdentity.Env, sha: Updater.Hash)
    requires AllValid(ps) && f.Valid()
    ensures ChainStep(ps, f, env, sha) == Chain(ps, Offers(ps, f, env, sha))
    decreases |ps|
  {
    if ps != [] {
      var rs := Offers(ps, f, env, sha);
      assert AllValid(ps[1..]);
      ChainStepIsChain(ps[1..], f, env, sha);
      assert Offers(ps[1..], f, env, sha) == rs[1..];
    }
  }

  /** The position of the first answer that claims the frame, or the number of answers when none does. */
  function FirstClaimed(rs: seq<Reaction<Part>>): (n: nat)
    ensures n <= |rs|
    ensures forall k :: 0 <= k < n ==> !rs[k].claimed
    ensures n < |rs| ==> rs[n].claimed
    decreases |rs|
  {
    if rs == [] then 0
    else if rs[0].claimed then 0
    else 1 + FirstClaimed(rs[1..])
  }

  /** Answers that claim exactly when their handlers claim `m` stop the walk where `FirstClaim` says. */
  lemma FirstClaimedIsFirstClaim(ps: seq<Part>, rs: seq<Reaction<Part>>, m: bv8)
    requires |rs| == |ps| && forall k :: 0 <= k < |ps| ==> (rs[k].claimed <==> ps[k].Claims(m))
    ensures FirstClaimed(rs) == FirstClaim(ps, m)
  {
  }

  /** The sends of the first `n` answers, in chain order. */
  function OfferedOuts(rs: seq<Reaction<Part>>, n: nat): seq<Out>
    requires n <= |rs|
  {
    if n == 0 then [] else OfferedOuts(rs, n - 1) + rs[n - 1].out
  }

  lemma {:induction false} OfferedOutsShift(rs: seq<Reaction<Part>>, n: nat)
    requires n < |rs|
    ensures OfferedOuts(rs, n + 1) == rs[0].out + OfferedOuts(rs[1..], n)
    decreases n
  {
    if n > 0 {
      var j := n - 1;
      OfferedOutsShift(rs, j);
      assert OfferedOuts(rs, n + 1) == OfferedOuts(rs, j + 1) + rs[n].out;
      assert OfferedOuts(rs[1..], n) == OfferedOuts(rs[1..], j) + rs[1..][j].out;
    }
  }

  /** The chain's states once the first `n` handlers have taken their answers' states. */
  function Advanced(ps: seq<Part>, rs: seq<Reaction<Part>>, n: nat): (r: seq<Part>)
    requires |rs| == |ps| && n <= |ps|
    ensures |r| == |ps|
  {
    if n == 0 then ps else Advanced(ps, rs, n - 1)[n - 1 := rs[n - 1].state]
  }

  lemma {:induction false} AdvancedIndex(ps: seq<Part>, rs: seq<Reaction<Part>>, n: nat)
    requires |rs| == |ps| && n <= |ps|
    ensures forall k :: 0 <= k < |ps| ==> Advanced(ps, rs, n)[k] == if k < n then rs[k].state else ps[k]
    decreases n
  {
    if n > 0 {
      AdvancedIndex(ps, rs, n - 1);
    }
  }

  lemma AdvancedShift(ps: seq<Part>, rs: seq<Reaction<Part>>, n: nat)
    requires |rs| == |ps| && n < |ps|
    ensures Advanced(ps, rs, n + 1) == [rs[0].state] + Advanced(ps[1..], rs[1..], n)
  {
    AdvancedIndex(ps, rs, n + 1);
    AdvancedIndex(ps[1..], rs[1..], n);
    var l := Advanced(ps, rs, n + 1);
    var r := [rs[0].state] + Advanced(ps[1..], rs[1..], n);
    forall k | 0 <= k < |ps|
      ensures l[k] == r[k]
    {
      if k > 0 {
        assert ps[1..][k - 1] == ps[k] && rs[1..][k - 1] == rs[k];
      }
    }
  }

  /** How many handlers see the frame when the first claimant is at position `n`. */
  function Reached(n: nat, len: nat): nat {
    if n < len then n + 1 else n
  }

  /**
   * The walk over given answers, first claim wins: it claims exactly when
   * some answer claims; the handlers up to and including the first
   * claimant take their answers' states, the rest keep theirs, and the
   * sends are those of the reached answers in chain order.
   */
  lemma {:induction false} ChainFirstClaimWins(ps: seq<Part>, rs: seq<Reaction<Part>>)
    requires |rs| == |ps|
    ensures var r := Chain(ps, rs);
      var n := Reached(FirstClaimed(rs), |ps|);
      (r.claimed <==> FirstClaimed(rs) < |ps|) &&
      r.state == Advanced(ps, rs, n) &&
      r.out == OfferedOuts(rs, n)
    decreases |ps|
  {
    if ps != [] {
      if rs[0].claimed {
        AdvancedShift(ps, rs, 0);
        OfferedOutsShift(rs, 0);
      } else {
        ChainFirstClaimWins(ps[1..], rs[1..]);
        var m := Reached(FirstClaimed(rs[1..]), |ps| - 1);
        assert Reached(FirstClaimed(rs), |ps|) == m + 1;
        AdvancedShift(ps, rs, m);
        OfferedOutsShift(rs, m);
      }
    }
  }

  /**
   * The chain, first claim wins: the walk claims the frame exactly when
   * some handler claims it; every handler up to and including the first
   * claimant is offered the frame, the ones after it keep their state, and
   * the sends are those of the offered handlers in chain order.
   */
  lemma ChainStepFirstClaimWins(ps: seq<Part>, f: Frame, env: DeviceIdentity.Env, sha: Updater.Hash)
    requires AllValid(ps) && f.Valid()
    ensures var r := ChainStep(ps, f, env, sha);
      var rs := Offers(ps, f, env, sha);
      var n := FirstClaim(ps, f.Msg());
      (r.claimed <==> n < |ps|) &&
      (r.claimed <==> exists k :: 0 <= k < |ps| && ps[k].Claims(f.Msg())) &&
      r.state == Advanced(ps, rs, Reached(n, |ps|)) &&
      r.out == OfferedOuts(rs, Reached(n, |ps|))
  {
    var rs := Offers(ps, f, env, sha);
    ChainStepIsChain(ps, f, env, sha);
    FirstClaimedIsFirstClaim(ps, rs, f.Msg());
    ChainFirstClaimWins(ps, rs);
    var n := FirstClaim(ps, f.Msg());
    if n < |ps| {
      assert ps[n].Claims(f.Msg());
    }
  }

  /** Handler by handler: those up to the first claimant are offered the frame, the rest keep their state. */
  lemma ChainStepStates(ps: seq<Part>, f: Frame, env: DeviceIdentity.Env, sha: Updater.Hash)
    requires AllValid(ps) && f.Valid()
    ensures var r := ChainStep(ps, f, env, sha);
      var n := FirstClaim(ps, f.Msg());
      forall k :: 0 <= k < |ps| ==> r.state[k] == if k <= n then Offer(ps[k], f, env, sha).state else ps[k]
  {
    ChainStepFirstClaimWins(ps, f, env, sha);
    AdvancedIndex(ps, Offers(ps, f, env, sha), Reached(FirstClaim(ps, f.Msg()), |ps|));
  }

  /** An empty chain claims nothing and sends nothing. */
  lemma EmptyChainClaimsNothing(f: Frame, env: DeviceIdentity.Env, sha: Updater.Hash)
    requires f.Valid()
    ensures ChainStep([], f, env, sha) == Reaction([], [], false)
  {
  }

  /**
   * A handler offered a frame it does not claim keeps its state and sends
   * nothing, except for REQUEST_PARAMETER, which the identity handler
   * answers without claiming it.
   */
  lemma OfferUnclaimedKeeps(p: Part, f: Frame, env: DeviceIdentity.Env, sha: Updater.Hash)
    requires p.Valid() && f.Valid() && !p.Claims(f.Msg()) && f.Msg() != REQUEST_PARAMETER
    ensures Offer(p, f, env, sha).state == p && Offer(p, f, env, sha).out == []
  {
  }

  /** The chain claims a frame exactly when some handler in it does. */
  lemma ChainStepClaimed(ps: seq<Part>, f: Frame, env: DeviceIdentity.Env, sha: Updater.Hash)
    requires AllValid(ps) && f.Valid()
    ensures ChainStep(ps, f, env, sha).claimed <==> FirstClaim(ps, f.Msg()) < |ps|
  {
    ChainStepFirstClaimWins(ps, f, env, sha);
  }

  /**
   * In the node's chain (updater, identity handler, relay), relay
   * commands reach the relay and change neither other handler, while
   * the relay never sees a frame the updater or the identity handler claims.
   */
  lemma NodeChainRouting(upd: Part, dev: Part, rel: Part, f: Frame, env: DeviceIdentity.Env, sha: Updater.Hash)
    requires upd.UpdatePart? && dev.DevicePart? && rel.RelaisPart? && rel.Valid() && f.Valid()
    ensures var r := ChainStep([upd, dev, rel], f, env, sha);
      (f.Msg() == RELAIS ==>
         r.claimed && r.state[0] == upd && r.state[1] == dev && r.state[2] == RelaisPart(RelaisOutput.Apply(rel.levels, f))) &&
      (Updater.Claims(f.Msg()) || DeviceIdentity.Claims(f.Msg()) ==> r.state[2] == rel)
  {
    if f.Msg() == RELAIS {
      NodeChainRelais(upd, dev, rel, f, env, sha);
    }
    if Updater.Claims(f.Msg()) || DeviceIdentity.Claims(f.Msg()) {
      NodeChainShields(upd, dev, rel, f, env, sha);
    }
  }

  /** A relay command is claimed by the relay, which applies it; the handlers before it stay as they were. */
  lemma NodeChainRelais(upd: Part, dev: Part, rel: Part, f: Frame, env: DeviceIdentity.Env, sha: Updater.Hash)
    requires upd.UpdatePart? && dev.DevicePart? && rel.RelaisPart? && rel.Valid() && f.Valid()
    requires f.Msg() == RELAIS
    ensures var r := ChainStep([upd, dev, rel], f, env, sha);
      r.claimed && r.state[0] == upd && r.state[1] == dev && r.state[2] == RelaisPart(RelaisOutput.Apply(rel.levels, f))
  {
    var ps := [upd, dev, rel];
    var m := f.Msg();
    assert !ps[0].Claims(m) && !ps[1].Claims(m) && ps[2].Claims(m);
    assert FirstClaim(ps, m) == 2;
    ChainStepClaimed(ps, f, env, sha);
    ChainStepStates(ps, f, env, sha);
    OfferUnclaimedKeeps(upd, f, env, sha);
    OfferUnclaimedKeeps(dev, f, env, sha);
  }

  /** A frame the updater or the identity handler claims leaves the relay as it was. */
  lemma NodeChainShields(upd: Part, dev: Part, rel: Part, f: Frame, env: DeviceIdentity.Env, sha: Updater.Hash)
    requires upd.UpdatePart? && dev.DevicePart? && rel.RelaisPart? && rel.Valid() && f.Valid()
    requires Updater.Claims(f.Msg()) || DeviceIdentity.Claims(f.Msg())
    ensures ChainStep([upd, dev, rel], f, env, sha).state[2] == rel
  {
    var ps := [upd, dev, rel];
    var m := f.Msg();
    assert ps[0].Claims(m) || ps[1].Claims(m);
    assert FirstClaim(ps, m) <= 1;
    ChainStepStates(ps, f, env, sha);
  }

  // ---------------------------------------------------------------------
  // The transport object
  // ---------------------------------------------------------------------

  /** A registered ICANDispatcher. */
  datatype Handler =
    | UpdateH(u: Updater.Update)
    | DeviceH(d: DeviceIdentity.Device)
    | RelaisH(r: RelaisOutput.Relais)

  /** The objects a handler's dispatch may change. */
  function Footprint(h: Handler): set<object> {
    match h
    case UpdateH(u) => {u}
    case DeviceH(d) => {d, d.nvs}
    case RelaisH(r) => {r, r.outputs}
  }

  predicate HandlerValid(h: Handler) {
    h.RelaisH? ==> h.r.outputs.Length == RelaisOutput.CHANNELS
  }

  /** A handler's current state as a chain part. */
  ghost function Snapshot(h: Handler): (p: Part)
    reads Footprint(h)
    ensures HandlerValid(h) ==> p.Valid()
  {
    match h
    case UpdateH(u) => UpdatePart(u.State(), u.shaLen)
    case DeviceH(d) => DevicePart(d.State(), d.Ident())
    case RelaisH(r) => RelaisPart(r.outputs[..])
  }

  ghost function ChainFootprint(hs: seq<Handler>): set<object>
    decreases |hs|
  {
    if hs == [] then {} else Footprint(hs[0]) + ChainFootprint(hs[1..])
  }

  lemma {:induction false} ChainFootprintCovers(hs: seq<Handler>, k: nat)
    requires k < |hs|
    ensures Footprint(hs[k]) <= ChainFootprint(hs)
    decreases |hs|
  {
    if k > 0 {
      ChainFootprintCovers(hs[1..], k - 1);
    }
  }

  /** The chain's current state, handler by handler. */
  ghost function Parts(hs: seq<Handler>): (ps: seq<Part>)
    reads ChainFootprint(hs)
    ensures |ps| == |hs|
    ensures forall k :: 0 <= k < |hs| ==> ps[k] == Snapshot(hs[k])
    decreases |hs|
  {
    if hs == [] then [] else [Snapshot(hs[0])] + Parts(hs[1..])
  }

  class Can {
    var enableFilter: bool
    var updateSilence: bool
    var id: bv8
    var typ: bv8
    var received: nat
    var transmitted: nat
    /** m_dispatcher, in registration order. */
    var chain: seq<Handler>
    /** Every frame handed to the transceiver, oldest first. */
    var log: seq<TxFrame>
    ghost var Repr: set<object>

    ghost predicate Valid()
      reads this, Repr
    {
      this in Repr &&
      (forall k :: 0 <= k < |chain| ==> Footprint(chain[k]) <= Repr && this !in Footprint(chain[k]) && HandlerValid(chain[k])) &&
      (forall j, k :: 0 <= j < k < |chain| ==> Footprint(chain[j]) !! Footprint(chain[k])) &&
      received < TWO_64 &&
      transmitted == Count64(|log|)
    }

    constructor ()
      ensures Valid() && fresh(Repr - {this})
      ensures !enableFilter && !updateSilence && id == 0xFF && typ == 0xFF
      ensures received == 0 && transmitted == 0 && chain == [] && log == []
    {
      enableFilter := false;
      updateSilence := false;
      id := 0xFF;
      typ := 0xFF;
      received := 0;
      transmitted := 0;
      chain := [];
      log := [];
      Repr := {this};
    }

    /** The filter flag from `init` and the node id and type from the store. */
    method Configure(enableFilter: bool, id: bv8, typ: bv8)
      requires Valid()
      modifies this
      ensures Valid() && Repr == old(Repr)
      ensures this.enableFilter == enableFilter && this.id == id && this.typ == typ
      ensures updateSilence == old(updateSilence) && chain == old(chain) && log == old(log)
      ensures received == old(received) && transmitted == old(transmitted)
    {
      this.enableFilter := enableFilter;
      this.id := id;
      this.typ := typ;
    }

    method AddDispatcher(h: Handler)
      requires Valid() && HandlerValid(h) && Footprint(h) !! Repr
      modifies this
      ensures Valid() && chain == old(chain) + [h] && Repr == old(Repr) + Footprint(h)
      ensures enableFilter == old(enableFilter) && updateSilence == old(updateSilence)
      ensures id == old(id) && typ == old(typ) && log == old(log)
      ensures received == old(received) && transmitted == old(transmitted)
    {
      chain := chain + [h];
      Repr := Repr + Footprint(h);
    }

    /** The send with an explicit identifier: never silenced. */
    method SendRaw(fid: bv32, data: seq<bv8>, request: bool)
      requires Valid()
      modifies this
      ensures Valid() && Repr == old(Repr)
      ensures log == old(log) + [TxFrame(fid, data, request)]
      ensures transmitted == Inc64(old(transmitted))
      ensures enableFilter == old(enableFilter) && updateSilence == old(updateSilence)
      ensures id == old(id) && typ == old(typ) && chain == old(chain) && received == old(received)
    {
      transmitted := Inc64(transmitted);
      log := log + [TxFrame(fid, data, request)];
    }

    /** The symbolic send: suppressed while silenced for message ids above FLASH_VERIFY. */
    method Send(m: bv8, data: seq<bv8>)
      requires Valid()
      modifies this
      ensures Valid() && Repr == old(Repr)
      ensures log == old(log) + Transmit(id, typ, updateSilence, [Out(m, data)])
      ensures transmitted == if Silenced(updateSilence, m) then old(transmitted) else Inc64(old(transmitted))
      ensures enableFilter == old(enableFilter) && updateSilence == old(updateSilence)
      ensures id == old(id) && typ == old(typ) && chain == old(chain) && received == old(received)
    {
      if updateSilence && m > FLASH_VERIFY {
        return;
      }
      SendRaw(Compose(id, typ, m), data, false);
    }

    /** Sends a handler's requests one after the other. */
    method SendAll(outs: seq<Out>)
      requires Valid()
      modifies this
      ensures Valid() && Repr == old(Repr)
      ensures log == old(log) + Transmit(id, typ, updateSilence, outs)
      ensures enableFilter == old(enableFilter) && updateSilence == old(updateSilence)
      ensures id == old(id) && typ == old(typ) && chain == old(chain) && received == old(received)
    {
      for i := 0 to |outs|
        invariant Valid() && Repr == old(Repr)
        invariant log == old(log) + Transmit(id, typ, updateSilence, outs[..i])
        invariant enableFilter == old(enableFilter) && updateSilence == old(updateSilence)
        invariant id == old(id) && typ == old(typ) && chain == old(chain) && received == old(received)
      {
        TransmitSnoc(id, typ, updateSilence, outs, i);
        Send(outs[i].msg, outs[i].data);
      }
      assert outs[..|outs|] == outs;
    }

    /**
     * `dispatch`: count the frame, latch UPDATE_SILENCE, then offer the
     * frame to the handlers in order until one claims it, sending what
     * each one asks to send.
     */
    method Dispatch(f: Frame, minutes: bv32, sha: Updater.Hash) returns (claimed: bool)
      requires Valid() && f.Valid()
      modifies Repr
      ensures Valid() && Repr == old(Repr) && chain == old(chain)
      ensures enableFilter == old(enableFilter) && id == old(id) && typ == old(typ)
      ensures received == Inc64(old(received))
      ensures updateSilence == if f.Msg() == UPDATE_SILENCE then f.data[0] != 0 else old(updateSilence)
      ensures var r := ChainStep(old(Parts(chain)), f, DeviceIdentity.Env(id, typ, minutes), sha);
        claimed == r.claimed && Parts(chain) == r.state &&
        log == old(log) + Transmit(id, typ, updateSilence, r.out)
    {
      ghost var ps := Parts(chain);
      received := Inc64(received);
      if f.Msg() == UPDATE_SILENCE {
        updateSilence := f.data[0] != 0;
      }
      var env := DeviceIdentity.Env(id, typ, minutes);
      assert AllValid(ps);
      ghost var rs := Offers(ps, f, env, sha);
      claimed := Walk(f, env, sha, ps, rs);
      ChainStepIsChain(ps, f, env, sha);
      ChainFirstClaimWins(ps, rs);
    }

    /** The loop over the registered handlers; `rs` are the answers they give in their states before it. */
    method Walk(f: Frame, env: DeviceIdentity.Env, sha: Updater.Hash, ghost ps: seq<Part>, ghost rs: seq<Reaction<Part>>)
      returns (claimed: bool)
      requires Valid() && f.Valid() && |ps| == |chain| && |rs| == |ps| && AllValid(ps)
      requires forall k :: 0 <= k < |chain| ==> Snapshot(chain[k]) == ps[k]
      requires AnswersOf(ps, rs, f, env, sha)
      modifies Repr
      ensures Valid() && Repr == old(Repr) && chain == old(chain)
      ensures enableFilter == old(enableFilter) && updateSilence == old(updateSilence)
      ensures id == old(id) && typ == old(typ) && received == old(received)
      ensures var n := Reached(FirstClaimed(rs), |ps|);
        (claimed <==> FirstClaimed(rs) < |ps|) &&
        Parts(chain) == Advanced(ps, rs, n) &&
        log == old(log) + Transmit(id, typ, updateSilence, OfferedOuts(rs, n))
    {
      ghost var first := FirstClaimed(rs);
      claimed := false;
      var i := 0;
      while i < |chain| && !claimed
        invariant 0 <= i <= |chain| && chain == old(chain) && Repr == old(Repr) && Valid()
        invariant enableFilter == old(enableFilter) && updateSilence == old(updateSilence)
        invariant id == old(id) && typ == old(typ) && received == old(received)
        invariant !claimed ==> i <= first
        invariant claimed ==> first < |ps| && i == first + 1
        invariant forall k :: 0 <= k < |chain| ==> Snapshot(chain[k]) == Advanced(ps, rs, i)[k]
        invariant log == old(log) + Transmit(id, typ, updateSilence, OfferedOuts(rs, i))
        decreases |chain| - i
      {
        FirstClaimedAt(rs, i);
        claimed := Visit(f, env, sha, ps, rs, i, old(log));
        i := i + 1;
      }
      assert i == Reached(first, |ps|);
      PartsAdvanced(chain, ps, rs, i);
    }

    /** One iteration of the walk: offer the frame to handler `i` and send what it asks to send. */
    method Visit(f: Frame, env: DeviceIdentity.Env, sha: Updater.Hash, ghost ps: seq<Part>, ghost rs: seq<Reaction<Part>>,
                 i: nat, ghost start: seq<TxFrame>)
      returns (claimed: bool)
      requires Valid() && f.Valid() && |ps| == |chain| && |rs| == |ps| && i < |chain| && AllValid(ps)
      requires AnswersOf(ps, rs, f, env, sha)
      requires forall k :: 0 <= k < |chain| ==> Snapshot(chain[k]) == Advanced(ps, rs, i)[k]
      requires log == start + Transmit(id, typ, updateSilence, OfferedOuts(rs, i))
      modifies Repr
      ensures Valid() && Repr == old(Repr) && chain == old(chain)
      ensures enableFilter == old(enableFilter) && updateSilence == old(updateSilence)
      ensures id == old(id) && typ == old(typ) && received == old(received)
      ensures claimed == rs[i].claimed
      ensures forall k :: 0 <= k < |chain| ==> Snapshot(chain[k]) == Advanced(ps, rs, i + 1)[k]
      ensures log == start + Transmit(id, typ, updateSilence, OfferedOuts(rs, i + 1))
    {
      var o;
      claimed, o := OfferAt(f, env, sha, ps, rs, i);
      ghost var before := log;
      SendAll(o);
      TransmitOffered(id, typ, updateSilence, start, before, log, OfferedOuts(rs, i), o);
    }

    /** Handler `i` answers the frame: it takes its answer's state and no other handler changes. */
    method OfferAt(f: Frame, env: DeviceIdentity.Env, sha: Updater.Hash, ghost ps: seq<Part>, ghost rs: seq<Reaction<Part>>, i: nat)
      returns (claimed: bool, out: seq<Out>)
      requires Valid() && f.Valid() && |ps| == |chain| && |rs| == |ps| && i < |chain| && AllValid(ps)
      requires AnswersOf(ps, rs, f, env, sha)
      requires forall k :: 0 <= k < |chain| ==> Snapshot(chain[k]) == Advanced(ps, rs, i)[k]
      modifies Footprint(chain[i])
      ensures Valid()
      ensures claimed == rs[i].claimed && out == rs[i].out
      ensures forall k :: 0 <= k < |chain| ==> Snapshot(chain[k]) == Advanced(ps, rs, i + 1)[k]
    {
      AdvancedIndex(ps, rs, i);
      AdvancedIndex(ps, rs, i + 1);
      assert rs[i] == Offer(ps[i], f, env, sha);
      claimed, out := OfferTo(chain[i], f, env, sha, ps[i]);
    }
  }

  /** Before the first claimant is passed, answer `i` claims exactly when it is the first claimant. */
  lemma FirstClaimedAt(rs: seq<Reaction<Part>>, i: nat)
    requires i <= FirstClaimed(rs) && i < |rs|
    ensures rs[i].claimed <==> i == FirstClaimed(rs)
  {
  }

  /** Handler states that agree one by one with the advanced chain are the advanced chain. */
  lemma PartsAdvanced(hs: seq<Handler>, ps: seq<Part>, rs: seq<Reaction<Part>>, n: nat)
    requires |rs| == |ps| && n <= |ps| && |hs| == |ps|
    requires forall k :: 0 <= k < |hs| ==> Snapshot(hs[k]) == Advanced(ps, rs, n)[k]
    ensures Parts(hs) == Advanced(ps, rs, n)
  {
  }

  /** What the walk has transmitted grows by the sends of each handler it visits. */
  lemma TransmitOffered(id: bv8, typ: bv8, silence: bool, start: seq<TxFrame>, before: seq<TxFrame>, after: seq<TxFrame>,
                        prev: seq<Out>, o: seq<Out>)
    requires before == start + Transmit(id, typ, silence, prev)
    requires after == before + Transmit(id, typ, silence, o)
    ensures after == start + Transmit(id, typ, silence, prev + o)
  {
    TransmitAppend(id, typ, silence, prev, o);
  }

  /** Hands the frame to one registered handler. */
  method OfferTo(h: Handler, f: Frame, env: DeviceIdentity.Env, sha: Updater.Hash, ghost p: Part) returns (claimed: bool, out: seq<Out>)
    requires HandlerValid(h) && f.Valid() && p == Snapshot(h)
    modifies Footprint(h)
    ensures var r := Offer(p, f, env, sha); claimed == r.claimed && out == r.out && Snapshot(h) == r.state
  {
    match h
    case UpdateH(u) =>
      claimed, out := u.Dispatch(f, sha);
    case DeviceH(d) =>
      claimed, out := d.Dispatch(f, env);
    case RelaisH(r) =>
      claimed := r.Dispatch(f);
      out := [];
  }

  lemma {:induction false} ChainFootprintAppend(hs: seq<Handler>, h: Handler)
    ensures ChainFootprint(hs + [h]) == ChainFootprint(hs) + Footprint(h)
    decreases |hs|
  {
    if hs == [] {
      assert [] + [h] == [h];
    } else {
      assert (hs + [h])[1..] == hs[1..] + [h];
      ChainFootprintAppend(hs[1..], h);
    }
  }
}
