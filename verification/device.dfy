/**
 * The device-identity handler: discovery and parameter echo, the
 * UID-selection latch that gates re-addressing, and the persisted identity
 * fields. `Step` is the handler's behaviour on one frame as a function of
 * its state; `Device.Dispatch` is the handler itself and is proved to
 * behave as `Step` says.
 */
module DeviceIdentity {
  import opened Ican
  import opened ConfigStore

  /** The UID-selection latch and the persisted store. */
  datatype DeviceState = DeviceState(uidSelected: bool, store: Entries)

  /** What the handler knows about the node and cannot change: its 8-byte chip id and its image version string. */
  datatype Identity = Identity(chip: seq<bv8>, version: seq<bv8>)

  /** What the handler reads from the bus transport and the clock: the node's id and type, and the time in minutes. */
  datatype Env = Env(canId: bv8, canType: bv8, minutes: bv32)

  /** The sub-requests a REQUEST_PARAMETER frame fans out into, in order. */
  const PARAMETERS: seq<bv8> := [APPLICATION_VERSION_STRING, DEVICE_UID0, DEVICE_UID1, CUSTOM_STRING,
                                 UPTIME, BAUDRATE, HW_REV, SENSOR_LEGACY_MODE]

  /** The message ids this handler claims. */
  predicate Claims(m: bv8) {
    m in {DEVICE_GROUP, APPLICATION_VERSION_STRING, DEVICE_ID_TYPE, DEVICE_UID0, DEVICE_UID1,
          BAUDRATE, CUSTOM_STRING, UPTIME, HW_REV, SENSOR_LEGACY_MODE}
  }

  // ---------------------------------------------------------------------
  // Replies and payload handling
  // ---------------------------------------------------------------------

  /** "release/" */
  const RELEASE_PREFIX: seq<bv8> := [0x72, 0x65, 0x6C, 0x65, 0x61, 0x73, 0x65, 0x2F]

  predicate HasReleasePrefix(v: seq<bv8>) {
    |v| >= |RELEASE_PREFIX| && v[..|RELEASE_PREFIX|] == RELEASE_PREFIX
  }

  /** The version with a leading "release/" removed. */
  function ShortVersion(v: seq<bv8>): seq<bv8> {
    if HasReleasePrefix(v) then v[|RELEASE_PREFIX|..] else v
  }

  /** The version reply: the short version cut to at most 8 bytes. */
  function VersionReply(v: seq<bv8>): (r: seq<bv8>)
    ensures |r| <= 8
    ensures |r| == if |ShortVersion(v)| < 8 then |ShortVersion(v)| else 8
    ensures r == ShortVersion(v)[..|r|]
  {
    var n := if HasReleasePrefix(v) then |v| - |RELEASE_PREFIX| else |v|;
    var minLen := if n < 8 then n else 8;
    if HasReleasePrefix(v) then v[|RELEASE_PREFIX|..|RELEASE_PREFIX| + minLen] else v[..minLen]
  }

  predicate AllZero(p: seq<bv8>) {
    forall i :: 0 <= i < |p| ==> p[i] == 0
  }

  /** A UID-selection payload selects this node when it equals the chip id or is all zero (the wildcard). */
  predicate Selects(chip: seq<bv8>, p: seq<bv8>) {
    p == chip || AllZero(p)
  }

  /**
   * The selection comparison as the handler runs it: start selected,
   * drop the selection on any differing byte, and restore it if every
   * payload byte was zero.
   */
  method SelectsUid(chip: seq<bv8>, data: seq<bv8>) returns (selected: bool)
    requires |chip| == 8 && |data| >= 8
    ensures selected == Selects(chip, data[..8])
  {
    selected := true;
    var allZero := true;
    for i := 0 to 8
      invariant selected <==> chip[..i] == data[..i]
      invariant allZero <==> AllZero(data[..i])
    {
      if chip[i] != data[i] {
        selected := false;
      }
      if data[i] != 0 {
        allZero := false;
      }
      assert chip[..i + 1] == chip[..i] + [chip[i]];
      assert data[..i + 1] == data[..i] + [data[i]];
    }
    if allZero {
      selected := true;
    }
    assert chip[..8] == chip && data[..8] == data[..8];
  }

  /** The C string held in a buffer: the bytes before the first zero. */
  function CString(b: seq<bv8>): (r: seq<bv8>)
    ensures |r| <= |b| && r == b[..|r|]
    ensures forall i :: 0 <= i < |r| ==> r[i] != 0
    ensures |r| < |b| ==> b[|r|] == 0
  {
    if b == [] || b[0] == 0 then [] else [b[0]] + CString(b[1..])
  }

  /**
   * The custom-string reply. The string is read into a zeroed 9-byte
   * buffer; a stored string reports its length plus the terminator, an
   * absent key leaves the length at 9; at most 8 bytes are sent.
   */
  function CustomReply(m: Entries): (r: seq<bv8>)
    ensures |r| <= 8
    ensures KEY_CUSTOM_STRING in m && |m[KEY_CUSTOM_STRING]| <= 8 ==>
              |r| == (if |m[KEY_CUSTOM_STRING]| < 8 then |m[KEY_CUSTOM_STRING]| + 1 else 8) &&
              r == (m[KEY_CUSTOM_STRING] + [0])[..|r|]
    ensures KEY_CUSTOM_STRING !in m ==> r == [0, 0, 0, 0, 0, 0, 0, 0]
  {
    var found := KEY_CUSTOM_STRING in m && |m[KEY_CUSTOM_STRING]| + 1 <= 9;
    var buffer := ZeroFill(if found then m[KEY_CUSTOM_STRING] else [], 9);
    var length := if found then |m[KEY_CUSTOM_STRING]| + 1 else 9;
    buffer[..if length < 8 then length else 8]
  }

  /** A DEVICE_ID_TYPE write: the type is always stored, the id only when it is not 0. */
  function WriteIdType(m: Entries, id: bv8, t: bv8): Entries {
    var withType := SetU8(m, KEY_CAN_TYPE, t);
    if id != 0 then SetU8(withType, KEY_CAN_ID, id) else withType
  }

  /** The frame a REQUEST_PARAMETER frame is re-dispatched as: same upper 24 identifier bits, message byte `m`. */
  function SubFrame(f: Frame, m: bv8): (g: Frame)
    ensures g.Msg() == m && GetNotMsg(g.id) == GetNotMsg(f.id)
    ensures g.data == f.data && g.len == f.len && g.request == f.request
  {
    f.(id := (f.id & 0xFFFF_FF00) + m as bv32)
  }

  // ---------------------------------------------------------------------
  // The handler as a function
  // ---------------------------------------------------------------------

  /** One frame whose message id is not REQUEST_PARAMETER. */
  function Answer(s: DeviceState, k: Identity, env: Env, f: Frame): Reaction<DeviceState>
    requires f.Valid()
  {
    var m := f.Msg();
    if m == DEVICE_GROUP then
      Reaction(s, if f.request then [Out(DEVICE_GROUP, [0])] else [], true)
    else if m == APPLICATION_VERSION_STRING then
      Reaction(s, if f.request then [Out(m, VersionReply(k.version))] else [], true)
    else if m == DEVICE_ID_TYPE then
      if f.request then Reaction(s, [Out(m, [env.canId, env.canType])], true)
      else if s.uidSelected && f.len == 2 then
        Reaction(s.(store := WriteIdType(s.store, f.data[0], f.data[1])), [], true)
      else Reaction(s, [], true)
    else if m == DEVICE_UID0 || m == DEVICE_UID1 then
      if f.request then Reaction(s, [Out(m, k.chip)], true)
      else if f.len == 8 then Reaction(s.(uidSelected := Selects(k.chip, f.data[..8])), [], true)
      else Reaction(s, [], true)
    else if m == BAUDRATE then
      if f.request then Reaction(s, [Out(m, [GetU8(s.store, KEY_CAN_BITRATE)])], true)
      else if f.len == 1 && f.data[0] > 0 then
        Reaction(s.(store := SetU8(s.store, KEY_CAN_BITRATE, f.data[0])), [], true)
      else Reaction(s, [], true)
    else if m == CUSTOM_STRING then
      if f.request then Reaction(s, [Out(m, CustomReply(s.store))], true)
      else Reaction(s.(store := s.store[KEY_CUSTOM_STRING := CString(ZeroFill(f.data[..f.len], 9))]), [], true)
    else if m == UPTIME then
      Reaction(s, if f.request then [Out(m, Le32(env.minutes))] else [], true)
    else if m == HW_REV || m == SENSOR_LEGACY_MODE then
      var key := if m == HW_REV then KEY_HW_REV else KEY_LEG_SEN;
      var st := if f.len == 1 && !f.request then SetU8(s.store, key, f.data[0]) else s.store;
      Reaction(s.(store := st), [Out(m, [GetU8(st, key)])], true)
    else
      Reaction(s, [], false)
  }

  /** The first `n` sub-requests of a REQUEST_PARAMETER frame, answered one after the other. */
  function FanOut(s: DeviceState, k: Identity, env: Env, f: Frame, n: nat): Reaction<DeviceState>
    requires f.Valid() && n <= |PARAMETERS|
  {
    if n == 0 then Reaction(s, [], false)
    else
      var before := FanOut(s, k, env, f, n - 1);
      var a := Answer(before.state, k, env, SubFrame(f, PARAMETERS[n - 1]));
      Reaction(a.state, before.out + a.out, false)
  }

  /** The handler on one frame. */
  function Step(s: DeviceState, k: Identity, env: Env, f: Frame): Reaction<DeviceState>
    requires f.Valid()
  {
    if f.Msg() == REQUEST_PARAMETER then FanOut(s, k, env, f, |PARAMETERS|)
    else Answer(s, k, env, f)
  }

  // ---------------------------------------------------------------------
  // Properties of the handler
  // ---------------------------------------------------------------------

  /** The handler claims a frame exactly when its message id is one of its own. */
  lemma ClaimsExactly(s: DeviceState, k: Identity, env: Env, f: Frame)
    requires f.Valid()
    ensures Step(s, k, env, f).claimed <==> Claims(f.Msg())
  {
    if f.Msg() == REQUEST_PARAMETER {
      FanOutNeverClaims(s, k, env, f, |PARAMETERS|);
    }
  }

  lemma {:induction false} FanOutNeverClaims(s: DeviceState, k: Identity, env: Env, f: Frame, n: nat)
    requires f.Valid() && n <= |PARAMETERS|
    ensures !FanOut(s, k, env, f, n).claimed
  {
  }

  /**
   * Answering the first `n` sub-requests of a REQUEST_PARAMETER remote
   * frame changes nothing and sends one reply per sub-request, in order.
   */
  lemma {:induction false} FanOutOfRequest(s: DeviceState, k: Identity, env: Env, f: Frame, n: nat)
    requires f.Valid() && f.request && n <= |PARAMETERS|
    ensures FanOut(s, k, env, f, n).state == s
    ensures |FanOut(s, k, env, f, n).out| == n
    ensures forall i :: 0 <= i < n ==> FanOut(s, k, env, f, n).out[i].msg == PARAMETERS[i]
  {
    if n > 0 {
      FanOutOfRequest(s, k, env, f, n - 1);
      AnswerOfRequest(s, k, env, SubFrame(f, PARAMETERS[n - 1]));
    }
  }

  /** A remote frame for one of the handler's own ids gets exactly one reply, with that id, and changes nothing. */
  lemma AnswerOfRequest(s: DeviceState, k: Identity, env: Env, f: Frame)
    requires f.Valid() && f.request && Claims(f.Msg())
    ensures Answer(s, k, env, f).state == s
    ensures |Answer(s, k, env, f).out| == 1 && Answer(s, k, env, f).out[0].msg == f.Msg()
  {
  }

  /**
   * A REQUEST_PARAMETER remote frame is answered with the version, both
   * UID halves, the custom string, the uptime, the bitrate, the hardware
   * revision and the legacy-sensor flag, in that order; it changes no
   * state and is left for later handlers.
   */
  lemma RequestParameterReplies(s: DeviceState, k: Identity, env: Env, f: Frame)
    requires f.Valid() && f.request && f.Msg() == REQUEST_PARAMETER
    ensures Step(s, k, env, f).state == s && !Step(s, k, env, f).claimed
    ensures |Step(s, k, env, f).out| == |PARAMETERS|
    ensures forall i :: 0 <= i < |PARAMETERS| ==> Step(s, k, env, f).out[i].msg == PARAMETERS[i]
  {
    FanOutOfRequest(s, k, env, f, |PARAMETERS|);
  }

  /**
   * A REQUEST_PARAMETER data frame of one byte is answered like the
   * sub-requests it fans out into: it writes that byte as the hardware
   * revision and as the legacy-sensor flag.
   */
  lemma RequestParameterDataFrameWrites(s: DeviceState, k: Identity, env: Env, f: Frame)
    requires f.Valid() && !f.request && f.len == 1 && f.Msg() == REQUEST_PARAMETER
    ensures GetU8(Step(s, k, env, f).state.store, KEY_HW_REV) == f.data[0]
    ensures GetU8(Step(s, k, env, f).state.store, KEY_LEG_SEN) == f.data[0]
  {
    var before := FanOut(s, k, env, f, 6).state.store;
    var withRev := FanOut(s, k, env, f, 7).state.store;
    assert SubFrame(f, HW_REV).Msg() == HW_REV;
    assert SubFrame(f, SENSOR_LEGACY_MODE).Msg() == SENSOR_LEGACY_MODE;
    assert withRev == SetU8(before, KEY_HW_REV, f.data[0]);
    assert Step(s, k, env, f).state.store == SetU8(withRev, KEY_LEG_SEN, f.data[0]);
  }

  /** Without a prior UID selection, a DEVICE_ID_TYPE frame changes nothing. */
  lemma IdTypeNeedsSelection(s: DeviceState, k: Identity, env: Env, f: Frame)
    requires f.Valid() && f.Msg() == DEVICE_ID_TYPE && !s.uidSelected
    ensures Step(s, k, env, f).state == s
  {
  }

  /** A DEVICE_GROUP remote frame is answered with a single zero byte; nothing changes. */
  lemma DeviceGroupAnswersZero(s: DeviceState, k: Identity, env: Env, f: Frame)
    requires f.Valid() && f.Msg() == DEVICE_GROUP
    ensures Step(s, k, env, f).state == s && Step(s, k, env, f).claimed
    ensures Step(s, k, env, f).out == if f.request then [Out(DEVICE_GROUP, [0])] else []
  {
  }

  /**
   * BAUDRATE: a remote frame is answered with the stored bitrate byte (0
   * when none is stored); a data frame stores its byte exactly when it is
   * one byte long and not 0, and touches no other key.
   */
  lemma BaudrateStoredOrAnswered(s: DeviceState, k: Identity, env: Env, f: Frame)
    requires f.Valid() && f.Msg() == BAUDRATE
    ensures var r := Step(s, k, env, f);
      r.claimed && r.state.uidSelected == s.uidSelected &&
      (f.request ==> r.state == s && r.out == [Out(BAUDRATE, [GetU8(s.store, KEY_CAN_BITRATE)])]) &&
      (!f.request ==>
         r.out == [] &&
         GetU8(r.state.store, KEY_CAN_BITRATE) ==
           (if f.len == 1 && f.data[0] > 0 then f.data[0] else GetU8(s.store, KEY_CAN_BITRATE)) &&
         (forall key :: key != KEY_CAN_BITRATE ==>
           (key in r.state.store <==> key in s.store) && (key in s.store ==> r.state.store[key] == s.store[key])))
  {
  }

  /**
   * HW_REV and SENSOR_LEGACY_MODE: a one-byte data frame stores its byte
   * first; every such frame, remote or not, is answered with the byte then
   * stored, and any other frame leaves the state as it was.
   */
  lemma StoredByteAnswered(s: DeviceState, k: Identity, env: Env, f: Frame)
    requires f.Valid() && f.Msg() in {HW_REV, SENSOR_LEGACY_MODE}
    ensures var r := Step(s, k, env, f);
      var key := if f.Msg() == HW_REV then KEY_HW_REV else KEY_LEG_SEN;
      r.claimed && r.out == [Out(f.Msg(), [GetU8(r.state.store, key)])] &&
      (f.len == 1 && !f.request ==> GetU8(r.state.store, key) == f.data[0] && r.state.uidSelected == s.uidSelected) &&
      (f.len != 1 || f.request ==> r.state == s)
  {
  }

  /** A message id the handler does not know is left unclaimed, unanswered and without effect. */
  lemma UnknownIdIgnored(s: DeviceState, k: Identity, env: Env, f: Frame)
    requires f.Valid() && !Claims(f.Msg()) && f.Msg() != REQUEST_PARAMETER
    ensures Step(s, k, env, f) == Reaction(s, [], false)
  {
  }

  /**
   * Re-addressing: a UID frame carrying this node's chip id (or all
   * zeros), followed by a two-byte DEVICE_ID_TYPE frame, stores the new
   * type, and the new id unless it is 0; no other key changes.
   */
  lemma SelectThenReaddress(s: DeviceState, k: Identity, env: Env, sel: Frame, write: Frame)
    requires sel.Valid() && write.Valid() && |k.chip| == 8
    requires sel.Msg() in {DEVICE_UID0, DEVICE_UID1} && !sel.request && sel.len == 8
    requires Selects(k.chip, sel.data[..8])
    requires write.Msg() == DEVICE_ID_TYPE && !write.request && write.len == 2
    ensures var t := Step(Step(s, k, env, sel).state, k, env, write).state;
      t.uidSelected &&
      GetU8(t.store, KEY_CAN_TYPE) == write.data[1] &&
      (write.data[0] != 0 ==> GetU8(t.store, KEY_CAN_ID) == write.data[0]) &&
      (write.data[0] == 0 ==>
        (KEY_CAN_ID in t.store <==> KEY_CAN_ID in s.store) &&
        (KEY_CAN_ID in s.store ==> t.store[KEY_CAN_ID] == s.store[KEY_CAN_ID])) &&
      (forall key :: key != KEY_CAN_TYPE && key != KEY_CAN_ID ==>
        (key in t.store <==> key in s.store) && (key in s.store ==> t.store[key] == s.store[key]))
  {
  }

  /** A DEVICE_ID_TYPE data frame that is not two bytes long changes nothing, selected or not. */
  lemma IdTypeOtherLengthKeeps(s: DeviceState, k: Identity, env: Env, f: Frame)
    requires f.Valid() && f.Msg() == DEVICE_ID_TYPE && !f.request && f.len != 2
    ensures Step(s, k, env, f) == Reaction(s, [], true)
  {
  }

  /** A UID data frame that is not eight bytes long leaves the selection and the store as they were. */
  lemma UidOtherLengthKeeps(s: DeviceState, k: Identity, env: Env, f: Frame)
    requires f.Valid() && f.Msg() in {DEVICE_UID0, DEVICE_UID1} && !f.request && f.len != 8
    ensures Step(s, k, env, f) == Reaction(s, [], true)
  {
  }

  /** A UID frame whose payload neither matches the chip id nor is all zero clears the selection. */
  lemma ForeignUidDeselects(s: DeviceState, k: Identity, env: Env, f: Frame)
    requires f.Valid() && f.Msg() in {DEVICE_UID0, DEVICE_UID1} && !f.request && f.len == 8
    requires !Selects(k.chip, f.data[..8])
    ensures !Step(s, k, env, f).state.uidSelected
    ensures Step(s, k, env, f).state.store == s.store
    ensures Step(s, k, env, f).out == [] && Step(s, k, env, f).claimed
  {
  }

  /**
   * The custom string reads back as written: a written payload without
   * zero bytes is answered, terminator included, cut to 8 bytes.
   */
  lemma CustomStringRoundTrip(s: DeviceState, k: Identity, env: Env, w: Frame, r: Frame)
    requires w.Valid() && w.Msg() == CUSTOM_STRING && !w.request
    requires forall i :: 0 <= i < w.len ==> w.data[i] != 0
    requires r.Valid() && r.Msg() == CUSTOM_STRING && r.request
    ensures var payload := w.data[..w.len];
      Step(Step(s, k, env, w).state, k, env, r).out ==
        [Out(CUSTOM_STRING, (payload + [0])[..if w.len < 8 then w.len + 1 else 8])]
  {
    var buffer := ZeroFill(w.data[..w.len], 9);
    CStringOfZeroFill(w.data[..w.len], 9);
    assert CString(buffer) == w.data[..w.len];
  }

  /** A zero-free sequence padded with zeros reads back as itself. */
  lemma {:induction false} CStringOfZeroFill(p: seq<bv8>, size: nat)
    requires |p| < size
    requires forall i :: 0 <= i < |p| ==> p[i] != 0
    ensures CString(ZeroFill(p, size)) == p
  {
    var b := ZeroFill(p, size);
    if p == [] {
      assert b[0] == 0;
    } else {
      assert b[0] == p[0] != 0;
      assert b[1..] == ZeroFill(p[1..], size - 1);
      CStringOfZeroFill(p[1..], size - 1);
      assert p == [p[0]] + p[1..];
    }
  }

  /** The uptime reply decodes to the time in minutes. */
  lemma UptimeReplyDecodes(s: DeviceState, k: Identity, env: Env, f: Frame)
    requires f.Valid() && f.Msg() == UPTIME && f.request
    ensures |Step(s, k, env, f).out| == 1
    ensures FromLe32(Step(s, k, env, f).out[0].data) == env.minutes
  {
    Le32RoundTrip(env.minutes, Le32(env.minutes));
  }

  /** A "release/" version is answered without its prefix. */
  lemma ReleaseVersionStripped(v: seq<bv8>, rest: seq<bv8>)
    requires v == RELEASE_PREFIX + rest
    ensures VersionReply(v) == rest[..if |rest| < 8 then |rest| else 8]
  {
    assert v[..|RELEASE_PREFIX|] == RELEASE_PREFIX;
    assert v[|RELEASE_PREFIX|..] == rest;
  }

  // ---------------------------------------------------------------------
  // The handler object
  // ---------------------------------------------------------------------

  class Device {
    const nvs: Nvs
    /** The 6-byte factory MAC that esp_efuse_mac_get_default reports. */
    const mac: seq<bv8>
    const version: seq<bv8>
    /** The function-local static `uid_selected` of the source. */
    var uidSelected: bool

    constructor (nvs: Nvs, mac: seq<bv8>, version: seq<bv8>)
      requires |mac| == 6
      ensures this.nvs == nvs && this.mac == mac && this.version == version
      ensures !uidSelected
    {
      this.nvs := nvs;
      this.mac := mac;
      this.version := version;
      uidSelected := false;
    }

    /** The MAC read into a zeroed 8-byte buffer. */
    function ChipId(): (r: seq<bv8>)
      ensures |r| == 8
    {
      ZeroFill(mac, 8)
    }

    function Ident(): Identity {
      Identity(ChipId(), version)
    }

    function State(): DeviceState
      reads this, nvs
    {
      DeviceState(uidSelected, nvs.entries)
    }

    /**
     * The handler entry point. A REQUEST_PARAMETER frame is re-dispatched
     * once per entry of PARAMETERS; none of those is REQUEST_PARAMETER
     * again, so the re-dispatch lands in `Respond` directly.
     */
    method Dispatch(f: Frame, env: Env) returns (claimed: bool, out: seq<Out>)
      requires f.Valid()
      modifies this, nvs
      ensures Reaction(State(), out, claimed) == Step(old(State()), Ident(), env, f)
    {
      if f.Msg() == REQUEST_PARAMETER {
        out := RequestParameters(f, env);
        claimed := false;
      } else {
        claimed, out := Respond(f, env);
      }
    }

    method RequestParameters(f: Frame, env: Env) returns (out: seq<Out>)
      requires f.Valid()
      modifies this, nvs
      ensures Reaction(State(), out, false) == FanOut(old(State()), Ident(), env, f, |PARAMETERS|)
    {
      ghost var s0 := State();
      out := ForwardFirst(f, env, s0);
      out := ForwardRest(f, env, s0, out);
    }

    /** The version and the UID halves, then the custom string. */
    method ForwardFirst(f: Frame, env: Env, ghost s0: DeviceState) returns (out: seq<Out>)
      requires f.Valid() && s0 == State()
      modifies this, nvs
      ensures Reaction(State(), out, false) == FanOut(s0, Ident(), env, f, 4)
    {
      out := [];
      out := Forward(f, env, APPLICATION_VERSION_STRING, 0, s0, out);
      out := Forward(f, env, DEVICE_UID0, 1, s0, out);
      out := Forward(f, env, DEVICE_UID1, 2, s0, out);
      out := Forward(f, env, CUSTOM_STRING, 3, s0, out);
    }

    /** The uptime, the bitrate, the hardware revision and the legacy-sensor flag. */
    method ForwardRest(f: Frame, env: Env, ghost s0: DeviceState, before: seq<Out>) returns (out: seq<Out>)
      requires f.Valid() && Reaction(State(), before, false) == FanOut(s0, Ident(), env, f, 4)
      modifies this, nvs
      ensures Reaction(State(), out, false) == FanOut(s0, Ident(), env, f, |PARAMETERS|)
    {
      out := before;
      out := Forward(f, env, UPTIME, 4, s0, out);
      out := Forward(f, env, BAUDRATE, 5, s0, out);
      out := Forward(f, env, HW_REV, 6, s0, out);
      out := Forward(f, env, SENSOR_LEGACY_MODE, 7, s0, out);
    }

    /** One re-dispatch of a REQUEST_PARAMETER frame, as message `m`, the `n`-th of PARAMETERS. */
    method Forward(f: Frame, env: Env, m: bv8, n: nat, ghost s0: DeviceState, before: seq<Out>) returns (out: seq<Out>)
      requires f.Valid() && n < |PARAMETERS| && PARAMETERS[n] == m
      requires Reaction(State(), before, false) == FanOut(s0, Ident(), env, f, n)
      modifies this, nvs
      ensures Reaction(State(), out, false) == FanOut(s0, Ident(), env, f, n + 1)
    {
      var claimed, o := Respond(SubFrame(f, m), env);
      out := before + o;
    }

    /** Every message id but REQUEST_PARAMETER. */
    method Respond(f: Frame, env: Env) returns (claimed: bool, out: seq<Out>)
      requires f.Valid() && f.Msg() != REQUEST_PARAMETER
      modifies this, nvs
      ensures Reaction(State(), out, claimed) == Answer(old(State()), Ident(), env, f)
    {
      var m := f.Msg();
      out := [];
      if m == DEVICE_GROUP {
        if f.request {
          out := [Out(DEVICE_GROUP, [0])];
        }
        return true, out;
      } else if m == APPLICATION_VERSION_STRING {
        if f.request {
          out := [Out(APPLICATION_VERSION_STRING, VersionReply(version))];
        }
        return true, out;
      } else if m == DEVICE_ID_TYPE {
        if f.request {
          out := [Out(DEVICE_ID_TYPE, [env.canId, env.canType])];
        } else if uidSelected && f.len == 2 {
          nvs.entries := SetU8(nvs.entries, KEY_CAN_TYPE, f.data[1]);
          if f.data[0] != 0 {
            nvs.entries := SetU8(nvs.entries, KEY_CAN_ID, f.data[0]);
          }
        }
        return true, out;
      } else if m == DEVICE_UID0 || m == DEVICE_UID1 {
        var chipid := ChipId();
        if f.request {
          out := [Out(m, chipid)];
        } else if f.len == 8 {
          uidSelected := SelectsUid(chipid, f.data);
        }
        return true, out;
      } else if m == BAUDRATE {
        if f.request {
          out := [Out(BAUDRATE, [GetU8(nvs.entries, KEY_CAN_BITRATE)])];
        } else if f.len == 1 && f.data[0] > 0 {
          nvs.entries := SetU8(nvs.entries, KEY_CAN_BITRATE, f.data[0]);
        }
        return true, out;
      } else if m == CUSTOM_STRING {
        if f.request {
          out := [Out(CUSTOM_STRING, CustomReply(nvs.entries))];
        } else {
          var buffer := ZeroFill(f.data[..f.len], 9);
          nvs.entries := nvs.entries[KEY_CUSTOM_STRING := CString(buffer)];
        }
        return true, out;
      } else if m == UPTIME {
        if f.request {
          out := [Out(UPTIME, Le32(env.minutes))];
        }
        return true, out;
      } else if m == HW_REV || m == SENSOR_LEGACY_MODE {
        var key := if m == HW_REV then KEY_HW_REV else KEY_LEG_SEN;
        if f.len == 1 && !f.request {
          nvs.entries := SetU8(nvs.entries, key, f.data[0]);
        }
        out := [Out(m, [GetU8(nvs.entries, key)])];
        return true, out;
      }
      return false, out;
    }
  }
}
