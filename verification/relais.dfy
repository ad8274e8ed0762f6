/**
 * The relay handler: decodes RELAIS (130) data frames into the packed
 * relay command and drives one of the seven outputs. The GPIO pins are
 * an array of output levels indexed by channel number.
 */
module RelaisOutput {
  import opened Ican

  /** The number of driven outputs. */
  const CHANNELS: nat := 7

  /** The relay command a frame carries: its payload read into a zeroed 8-byte buffer. */
  function Command(f: Frame): (c: RelaisMsg)
    requires f.Valid()
    ensures EncodeRelais(c) == ZeroFill(f.data[..f.len], 8)
    ensures c.number == (if f.len > 0 then f.data[0] else 0)
    ensures c.state == (if f.len > 1 then f.data[1] else 0)
    ensures c.bank == (if f.len > 5 then f.data[5] else 0)
  {
    var buffer := ZeroFill(f.data[..f.len], 8);
    RelaisLayoutRoundTrip(RelaisMsg(0, 0, 0, 0, 0), buffer);
    DecodeRelais(buffer)
  }

  /** `state(bank, num, on)`: the output levels after driving channel `num`. */
  function Drive(levels: seq<bool>, num: bv8, on: bool): (r: seq<bool>)
    requires |levels| == CHANNELS
    ensures |r| == CHANNELS
    ensures forall i :: 0 <= i < CHANNELS ==> r[i] == if i == num as int then on else levels[i]
  {
    if (num as int) < CHANNELS then levels[num as int := on] else levels
  }

  /** The output levels after the handler has seen frame `f`. */
  function Apply(levels: seq<bool>, f: Frame): seq<bool>
    requires |levels| == CHANNELS && f.Valid()
  {
    if f.Msg() != RELAIS || f.request then levels
    else
      var c := Command(f);
      Drive(levels, c.number, c.state != 0)
  }

  // ---------------------------------------------------------------------
  // Properties
  // ---------------------------------------------------------------------

  /** Only RELAIS data frames change outputs; they change at most the addressed channel. */
  lemma ApplyTouchesOneChannel(levels: seq<bool>, f: Frame)
    requires |levels| == CHANNELS && f.Valid()
    ensures |Apply(levels, f)| == CHANNELS
    ensures f.Msg() != RELAIS || f.request ==> Apply(levels, f) == levels
    ensures forall i :: 0 <= i < CHANNELS && i != (if f.len > 0 then f.data[0] else 0) as int ==>
      Apply(levels, f)[i] == levels[i]
  {
  }

  /** A full command to an existing channel sets that channel to on exactly when its state byte is not 0. */
  lemma CommandDrivesChannel(levels: seq<bool>, f: Frame, c: RelaisMsg)
    requires |levels| == CHANNELS && f.Valid()
    requires f.Msg() == RELAIS && !f.request && f.len == 8 && f.data == EncodeRelais(c)
    requires (c.number as int) < CHANNELS
    ensures Command(f) == c
    ensures Apply(levels, f)[c.number as int] == (c.state != 0)
  {
    assert f.data[..f.len] == f.data;
    assert ZeroFill(f.data, 8) == f.data;
    RelaisLayoutRoundTrip(c, f.data);
  }

  /** A one-byte command has no state byte, which reads as 0: it switches the channel off. */
  lemma ShortCommandSwitchesOff(levels: seq<bool>, f: Frame)
    requires |levels| == CHANNELS && f.Valid()
    requires f.Msg() == RELAIS && !f.request && f.len == 1 && (f.data[0] as int) < CHANNELS
    ensures !Apply(levels, f)[f.data[0] as int]
  {
  }

  /** A channel number of 7 or more drives nothing. */
  lemma OutOfRangeChannelIgnored(levels: seq<bool>, f: Frame)
    requires |levels| == CHANNELS && f.Valid()
    requires f.len > 0 && (f.data[0] as int) >= CHANNELS
    ensures Apply(levels, f) == levels
  {
  }

  class Relais {
    /** The levels of the seven output pins. */
    const outputs: array<bool>

    constructor ()
      ensures outputs.Length == CHANNELS && fresh(outputs)
      ensures forall i :: 0 <= i < CHANNELS ==> !outputs[i]
    {
      outputs := new bool[CHANNELS](_ => false);
    }

    predicate Valid()
      reads this
    {
      outputs.Length == CHANNELS
    }

    method SetState(bank: bv8, num: bv8, on: bool)
      requires Valid()
      modifies outputs
      ensures outputs[..] == Drive(old(outputs[..]), num, on)
    {
      if (num as int) < CHANNELS {
        outputs[num] := on;
      }
    }

    method Dispatch(f: Frame) returns (claimed: bool)
      requires Valid() && f.Valid()
      modifies outputs
      ensures claimed <==> f.Msg() == RELAIS
      ensures outputs[..] == Apply(old(outputs[..]), f)
    {
      if f.Msg() != RELAIS {
        return false;
      }
      var data8 := new bv8[8];
      for i := 0 to 8
        invariant forall j :: 0 <= j < i ==> data8[j] == 0
        invariant outputs[..] == old(outputs[..])
      {
        data8[i] := 0;
      }
      var n := if f.len < 8 then f.len else 8;
      for i := 0 to n
        invariant forall j :: 0 <= j < 8 ==> data8[j] == if j < i then f.data[j] else 0
        invariant outputs[..] == old(outputs[..])
      {
        data8[i] := f.data[i];
      }
      assert data8[..] == ZeroFill(f.data[..f.len], 8);
      var relais := DecodeRelais(data8[..]);
      if !f.request {
        SetState(relais.bank, relais.number, relais.state != 0);
      }
      return true;
    }
  }
}
