/**
 * The over-the-air updater: the update-mode latch, the OTA session on the
 * next-update partition, and the AVAILABLE / RESTART / FLASH_WRITE /
 * FLASH_VERIFY messages. The OTA and partition API is abstract state; the
 * SHA-256 of the partition is an uninterpreted function of its contents.
 */
module Updater {
  import opened Ican
  import opened ConfigStore

  /** Which partition the bootloader starts next. */
  datatype BootPartition = Running | NextUpdate

  /**
   * The OTA side effects: whether a session is open, what the next-update
   * partition holds, the boot selection, and whether a restart was asked for.
   */
  datatype Ota = Ota(sessionOpen: bool, partition: seq<bv8>, boot: BootPartition, restarted: bool)

  datatype UpdState = UpdState(updateMode: bool, ota: Ota)

  /** The message ids this handler claims. */
  predicate Claims(m: bv8) {
    m in {FLASH_WRITE, AVAILABLE, RESTART, FLASH_VERIFY}
  }

  /** The AVAILABLE reply byte: which image is answering. */
  function AvailableCode(updateMode: bool): (r: bv8)
    ensures r == (if updateMode then UPDATE_MODE else APPLICATION)
    ensures r != NOT_READY
  {
    if updateMode then UPDATE_MODE else APPLICATION
  }

  /** esp_partition_get_sha256 always writes a whole SHA-256 digest. */
  const SHA256_LEN: nat := 32

  type Digest = d: seq<bv8> | |d| == SHA256_LEN witness seq(32, _ => 0 as bv8)

  /** The digest of a partition, as a function of its contents. */
  type Hash = seq<bv8> -> Digest

  /** A digest written into a zeroed buffer: the bytes the buffer holds afterwards, and how many ran past its end. */
  datatype BufferWrite = BufferWrite(buffer: seq<bv8>, overrun: nat)

  function WriteDigest(size: nat, digest: Digest): (w: BufferWrite)
    ensures |w.buffer| == size
    ensures forall i :: 0 <= i < size ==> w.buffer[i] == if i < SHA256_LEN then digest[i] else 0
    ensures w.overrun == 0 <==> SHA256_LEN <= size
    ensures w.overrun > 0 ==> size + w.overrun == SHA256_LEN
  {
    BufferWrite(ZeroFill(digest, size), if size < SHA256_LEN then SHA256_LEN - size else 0)
  }

  /** The checksum buffer as declared: CONFIG_APP_RETRIEVE_LEN_ELF_SHA bytes. */
  function DigestBufferAsWritten(shaLen: nat): nat {
    shaLen
  }

  /** The checksum buffer corrected: large enough for the setting and for the whole digest. */
  function DigestBuffer(shaLen: nat): (n: nat)
    ensures n >= SHA256_LEN && n >= shaLen
    ensures n == SHA256_LEN || n == shaLen
  {
    if shaLen < SHA256_LEN then SHA256_LEN else shaLen
  }

  /**
   * The FLASH_VERIFY reply: the digest read into the checksum buffer, of
   * which `min(shaLen, 8)` bytes are sent.
   */
  function VerifyReply(digest: Digest, shaLen: nat): (r: seq<bv8>)
    ensures |r| == if shaLen < 8 then shaLen else 8
    ensures r == digest[..|r|]
  {
    WriteDigest(DigestBuffer(shaLen), digest).buffer[..if shaLen < 8 then shaLen else 8]
  }

  /**
   * As declared, a checksum buffer shorter than a SHA-256 digest is
   * overrun by the digest write: with a setting of 9, 23 bytes land past
   * its end.
   */
  lemma DigestBufferAsWrittenOverruns(digest: Digest)
    ensures WriteDigest(DigestBufferAsWritten(9), digest).overrun == 23
    ensures forall shaLen: nat :: shaLen < SHA256_LEN ==> WriteDigest(DigestBufferAsWritten(shaLen), digest).overrun > 0
  {
  }

  /** The corrected buffer holds the whole digest, whatever the setting. */
  lemma DigestBufferHoldsDigest(shaLen: nat, digest: Digest)
    ensures WriteDigest(DigestBuffer(shaLen), digest).overrun == 0
    ensures WriteDigest(DigestBuffer(shaLen), digest).buffer[..SHA256_LEN] == digest
  {
  }

  /** The handler on one frame. */
  function Step(s: UpdState, sha: Hash, shaLen: nat, f: Frame): Reaction<UpdState>
    requires f.Valid()
  {
    var m := f.Msg();
    if m == FLASH_WRITE then
      var ota := if s.ota.sessionOpen then s.ota.(partition := s.ota.partition + f.data[..f.len]) else s.ota;
      Reaction(s.(ota := ota), [], true)
    else if m == AVAILABLE then
      Reaction(s, if f.request then [Out(AVAILABLE, [AvailableCode(s.updateMode)])] else [], true)
    else if m == RESTART then
      if f.data[0] == UPDATE_MODE then
        Reaction(UpdState(true, s.ota.(sessionOpen := true, partition := [])), [], true)
      else if s.updateMode then
        Reaction(UpdState(false, s.ota.(sessionOpen := false, boot := NextUpdate, restarted := true)), [], true)
      else
        Reaction(UpdState(false, s.ota.(restarted := true)), [], true)
    else if m == FLASH_VERIFY then
      Reaction(s, if f.request then [Out(FLASH_VERIFY, VerifyReply(sha(s.ota.partition), shaLen))] else [], true)
    else
      Reaction(s, [], false)
  }

  /** The state after a sequence of frames, and everything sent meanwhile. */
  function Run(s: UpdState, sha: Hash, shaLen: nat, fs: seq<Frame>): Reaction<UpdState>
    requires forall i :: 0 <= i < |fs| ==> fs[i].Valid()
    decreases |fs|
  {
    if fs == [] then Reaction(s, [], false)
    else
      var a := Step(s, sha, shaLen, fs[0]);
      var rest := Run(a.state, sha, shaLen, fs[1..]);
      Reaction(rest.state, a.out + rest.out, rest.claimed)
  }

  /** The bytes a sequence of frames carries, in order. */
  function Payloads(fs: seq<Frame>): seq<bv8>
    requires forall i :: 0 <= i < |fs| ==> fs[i].Valid()
    decreases |fs|
  {
    if fs == [] then []
    else
      assert fs[0].Valid();
      fs[0].data[..fs[0].len] + Payloads(fs[1..])
  }

  predicate AllFlashWrites(fs: seq<Frame>) {
    forall i :: 0 <= i < |fs| ==> fs[i].Valid() && fs[i].Msg() == FLASH_WRITE
  }

  /** The `can_type` default that `init` installs. */
  function InitStore(m: Entries, constType: bv8): (r: Entries)
    ensures HasU8(r, KEY_CAN_TYPE)
    ensures HasU8(m, KEY_CAN_TYPE) ==> r == m
    ensures !HasU8(m, KEY_CAN_TYPE) ==> GetU8(r, KEY_CAN_TYPE) == constType
    ensures forall k :: k != KEY_CAN_TYPE ==> (k in r <==> k in m) && (k in m ==> r[k] == m[k])
  {
    if HasU8(m, KEY_CAN_TYPE) then m else SetU8(m, KEY_CAN_TYPE, constType)
  }

  // ---------------------------------------------------------------------
  // Properties
  // ---------------------------------------------------------------------

  /** The handler claims a frame exactly when its message id is one of its four. */
  lemma ClaimsExactly(s: UpdState, sha: Hash, shaLen: nat, f: Frame)
    requires f.Valid()
    ensures Step(s, sha, shaLen, f).claimed <==> Claims(f.Msg())
  {
  }

  /** An AVAILABLE remote frame is answered with one byte naming the running mode; a data frame gets no reply. */
  lemma AvailableAnswersMode(s: UpdState, sha: Hash, shaLen: nat, f: Frame)
    requires f.Valid() && f.Msg() == AVAILABLE
    ensures f.request ==>
      Step(s, sha, shaLen, f).out == [Out(AVAILABLE, [if s.updateMode then UPDATE_MODE else APPLICATION])]
    ensures !f.request ==> Step(s, sha, shaLen, f).out == []
    ensures Step(s, sha, shaLen, f).state == s
  {
  }

  /** RESTART with first byte 2 enters update mode with a fresh session and does not restart. */
  lemma RestartIntoUpdateMode(s: UpdState, sha: Hash, shaLen: nat, f: Frame)
    requires f.Valid() && f.Msg() == RESTART && f.data[0] == UPDATE_MODE
    ensures var t := Step(s, sha, shaLen, f).state;
      t.updateMode && t.ota.sessionOpen && t.ota.partition == [] &&
      t.ota.boot == s.ota.boot && t.ota.restarted == s.ota.restarted
  {
  }

  /**
   * Any other RESTART restarts; it switches the boot partition to the
   * written one exactly when the node was in update mode.
   */
  lemma RestartOtherwise(s: UpdState, sha: Hash, shaLen: nat, f: Frame)
    requires f.Valid() && f.Msg() == RESTART && f.data[0] != UPDATE_MODE
    ensures var t := Step(s, sha, shaLen, f).state;
      t.ota.restarted && !t.updateMode && t.ota.partition == s.ota.partition &&
      (s.updateMode ==> t.ota.boot == NextUpdate && !t.ota.sessionOpen) &&
      (!s.updateMode ==> t.ota.boot == s.ota.boot && t.ota.sessionOpen == s.ota.sessionOpen)
  {
  }

  /** FLASH_WRITE frames append their payloads to an open session in arrival order, with no offset check. */
  lemma {:induction false} FlashWritesAppend(s: UpdState, sha: Hash, shaLen: nat, fs: seq<Frame>)
    requires AllFlashWrites(fs) && s.ota.sessionOpen
    ensures Run(s, sha, shaLen, fs).state == s.(ota := s.ota.(partition := s.ota.partition + Payloads(fs)))
    ensures Run(s, sha, shaLen, fs).out == []
    decreases |fs|
  {
    if fs != [] {
      var a := Step(s, sha, shaLen, fs[0]);
      FlashWritesAppend(a.state, sha, shaLen, fs[1..]);
      assert s.ota.partition + Payloads(fs) == s.ota.partition + fs[0].data[..fs[0].len] + Payloads(fs[1..]);
    }
  }

  /** Without an open session, FLASH_WRITE frames are claimed and change nothing. */
  lemma {:induction false} FlashWritesIgnoredWithoutSession(s: UpdState, sha: Hash, shaLen: nat, fs: seq<Frame>)
    requires AllFlashWrites(fs) && !s.ota.sessionOpen
    ensures Run(s, sha, shaLen, fs).state == s
    decreases |fs|
  {
    if fs != [] {
      FlashWritesIgnoredWithoutSession(s, sha, shaLen, fs[1..]);
    }
  }

  /**
   * The whole update: entering update mode, writing an image in frames,
   * and asking for the checksum answers with the leading digest bytes of
   * exactly the bytes written.
   */
  lemma UpdateThenVerify(s: UpdState, sha: Hash, shaLen: nat, enter: Frame, fs: seq<Frame>, verify: Frame)
    requires enter.Valid() && enter.Msg() == RESTART && enter.data[0] == UPDATE_MODE
    requires AllFlashWrites(fs)
    requires verify.Valid() && verify.Msg() == FLASH_VERIFY && verify.request
    ensures var written := Run(Step(s, sha, shaLen, enter).state, sha, shaLen, fs).state;
      written.updateMode &&
      Step(written, sha, shaLen, verify).out == [Out(FLASH_VERIFY, VerifyReply(sha(Payloads(fs)), shaLen))]
  {
    var entered := Step(s, sha, shaLen, enter).state;
    FlashWritesAppend(entered, sha, shaLen, fs);
    assert [] + Payloads(fs) == Payloads(fs);
  }

  // ---------------------------------------------------------------------
  // The handler object
  // ---------------------------------------------------------------------

  class Update {
    /** The function-local statics `update_mode` and the OTA session. */
    var updateMode: bool
    var ota: Ota
    /** CONFIG_APP_RETRIEVE_LEN_ELF_SHA, the size of the digest buffer. */
    const shaLen: nat

    constructor (shaLen: nat, partition: seq<bv8>)
      ensures this.shaLen == shaLen
      ensures !updateMode && ota == Ota(false, partition, Running, false)
    {
      this.shaLen := shaLen;
      updateMode := false;
      ota := Ota(false, partition, Running, false);
    }

    function State(): UpdState
      reads this
    {
      UpdState(updateMode, ota)
    }

    /** Installs the compiled-in device type when the store holds none. */
    method Init(nvs: Nvs, constType: bv8)
      modifies nvs
      ensures nvs.entries == InitStore(old(nvs.entries), constType)
    {
      if !HasU8(nvs.entries, KEY_CAN_TYPE) {
        nvs.entries := SetU8(nvs.entries, KEY_CAN_TYPE, constType);
      }
    }

    /** `sha` is esp_partition_get_sha256 on the next-update partition, a function of its contents. */
    method Dispatch(f: Frame, sha: Hash) returns (claimed: bool, out: seq<Out>)
      requires f.Valid()
      modifies this
      ensures Reaction(State(), out, claimed) == Step(old(State()), sha, shaLen, f)
    {
      var m := f.Msg();
      out := [];
      if m == FLASH_WRITE {
        if ota.sessionOpen {
          ota := ota.(partition := ota.partition + f.data[..f.len]);
        }
        return true, out;
      } else if m == AVAILABLE {
        if f.request && !updateMode {
          out := [Out(AVAILABLE, [APPLICATION])];
        }
        if f.request && updateMode {
          out := [Out(AVAILABLE, [UPDATE_MODE])];
        }
        return true, out;
      } else if m == RESTART {
        if f.data[0] == UPDATE_MODE {
          updateMode := true;
          ota := ota.(sessionOpen := true, partition := []);
        } else {
          if updateMode {
            ota := ota.(sessionOpen := false, boot := NextUpdate, restarted := true);
          } else {
            ota := ota.(restarted := true);
          }
          updateMode := false;
        }
        return true, out;
      } else if m == FLASH_VERIFY {
        if f.request {
          var checksum := WriteDigest(DigestBuffer(shaLen), sha(ota.partition)).buffer;
          out := [Out(FLASH_VERIFY, checksum[..if shaLen < 8 then shaLen else 8])];
        }
        return true, out;
      }
      return false, out;
    }
  }
}
