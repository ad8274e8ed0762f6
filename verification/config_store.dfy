/**
 * The persisted key/value store ("storage" namespace of NVS) that the
 * identity handler and the updater read and write. A one-byte value is a
 * one-element sequence; a string value is its bytes without the
 * terminating zero. Every write is committed at once, so the map is the
 * durable state.
 */
module ConfigStore {

  const KEY_CAN_ID := "can_id"
  const KEY_CAN_TYPE := "can_type"
  const KEY_CAN_BITRATE := "can_bitrate"
  const KEY_HW_REV := "hw_rev"
  const KEY_LEG_SEN := "leg_sen"
  const KEY_CUSTOM_STRING := "custom_string"

  type Entries = map<string, seq<bv8>>

  /** nvs_get_u8 succeeds: the key holds a one-byte value. */
  predicate HasU8(m: Entries, key: string) {
    key in m && |m[key]| == 1
  }

  /**
   * The byte a caller reads with nvs_get_u8 into a zero-initialised
   * variable: the stored byte, or 0 when the key is absent.
   */
  function GetU8(m: Entries, key: string): (r: bv8)
    ensures HasU8(m, key) ==> r == m[key][0]
    ensures !HasU8(m, key) ==> r == 0
  {
    if HasU8(m, key) then m[key][0] else 0
  }

  function SetU8(m: Entries, key: string, b: bv8): (r: Entries)
    ensures HasU8(r, key) && GetU8(r, key) == b
    ensures forall k :: k != key ==> (k in r <==> k in m) && (k in m ==> r[k] == m[k])
  {
    m[key := [b]]
  }

  /** The store itself: one object, shared by the handlers that persist settings. */
  class Nvs {
    var entries: Entries

    constructor (initial: Entries)
      ensures entries == initial
    {
      entries := initial;
    }
  }
}
