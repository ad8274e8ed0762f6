# CAN-bus node protocol layer, modelled in Dafny

This project models the protocol layer of the building-automation node
firmware. The node talks on a CAN bus with 29-bit extended identifiers
(ISO 11898-1, CAN 2.0B). The model covers:

- **`Ican`** (`ican.dfy`): the identifier codec of `ICAN.hpp`. It has
  - the five field masks (NG, GROUP, TYPE, DEVICE_ID, MSG) and the field
    extractors;
  - the `*_COMPARE` predicates;
  - the device-type and bitrate enum/string tables;
  - the packed `RELAIS_MSG_t` payload;
  - the received-frame record and the `Reaction` a handler returns.
- **`CanBus`** (`can_bus.dfy`): the transport of `CAN.cpp`. It has
  - the receive filter of the receive task;
  - the 64-bit rx/tx counters;
  - the `UPDATE_SILENCE` latch;
  - the silence gate and the identifier composition of the symbolic
    `send`, and the raw `send`;
  - the alert report;
  - the dispatcher chain, in which the first handler that claims a frame
    stops the walk.

  The chain is a `seq` of handler objects in registration order: Update,
  then Device, then Relais. `Can.Dispatch` is proved to behave as the pure
  `ChainStep` says. Transmitted frames are an appended `log`.
- **`DeviceIdentity`** (`device.dfy`): `Device::dispatch`. It has
  - the UID-selection latch;
  - the UID-gated `DEVICE_ID_TYPE` write;
  - the "release/" strip of the version string;
  - the `REQUEST_PARAMETER` fan-out;
  - the persisted fields (bitrate, custom string, hardware revision,
    legacy-sensor mode).

  NVS is the `ConfigStore` map (`config_store.dfy`).
- **`ButtonFsm`** (`button.dfy`): the multi-click state machine of
  `Button.cpp`. The 250 ms one-shot timer is an `armed` flag, and its
  expiry is a call of `SendMulti`.
- **`Updater`** (`updater.dfy`): the OTA state machine of `Update.cpp`,
  plus the `can_type` default that `init` installs. The OTA session is an
  abstract record. The SHA digest is a function parameter applied to the
  partition contents.
- **`RelaisOutput`** (`relais.dfy`): the relay command decode of
  `Relais.cpp` and the channel guard of `state(bank, num, on)`, acting on
  an output array.
- **`RingLayout`**, **`TimeoutTable`**, **`MessageQueue`**, **`Messages`**
  (`ring_layout.dfy`, `timeout_table.dfy`, `message_queue.dfy`,
  `message.dfy`): the deferred-message queue of `Queue.hpp` and the `send`
  and `deliver` of `Message.hpp`.
  - The untimed side is a byte ring of records. Each record is a 4-byte
    size header and a message image, and 0xFF pads the end of the ring
    before a record that would cross it.
  - The timed side is a slot table over a second buffer. It has
    first-free-slot allocation, cancellation by id, expiry and compaction.
  - Each imperative method is proved against a pure function of the old
    state. The lemmas about those functions state what the queue
    promises: FIFO order of unread messages, the pending delayed
    messages, and so on.

Where a handler calls `m_can.send` during its `dispatch`, the model
returns the sends as a sequence of `Out` values instead. `Can` then sends
them in order through its own silence-gated `Send`. This has the same
effect, because `send` touches only the transmit log and counter, and no
handler reads either.

## Model

| member | source | states |
|---|---|---|
| Ican.MasksPartitionIdentifier | software/main/ICAN.hpp:275-279 | the five masks are pairwise disjoint and together cover exactly the 29 identifier bits 0x1FFFFFFF |
| Ican.GetGroup | software/main/ICAN.hpp:281-284 | the group is below 64 and, shifted back, is exactly the identifier's group bits |
| Ican.GetType | software/main/ICAN.hpp:286-289 | the type is below 64 and, shifted back, is exactly the identifier's type bits |
| Ican.GetId | software/main/ICAN.hpp:301-304 | the device id is below 256 and, shifted back, is exactly the identifier's id bits |
| Ican.GetNotMsg | software/main/ICAN.hpp:311-314 | clears exactly the message byte; or-ing the message bits back gives the identifier |
| Ican.GetMsg | software/main/ICAN.hpp:306-309 | `GET_NOT_MSG(id) \| GET_MSG(id) == id` |
| Ican.NotMsgHasNoMessage | software/main/ICAN.hpp:306-314 | `GET_MSG(GET_NOT_MSG(id)) == 0`, and `GET_NOT_MSG` is idempotent |
| Ican.FieldsReassemble | software/main/ICAN.hpp:275-309 | NG, group, type, id and message, shifted back and or-ed, rebuild the identifier |
| Ican.TypeToId | software/main/ICAN.hpp:291-294 | the result lies inside the type mask, and `GET_TYPE` of it is `t & 0x3F` |
| Ican.DidToId | software/main/ICAN.hpp:296-299 | the result lies inside the id mask, and `GET_ID` of it is the device id |
| Ican.TypeCompare | software/main/ICAN.hpp:316-319 | holds only for NG identifiers, and never for a type of 64 or more (the field has 6 bits) |
| Ican.IdCompare | software/main/ICAN.hpp:321-324 | holds only for NG identifiers |
| Ican.MsgCompare | software/main/ICAN.hpp:326-329 | holds only for NG identifiers |
| Ican.CompareNeedsNg | software/main/ICAN.hpp:316-329 | with the NG bit clear, all three comparisons are false |
| Ican.DeviceTypeOf | software/main/ICAN.hpp:160-191 | a name outside the seven known ones maps to `Unknown`; a known name maps to the type whose name it is |
| Ican.DeviceTypeRoundTrip | software/main/ICAN.hpp:160-215 | `device_type(device_string(d)) == d` for every device type |
| Ican.DeviceTypeFitsField | software/main/ICAN.hpp:109-119 | every device-type code survives `TYPE_TO_ID` followed by `GET_TYPE` |
| Ican.BitrateOfRate | software/main/ICAN.hpp:254-273 | 22222/25000/50000/100000 map to the rate with that many bit/s; anything else maps to `BITRATE_50` |
| Ican.BitrateRateRoundTrip | software/main/ICAN.hpp:17-23 | each of the four bitrates maps back from its rate |
| Ican.BitrateOfName | software/main/ICAN.hpp:233-252 | a known name maps to the bitrate with that name; any other maps to `BITRATE_50` |
| Ican.BitrateNameRoundTrip | software/main/ICAN.hpp:217-252 | `bitrate(bitrate_string(b)) == b` for all four bitrates |
| Ican.ZeroFill | software/main/Relais.cpp:55-62 | a zeroed buffer of the given size with the source bytes copied in front; missing bytes read 0 |
| Ican.Le32RoundTrip | software/main/CAN.cpp:47-50 | the little-endian 4-byte encoding of a 32-bit word decodes to it, and any 4 bytes are the encoding of what they decode to |
| Ican.EncodeRelais | software/main/ICAN.hpp:127-136 | 8 bytes: number in byte 0, state in byte 1, bank in byte 5 |
| Ican.DecodeRelais | software/main/ICAN.hpp:127-136 | number, state and bank are read from bytes 0, 1 and 5 |
| Ican.RelaisLayoutRoundTrip | software/main/ICAN.hpp:127-136 | encoding and decoding the packed relay struct are inverse, both ways |
| CanBus.Count64IsMod | software/main/CAN.cpp:246-254 | `n` increments of a 64-bit counter leave it at `n mod 2^64` |
| CanBus.AcceptsExactly | software/main/CAN.cpp:32-38 | with the filter off every frame is dispatched; with it on, exactly the NG frames addressed to id 0, or to this id with this type; a non-NG frame never is |
| CanBus.WideTypeTakesOnlyBroadcasts | software/main/CAN.cpp:32-38 | a node whose type does not fit in 6 bits receives only id-0 frames when filtering |
| CanBus.ComposeFields | software/main/CAN.cpp:167-168 | the composed identifier is NG and fits in 29 bits; `GET_MSG` and `GET_ID` recover message and id; `GET_TYPE` equals the type iff it is below 64, and the rest spills into the group |
| CanBus.Transmit | software/main/CAN.cpp:161-169 | the frames the symbolic sends put on the wire, never more than the requests |
| CanBus.TransmitAppend | software/main/CAN.cpp:161-169 | sending two runs of requests transmits the two runs' frames one after the other |
| CanBus.TransmitUnsilenced | software/main/CAN.cpp:161-169 | unsilenced, every request is sent, in order, under the composed identifier with its payload |
| CanBus.TransmitAllSilenced | software/main/CAN.cpp:163-166 | silenced, requests with message ids above FLASH_VERIFY transmit nothing |
| CanBus.TransmitSilenced | software/main/CAN.cpp:163-168 | silenced, every request up to FLASH_VERIFY still goes out, and nothing above it does |
| CanBus.AlertReport | software/main/CAN.cpp:43-51 | 8 bytes: COMPONENT_CAN, three zeros, then the alert word little-endian |
| CanBus.Offer | software/main/CAN.cpp:151-157 | one handler's answer keeps it valid and of its kind, and claims exactly the message ids that handler owns |
| CanBus.FirstClaim | software/main/CAN.cpp:151-157 | the index of the first handler that owns the message id, or the chain's length when none does |
| CanBus.ChainStepIsChain | software/main/CAN.cpp:151-158 | the chain step equals the chain over the handlers' individual answers |
| CanBus.FirstClaimedIsFirstClaim | software/main/CAN.cpp:151-157 | the first answer that claims the frame comes from the first handler that owns its id |
| CanBus.ChainFirstClaimWins | software/main/CAN.cpp:151-158 | handlers up to and including the first claimant run, later ones keep their state; their sends are concatenated in order; the chain claims iff some answer claims |
| CanBus.ChainStepFirstClaimWins | software/main/CAN.cpp:151-158 | the chain claims iff some handler owns the message id; state and sends are those of the handlers up to the first owner |
| CanBus.ChainStepStates | software/main/CAN.cpp:151-157 | each handler after the first owner keeps its state |
| CanBus.ChainStepClaimed | software/main/CAN.cpp:151-158 | the chain claims iff the first owner exists |
| CanBus.EmptyChainClaimsNothing | software/main/CAN.cpp:158 | an empty chain returns false, sends nothing and changes nothing |
| CanBus.OfferUnclaimedKeeps | software/main/CAN.cpp:151-157 | a handler that does not own the frame's id changes nothing and sends nothing |
| CanBus.NodeChainRouting | software/main/CAN.cpp:137-159 | in the Update, Device, Relais chain a RELAIS frame reaches the relay alone; a frame the updater or the identity handler owns never reaches the relay |
| CanBus.NodeChainRelais | software/main/CAN.cpp:151-157 | a RELAIS frame is claimed by the relay, which applies it; the updater and the identity handler stay as they were |
| CanBus.NodeChainShields | software/main/CAN.cpp:151-157 | a frame owned by the updater or the identity handler leaves the relay unchanged |
| CanBus.Parts | software/main/CAN.cpp:151 | the handler states of the chain, one per registered handler |
| CanBus.Can.constructor | software/main/CAN.cpp:59-64 | filter and silence off, id and type 0xFF, both counters 0, no handlers, nothing sent |
| CanBus.Can.Configure | software/main/CAN.cpp:32-35 | installs the filter flag, id and type the receive path uses; nothing else changes |
| CanBus.Can.AddDispatcher | software/main/CAN.cpp:137-140 | appends the handler to the chain; nothing else changes |
| CanBus.Can.SendRaw | software/main/CAN.cpp:171-191 | never silenced: appends exactly one frame with the given identifier, payload and request flag, and counts it |
| CanBus.Can.Send | software/main/CAN.cpp:161-169 | silenced and above FLASH_VERIFY: nothing is sent and the counter stays; otherwise one frame under the composed identifier, counted |
| CanBus.Can.SendAll | software/main/CAN.cpp:161-169 | the log grows by exactly the frames `Transmit` gives for the requests |
| CanBus.Can.Dispatch | software/main/CAN.cpp:142-159 | counts the frame once; latches silence from `data[0]` on UPDATE_SILENCE before any handler runs; then the claim, the handler states and the log are as `ChainStep` gives |
| CanBus.Can.Walk | software/main/CAN.cpp:151-158 | the loop over the chain stops after the first claimant; handler states and log as `ChainFirstClaimWins` describes |
| CanBus.Can.Visit | software/main/CAN.cpp:153-156 | one iteration: handler `i` answers and its requests are sent; nothing else changes |
| CanBus.Can.OfferAt | software/main/CAN.cpp:153 | handler `i` takes its answer's state; every other handler is unchanged |
| CanBus.OfferTo | software/main/CAN.cpp:153 | calling a registered handler's `dispatch` does what `Offer` says of its state |
| ConfigStore.GetU8 | software/main/Device.cpp:151-153 | the stored byte for a one-byte entry, 0 (the caller's zeroed default) otherwise |
| ConfigStore.SetU8 | software/main/Device.cpp:160-162 | the key afterwards holds the byte; every other key is unchanged |
| ConfigStore.Nvs.constructor | software/main/Device.cpp:145-146 | the store starts with the given entries |
| DeviceIdentity.VersionReply | software/main/Device.cpp:50-80 | at most 8 bytes: the first `min(len, 8)` bytes of the version with any leading "release/" removed |
| DeviceIdentity.ReleaseVersionStripped | software/main/Device.cpp:62-69 | a "release/" version is answered with the bytes after the prefix, cut to 8 |
| DeviceIdentity.SelectsUid | software/main/Device.cpp:120-140 | the byte loop selects exactly when the payload is the chip id or all zero |
| DeviceIdentity.CString | software/main/Device.cpp:186-191 | the bytes of a buffer before its first zero, none of them zero |
| DeviceIdentity.CustomReply | software/main/Device.cpp:172-181 | never more than 8 bytes; a stored string is sent with its terminator, cut to 8; an absent key gives 8 zero bytes |
| DeviceIdentity.CustomStringRoundTrip | software/main/Device.cpp:168-196 | writing a zero-free payload and then asking for the custom string answers with the payload and its terminator, cut to 8 |
| DeviceIdentity.CStringOfZeroFill | software/main/Device.cpp:184-190 | a zero-free payload copied into a longer zeroed buffer reads back as itself |
| DeviceIdentity.SubFrame | software/main/Device.cpp:29-37 | the re-dispatched frame keeps the upper 24 identifier bits, the payload and the request flag, with the given message byte |
| DeviceIdentity.ClaimsExactly | software/main/Device.cpp:25-260 | the handler claims a frame exactly when its message id is one of the ten it handles; REQUEST_PARAMETER is not claimed |
| DeviceIdentity.FanOutNeverClaims | software/main/Device.cpp:27-39 | the fan-out returns false |
| DeviceIdentity.FanOutOfRequest | software/main/Device.cpp:27-39 | a remote REQUEST_PARAMETER changes nothing and sends one reply per sub-request, in the fixed order |
| DeviceIdentity.AnswerOfRequest | software/main/Device.cpp:40-256 | a remote frame for one of the handler's ids gets exactly one reply with that id, and changes nothing |
| DeviceIdentity.RequestParameterReplies | software/main/Device.cpp:27-39 | REQUEST_PARAMETER as a remote frame replies with version, UID0, UID1, custom string, uptime, bitrate, hardware revision and legacy mode, in that order, unclaimed |
| DeviceIdentity.RequestParameterDataFrameWrites | software/main/Device.cpp:27-39 | a one-byte REQUEST_PARAMETER data frame is passed on as a data frame, so it stores its byte as hardware revision and as legacy mode |
| DeviceIdentity.DeviceGroupAnswersZero | software/main/Device.cpp:40-48 | DEVICE_GROUP is claimed and changes nothing; a remote frame gets a single zero byte |
| DeviceIdentity.IdTypeNeedsSelection | software/main/Device.cpp:82-105 | without a prior selection, DEVICE_ID_TYPE changes nothing |
| DeviceIdentity.SelectThenReaddress | software/main/Device.cpp:82-142 | a UID frame with the chip id or all zeros, then a two-byte DEVICE_ID_TYPE write, stores the type, and the id unless it is 0, in which case the stored id keeps its value; no other key changes |
| DeviceIdentity.IdTypeOtherLengthKeeps | software/main/Device.cpp:91-104 | a DEVICE_ID_TYPE data frame of any length other than 2 is claimed and changes nothing, even with the latch set |
| DeviceIdentity.ForeignUidDeselects | software/main/Device.cpp:118-141 | an 8-byte UID payload that is neither the chip id nor all zero clears the latch, leaves the store, and is claimed without a reply |
| DeviceIdentity.UidOtherLengthKeeps | software/main/Device.cpp:118-141 | a UID data frame of any length other than 8 is claimed and leaves latch and store as they were |
| DeviceIdentity.BaudrateStoredOrAnswered | software/main/Device.cpp:143-167 | a remote frame gets the stored bitrate byte (0 if none); a data frame stores its byte iff it is one byte long and non-zero |
| DeviceIdentity.StoredByteAnswered | software/main/Device.cpp:217-256 | a one-byte data frame stores its byte first; every HW_REV or SENSOR_LEGACY_MODE frame is answered with the stored byte |
| DeviceIdentity.UnknownIdIgnored | software/main/Device.cpp:257-260 | an unknown id returns false with no reply and no effect |
| DeviceIdentity.UptimeReplyDecodes | software/main/Device.cpp:197-216 | the one uptime reply decodes, little-endian, to the minutes given |
| DeviceIdentity.Device.constructor | software/main/Device.cpp:24 | the selection latch starts cleared |
| DeviceIdentity.Device.ChipId | software/main/Device.cpp:111-112 | the MAC read into a zeroed 8-byte buffer |
| DeviceIdentity.Device.Dispatch | software/main/Device.cpp:22-261 | the handler's claim, sends, latch and store are those `Step` gives for the old state |
| DeviceIdentity.Device.RequestParameters | software/main/Device.cpp:27-39 | the eight direct re-dispatches together do what the fan-out gives |
| DeviceIdentity.Device.ForwardFirst | software/main/Device.cpp:29-32 | the first four re-dispatches do what the fan-out's first four steps give |
| DeviceIdentity.Device.ForwardRest | software/main/Device.cpp:34-37 | the last four re-dispatches complete the fan-out |
| DeviceIdentity.Device.Forward | software/main/Device.cpp:29-37 | one re-dispatch adds the next step of the fan-out |
| DeviceIdentity.Device.Respond | software/main/Device.cpp:40-260 | every id other than REQUEST_PARAMETER is handled as `Answer` gives |
| ButtonFsm.CounterNext | software/main/Button.cpp:67 | the byte-wise increment of the packed counter is the 16-bit `count++` |
| ButtonFsm.Payload | software/main/Button.hpp:26-38 | 4 bytes: identifier, then state |
| ButtonFsm.PayloadCount | software/main/Button.hpp:26-38 | bytes 2 and 3, little-endian, are the count |
| ButtonFsm.StepConsistent | software/main/Button.cpp:17-74 | every driver event keeps the timer armed exactly in SINGLE and DOUBLE, never leaves TRIPPLE behind, keeps the identifier, and sends at most one BUTTON_EVENT for this button |
| ButtonFsm.ExpireReportsClick | software/main/Button.cpp:76-80 | timer expiry reports SINGLE or DOUBLE, the current state, and rests in RELEASED |
| ButtonFsm.PressOnlyFromRest | software/main/Button.cpp:23-30 | a press acts only in RELEASED: it goes to PRESSED with count 0 and reports `{id, 1, 0, 0}`; elsewhere it is ignored |
| ButtonFsm.ReleaseTransitions | software/main/Button.cpp:31-59 | PRESSED goes to SINGLE and SINGLE to DOUBLE, silently, timer restarted; DOUBLE reports TRIPPLE (5) and rests; HOLD reports RELEASED (0); at rest nothing happens |
| ButtonFsm.HoldCounts | software/main/Button.cpp:60-70 | a long press or click in PRESSED or HOLD goes to HOLD, counts up by one in 16 bits and reports; elsewhere it is ignored |
| ButtonFsm.HoldCountWraps | software/main/Button.cpp:67 | counting past 0xFFFF reports count 0 |
| ButtonFsm.RunCons | software/main/Button.cpp:17-74 | a run of events is the first event followed by the rest |
| ButtonFsm.RunConsistent | software/main/Button.cpp:17-80 | the timer-state invariant and the identifier survive any run of events |
| ButtonFsm.SingleClick | software/main/Button.cpp:23-39 | press and release report PRESSED and arm the timer; its expiry reports SINGLE |
| ButtonFsm.DoubleClick | software/main/Button.cpp:23-45 | two clicks report PRESSED only; the expiry reports DOUBLE |
| ButtonFsm.TripleClick | software/main/Button.cpp:23-52 | three clicks report PRESSED, then TRIPPLE at once, and leave the button at rest with the timer stopped |
| ButtonFsm.PressAndHold | software/main/Button.cpp:23-70 | press, two long presses and release report PRESSED, HOLD 1, HOLD 2, then RELEASED with count 2 |
| ButtonFsm.RunOnlyEvents | software/main/Button.cpp:28-78 | everything a button sends is a BUTTON_EVENT |
| ButtonFsm.SilencedButtonsSendNothing | software/main/CAN.cpp:163-166 | while the bus is silenced, no button event reaches the wire (BUTTON_EVENT is above FLASH_VERIFY) |
| ButtonFsm.Button.constructor | software/main/Button.cpp:82-84 | a zeroed record: identifier 0, RELEASED, count 0, no timer |
| ButtonFsm.Button.Init | software/main/Button.cpp:86-110 | a connected button takes its identifier, rests and stops the timer; an unconnected one is left alone |
| ButtonFsm.Button.Report | software/main/Button.cpp:28 | sends the record as one BUTTON_EVENT through the transport |
| ButtonFsm.Button.Dispatch | software/main/Button.cpp:17-74 | record and sends as `Step` gives |
| ButtonFsm.Button.OnPressed | software/main/Button.cpp:23-30 | record and sends as `PressStep` gives |
| ButtonFsm.Button.OnReleased | software/main/Button.cpp:31-59 | record and sends as `ReleaseStep` gives |
| ButtonFsm.Button.OnHeld | software/main/Button.cpp:60-70 | record and sends as `HoldStep` gives |
| ButtonFsm.Button.SendMulti | software/main/Button.cpp:76-80 | record and sends as `Expire` gives |
| Updater.AvailableCode | software/main/Update.cpp:49-59 | UPDATE_MODE in update mode, APPLICATION otherwise, never NOT_READY |
| Updater.WriteDigest | software/main/Update.cpp:94-95 | the zeroed buffer holds the digest's leading bytes; the write runs past its end exactly when the buffer is shorter than the 32-byte digest, by the difference |
| Updater.DigestBuffer | software/main/Update.cpp:94 | corrected: the buffer is at least as long as the setting and as the digest |
| Updater.DigestBufferAsWrittenOverruns | software/main/Update.cpp:94-95 | as declared, any setting below 32 makes the digest write run past the buffer; a setting of 9 by 23 bytes |
| Updater.DigestBufferHoldsDigest | software/main/Update.cpp:94-95 | the corrected buffer takes the whole digest with nothing past its end |
| Updater.VerifyReply | software/main/Update.cpp:94-96 | `min(SHA_LEN, 8)` bytes: exactly the digest's leading bytes |
| Updater.InitStore | software/main/Update.cpp:15-26 | afterwards `can_type` is set; an existing value is kept, an absent one becomes the compiled-in type; no other key changes |
| Updater.ClaimsExactly | software/main/Update.cpp:39-106 | claims exactly FLASH_WRITE, AVAILABLE, RESTART and FLASH_VERIFY |
| Updater.AvailableAnswersMode | software/main/Update.cpp:47-61 | a remote AVAILABLE gets one byte naming the mode; a data frame gets none; nothing changes |
| Updater.RestartIntoUpdateMode | software/main/Update.cpp:65-70 | RESTART with byte 2 enters update mode with a fresh session and does not restart |
| Updater.RestartOtherwise | software/main/Update.cpp:71-86 | any other RESTART restarts and leaves update mode; it switches the boot partition to the written one exactly when in update mode |
| Updater.FlashWritesAppend | software/main/Update.cpp:41-45 | FLASH_WRITE frames append their payloads to an open session in arrival order, with no offset check, and send nothing |
| Updater.FlashWritesIgnoredWithoutSession | software/main/Update.cpp:41-45 | without an open session FLASH_WRITE frames are claimed and change nothing |
| Updater.UpdateThenVerify | software/main/Update.cpp:41-102 | enter update mode, write frames, then FLASH_VERIFY: the reply holds the leading digest bytes of exactly the bytes written |
| Updater.Update.constructor | software/main/Update.cpp:33-35 | not in update mode, no session, running partition booted |
| Updater.Update.Init | software/main/Update.cpp:15-29 | the store afterwards is `InitStore` of the store before |
| Updater.Update.Dispatch | software/main/Update.cpp:31-107 | the claim, the sends and the new mode and session are those `Step` gives |
| RelaisOutput.Command | software/main/Relais.cpp:50-62 | the command is the payload copied into a zeroed 8-byte struct: number, state and bank are bytes 0, 1 and 5 when present, else 0 |
| RelaisOutput.Drive | software/main/Relais.cpp:31-36 | only channel `num` changes, to `on`, and only when `num < 7` |
| RelaisOutput.ApplyTouchesOneChannel | software/main/Relais.cpp:43-74 | other ids and remote frames change nothing; a command changes at most the channel it names |
| RelaisOutput.CommandDrivesChannel | software/main/Relais.cpp:64-73 | a full command to channel < 7 sets it on iff its state byte is non-zero |
| RelaisOutput.ShortCommandSwitchesOff | software/main/Relais.cpp:55-71 | a one-byte command has a zero state byte and switches its channel off |
| RelaisOutput.OutOfRangeChannelIgnored | software/main/Relais.cpp:31-36 | a channel number of 7 or more leaves every output as it was |
| RelaisOutput.Relais.constructor | software/main/Relais.cpp:12-28 | the seven output pins, starting low |
| RelaisOutput.Relais.SetState | software/main/Relais.cpp:31-36 | the outputs afterwards are `Drive` of the outputs before |
| RelaisOutput.Relais.Dispatch | software/main/Relais.cpp:43-74 | claims exactly RELAIS frames; the outputs afterwards are `Apply` of the outputs before |
| RingLayout.HeaderRoundTrip | software/main/message/include/message/Queue.hpp:57-58 | a 32-bit size stored low byte first reads back as itself |
| RingLayout.WordRoundTrip | software/main/message/include/message/Queue.hpp:112 | any 4 stored bytes are the encoding of the value they hold |
| RingLayout.Pad | software/main/message/include/message/Queue.hpp:44-55 | the padding is the rest of the ring and ends at index 0 when the record would cross the end, and 0 when it fits |
| RingLayout.EnoughSpaceBounds | software/main/message/include/message/Queue.hpp:19-23 | the corrected check implies the header and message fit in the ring, and implies the check as written |
| RingLayout.Reserve | software/main/message/include/message/Queue.hpp:37-64 | the ring after `alloc`: 0xFF padding to the end when needed, then the size header |
| RingLayout.Padded | software/main/message/include/message/Queue.hpp:44-55 | the padding loop writes 0xFF from the write index to the end exactly when the record would cross it |
| RingLayout.Place | software/main/message/include/message/Message.hpp:80 | the constructor writes the image at the address, and nothing else changes |
| RingLayout.AddressFits | software/main/message/include/message/Queue.hpp:57-63 | the address `alloc` returns leaves room for the message before the end |
| RingLayout.ReservePlaceRecord | software/main/message/include/message/Queue.hpp:37-64 | `alloc` and the constructor leave a well-formed record at the write position |
| RingLayout.ReservePlaceAgree | software/main/message/include/message/Queue.hpp:37-64 | when the corrected check admits the record, `alloc` and the constructor leave every unread byte alone |
| RingLayout.LayoutFrame | software/main/message/include/message/Queue.hpp:101-121 | the unread records survive any change outside the unread positions |
| RingLayout.LayoutAppend | software/main/message/include/message/Queue.hpp:37-64 | a record written at `write` becomes the newest unread message |
| RingLayout.SendAppends | software/main/message/include/message/Message.hpp:76-85 | an admitted untimed send keeps every unread message and appends the new one, oldest first |
| RingLayout.Skip | software/main/message/include/message/Queue.hpp:107-110 | corrected: the reader never starts a header with fewer than 4 bytes before the end |
| RingLayout.HeaderAt | software/main/message/include/message/Queue.hpp:107-116 | the reader's header position lies whole inside the ring |
| RingLayout.PadWord | software/main/message/include/message/Queue.hpp:113 | four pad bytes read as 0xFFFFFFFF |
| RingLayout.ReaderFindsRecord | software/main/message/include/message/Queue.hpp:107-121 | at a record, the reader finds its header, reads its size, and the bytes after it are exactly the message |
| RingLayout.NextRecord | software/main/message/include/message/Queue.hpp:101-124 | the reader delivers the oldest unread message and stops where its record ends |
| RingLayout.LayoutRest | software/main/message/include/message/Queue.hpp:101-124 | past the oldest record lie the records of the rest, in order |
| RingLayout.EnoughSpaceAsWrittenOverwrites | software/main/message/include/message/Queue.hpp:19-23 | as written, `enoughSpace` admits a 6-byte message whose header overwrites the one unread record, and a 14-byte message that does not fit in an empty 16-byte ring |
| RingLayout.SkipAsWrittenOverruns | software/main/message/include/message/Queue.hpp:107-110 | as written, with 2 bytes left the skip does not move and the 4-byte header read runs past the end; the corrected skip finds the record |
| TimeoutTable.FirstFree | software/main/message/include/message/Queue.hpp:70-72 | every slot before it is active, and it is free, or it is the table's length when none is |
| TimeoutTable.PackedSorted | software/main/message/include/message/Queue.hpp:135-164 | a packed table holds its images in slot order, disjoint, below `writeTimeout` |
| TimeoutTable.PackedFreeTail | software/main/message/include/message/Queue.hpp:25-35 | in a packed table every slot from the first free one on is free, and the images end at `writeTimeout` |
| TimeoutTable.AllocAppends | software/main/message/include/message/Queue.hpp:66-89 | an admitted timed `alloc` and construction keep the table packed and append the new entry (image, deadline, id) to the pending ones |
| TimeoutTable.AllocPacked | software/main/message/include/message/Queue.hpp:70-80 | filling the first free slot at `writeTimeout` and advancing it keeps the table packed |
| TimeoutTable.AllocEntries | software/main/message/include/message/Queue.hpp:66-89 | the pending entries afterwards are the old ones and then the new one |
| TimeoutTable.Expire | software/main/message/include/message/Queue.hpp:170-181 | the scan keeps the table's length |
| TimeoutTable.DueImagesExpired | software/main/message/include/message/Queue.hpp:170-181 | the scan delivers the images of exactly the entries whose deadline is before `now`, in slot order |
| TimeoutTable.ExpiredStep | software/main/message/include/message/Queue.hpp:171-173 | an entry is expired exactly when its deadline is before `now`, and remains otherwise |
| TimeoutTable.ExpireKeepsRemaining | software/main/message/include/message/Queue.hpp:170-181 | the scan frees exactly the due slots: what stays pending are the other entries, in order |
| TimeoutTable.Cancel | software/main/message/include/message/Queue.hpp:189-205 | the scan keeps the table's length |
| TimeoutTable.CancelRemovesId | software/main/message/include/message/Queue.hpp:198-205 | cancelling by a non-zero id leaves pending exactly the entries with another id, in order |
| TimeoutTable.Cleared | software/main/message/include/message/Queue.hpp:141-145 | every slot is marked free; addresses, ids and deadlines stay |
| TimeoutTable.Compacted | software/main/message/include/message/Queue.hpp:147-163 | after `k` visits, `writeTimeout` is the sum of the active sizes among the first `k` old slots |
| TimeoutTable.CompactedKeeps | software/main/message/include/message/Queue.hpp:147-163 | the copy loop's invariant holds after every visit |
| TimeoutTable.CompactKeepsEntries | software/main/message/include/message/Queue.hpp:135-164 | corrected `defragment` packs the active images from offset 0 in slot order, keeping each entry's bytes, deadline and id; the table comes out packed |
| TimeoutTable.TimeoutsLeaveRemaining | software/main/message/include/message/Queue.hpp:166-187 | `checkTimeouts` keeps exactly the entries not yet due, in order, and leaves the table packed; with nothing due it changes nothing |
| TimeoutTable.CancelThenCompact | software/main/message/include/message/Queue.hpp:189-212 | when the scan frees anything, `cancelTimeouts` is the scan followed by a compaction |
| TimeoutTable.CancelZero | software/main/message/include/message/Queue.hpp:192-196 | `cancelTimeouts(0)` changes nothing |
| TimeoutTable.CancelLeavesOthers | software/main/message/include/message/Queue.hpp:189-212 | `cancelTimeouts` keeps exactly the entries with another id (all of them for id 0), in order, packed; with no match it changes nothing |
| TimeoutTable.CancelThenPlace | software/main/message/include/message/Message.hpp:52-75 | a timed send drops the entries with its non-zero id, then appends the new one exactly when `enoughTimeoutSpace` admits it |
| TimeoutTable.DefragmentDropsId | software/main/message/include/message/Queue.hpp:157-159 | as written, compaction moves an entry into a slot without its id: the message sent with id 5 afterwards carries id 7 |
| TimeoutTable.DefragmentKeepsId | software/main/message/include/message/Queue.hpp:135-164 | the same table compacted with the id copied keeps id 5 and every pending entry |
| MessageQueue.Queue.constructor | software/main/message/include/message/Queue.hpp:17 | both buffers zeroed, every slot free, all counters 0, nothing unread or pending |
| MessageQueue.Queue.EnoughSpace | software/main/message/include/message/Queue.hpp:19-23 | corrected: admits a message iff its record with padding fits in the part of the ring already read |
| MessageQueue.Queue.EnoughTimeoutSpace | software/main/message/include/message/Queue.hpp:25-35 | the slot loop answers iff some slot is free and the image fits after `writeTimeout` |
| MessageQueue.Queue.Alloc | software/main/message/include/message/Queue.hpp:37-64 | the padding loop and header write leave the ring as `Reserve` gives; `write` moves past the record; the address is just after the header |
| MessageQueue.Queue.Construct | software/main/message/include/message/Message.hpp:80 | the image is written at the address |
| MessageQueue.Queue.AllocTimed | software/main/message/include/message/Queue.hpp:66-89 | with a free slot: the first one takes address `writeTimeout`, the size, id and deadline (16-bit fields), and `writeTimeout` advances by the size; with none nothing changes |
| MessageQueue.Queue.ConstructTimed | software/main/message/include/message/Message.hpp:65 | the image is written at the slot's address |
| MessageQueue.Queue.WriteBackSize | software/main/message/include/message/Message.hpp:71 | the slot's size is set to the allocated length |
| MessageQueue.Queue.IncLevel | software/main/message/include/message/Queue.hpp:96-99 | `level` grows by one, with the new message the newest unread |
| MessageQueue.Queue.Deliver | software/main/message/include/message/Message.hpp:86-89 | the image is handed over once |
| MessageQueue.Queue.Dispatch | software/main/message/include/message/Queue.hpp:101-128 | with `level > 0` the oldest unread message is delivered, `level` drops by exactly one and `read` passes its record; with `level == 0` nothing untimed happens; then the due delayed messages are delivered and only the rest stay pending |
| MessageQueue.Queue.DeliverIfUnread | software/main/message/include/message/Queue.hpp:103-125 | the untimed half: delivers the oldest unread message iff there is one |
| MessageQueue.Queue.DeliverNext | software/main/message/include/message/Queue.hpp:107-124 | delivers the oldest unread message, and moves `read` to where its record ends |
| MessageQueue.Queue.Locate | software/main/message/include/message/Queue.hpp:107-117 | finds the header past skip and padding; the bytes after it are the oldest message |
| MessageQueue.Queue.Defragment | software/main/message/include/message/Queue.hpp:135-164 | corrected: the table afterwards is `Compact` of the table before, with the id copied |
| MessageQueue.Queue.ClearSizes | software/main/message/include/message/Queue.hpp:141-145 | every slot is marked free |
| MessageQueue.Queue.PackImages | software/main/message/include/message/Queue.hpp:147-163 | the copy loop builds the compacted table |
| MessageQueue.Queue.PackSlot | software/main/message/include/message/Queue.hpp:149-162 | one visit of the copy loop |
| MessageQueue.Queue.CheckTimeouts | software/main/message/include/message/Queue.hpp:166-187 | delivers the images of exactly the due entries, in slot order; the rest stay pending, packed |
| MessageQueue.Queue.ExpireScan | software/main/message/include/message/Queue.hpp:168-181 | the scan frees the due slots, delivers their images, and reports whether any was due |
| MessageQueue.Queue.CancelTimeouts | software/main/message/include/message/Queue.hpp:189-212 | the pending entries afterwards are those kept by the id; the table stays packed |
| MessageQueue.Queue.CancelScan | software/main/message/include/message/Queue.hpp:198-206 | the scan frees the slots carrying the id and reports whether any did |
| Messages.EventOf | software/main/message/include/message/Message.hpp:14-24 | codes 0 to 7 name the events in declaration order; other codes name none |
| Messages.EventCodeRoundTrip | software/main/message/include/message/Message.hpp:14-24 | each event's code names it |
| Messages.DecodeEncode | software/main/message/include/message/Message.hpp:42-50 | a message's image decodes to the message |
| Messages.EncodeDecode | software/main/message/include/message/Message.hpp:42-50 | an image that decodes is the image of what it decodes to |
| Messages.Deliver | software/main/message/include/message/Message.hpp:86-89 | an image is handed over iff it decodes, to the receiver it names |
| Messages.DeliverToOwnReceiver | software/main/message/include/message/Message.hpp:86-89 | a delivered message goes to its own receiver, unchanged |
| Messages.HandoversOfSent | software/main/message/include/message/Message.hpp:86-89 | delivering the images of sent messages calls each one's own receiver, once per image, in order |
| Messages.Send | software/main/message/include/message/Message.hpp:76-85 | when the corrected `enoughSpace` admits it, the message becomes the newest unread and `level` grows by one; otherwise the queue is unchanged |
| Messages.SendTimed | software/main/message/include/message/Message.hpp:52-75 | a non-zero id first cancels its pending messages; then the image is placed with deadline `now + delay` iff `enoughTimeoutSpace` admits it |
| Messages.CancelFirst | software/main/message/include/message/Message.hpp:55-60 | a non-zero id cancels its pending messages; id 0 changes nothing |
| Messages.PlaceTimed | software/main/message/include/message/Message.hpp:62-74 | placed iff `enoughTimeoutSpace` admits it, and dropped silently otherwise |
| Messages.StoreTimed | software/main/message/include/message/Message.hpp:64-71 | the timed `alloc`, the construction and the size write-back give `Placed` |

## Left out

- The receive task loop, `init`, `deinit` and `shutdown` of `CAN.cpp`, and the startup AVAILABLE message: FreeRTOS tasking and driver setup. The loop's decisions are modelled by `CanBus.Accepts` and `CanBus.AlertReport`.
- TWAI driver calls, timing configuration, the bitrate setter and getter and `read_nvs`: foreign driver I/O. The filter flag, id and type are inputs (`CanBus.Can.Configure`).
- `getLevel` of `Queue.hpp`: it only returns `level`, which is a field of the model.
- `ConsoleCommandDevice`, `Selftest`, `PinConfig`, `main.cpp` and `message/test/Test1.cpp`: CLI glue, self-test tasks, wiring and a print-only demo. Only the chain order Update, Device, Relais of `main.cpp` is used (`CanBus.NodeChainRouting`).
- The `Relais::state(bank, num)` getter: it reads a never-written array with an unchecked index.
- The clock: UPTIME's minutes and `now` in the queue are parameters.
- MessageQueue.Queue.CheckTimeouts: the expiry scan compares every slot against one `now`. `checkTimeouts` reads the clock again for each slot, so an entry that falls due during the scan is delivered in the same scan; the model delivers it in the next one.
- MessageQueue.Queue.Deliver: a receiver's `receive` may itself `send` while `dispatch` or `checkTimeouts` is still running. The model only records the hand-over, so such re-entrant sends are not modelled.
- RelaisOutput.Relais.constructor: the outputs start low, as the pins' reset state. The code sets no initial level.
- The SHA-256 of the partition is the parameter `sha`, which always gives 32 bytes. `CONFIG_APP_RETRIEVE_LEN_ELF_SHA` is the constant `shaLen`; its value is not part of this model.
- Concurrency: `message::atomic`, and the race between the button driver callback and the timer callback. The two entry points are separate sequential methods.
- `esp_ota_*`, `esp_restart`, `esp_efuse_mac_get_default`, `gpio_*`, `button_init`, `esp_timer_*` and `nvs_*` are replaced by abstract state: the `Ota` record, the `restarted` flag, the 6-byte MAC, the output array, the `armed` flag and the `ConfigStore` map.
- Updater.Update.Dispatch: `esp_restart` does not return. The model records `restarted` and goes on.
- Updater.Step: `esp_ota_write` on a handle that was never opened fails. A FLASH_WRITE outside update mode therefore has no effect.
- ButtonFsm.Button.SendMulti: it requires `armed`, because the one-shot timer only fires after a release started it.
- ButtonFsm.Expire: requires `armed`, for the same reason.
- Frames longer than 8 bytes: a frame's length is at most 8, as the TWAI driver delivers.
- The 32-bit `size_t` of the queue counters is not modelled. `read`, `write` and `writeTimeout` are unbounded naturals.
- MessageQueue.Queue: the three buffers are `seq` fields reassigned on each store, not `std::array`s. The message image is the event word, the receiver's address and the payload, with no alignment padding.
- CanBus.Can.Dispatch: the handlers' sends are returned and sent after each handler returns, not during its `dispatch`. The log and counter come out the same.
- The transmit counter is tied to the log by `CanBus.Can.Valid` (`transmitted == Count64(|log|)`). No method states it separately.

Where the code and the design description of the system disagree, the
model follows the code:

- UID0 and UID1 are described as carrying the two 4-byte halves of the
  chip id. The code answers both with the whole 8-byte id, and selects on
  8 bytes for both.
- The chip id is the 6-byte MAC read into a zeroed 8-byte buffer.
- `nvs_get_str` of an absent custom string leaves the length at 9, so the
  reply is 8 zero bytes.
- A one-byte REQUEST_PARAMETER data frame is passed on to the
  sub-handlers as a data frame, which writes the stored fields, as written
  (`DeviceIdentity.RequestParameterDataFrameWrites`).

## Findings

| source | as written | input that shows it | evidently intended | confidence | as-written member | corrected member |
|---|---|---|---|---|---|---|
| software/main/message/include/message/Queue.hpp:19-23 | `enoughSpace` counts a 2-byte header and no padding, while `alloc` writes a 4-byte header and may pad to the end of the ring | 16-byte ring, `read` 0, `write` 8, one unread 4-byte record at 0: a 6-byte message is admitted, padded, and its header is written over the unread record; an empty 16-byte ring also admits a 14-byte message, whose 18-byte record does not fit; through `send`, a 1024-byte ring with `read` 16 and `write` 1008 admits a 16-byte image (1008 + 2 + 16 - 16 = 1010), pads 1008 to 1023 and writes the record at 0 to 19, over the unread header at 16 to 19 | admit a message only if its 4-byte header, the message and any padding fit in the part of the ring already read | not executed | RingLayout.EnoughSpaceAsWrittenOverwrites | RingLayout.SendAppends |
| software/main/message/include/message/Queue.hpp:107-110 | `dispatch` skips to the start only when fewer than 2 bytes remain, but then reads a 4-byte header | 16-byte ring, a 4-byte message sent at `write` 14: `alloc` pads indices 14 and 15; the reader at 14 does not skip and reads the header across the end of the buffer. This needs a record ending 2 or 3 bytes before the end: `alloc` allows it, but images made by `send`, whose lengths are multiples of 4, never produce it in a ring whose size is a multiple of 4 | skip whenever fewer than 4 bytes remain, so the header is read from index 0 | not executed | RingLayout.SkipAsWrittenOverruns | RingLayout.ReaderFindsRecord |
| software/main/message/include/message/Queue.hpp:157-159 | `defragment` copies address, size and deadline into the new slot, but not `id` | slots [free, id 7] and [8 bytes at 8, id 5]: after compaction the id-5 message sits in slot 0 with id 7; `cancelTimeouts(5)` misses it and `cancelTimeouts(7)` removes it | the moved entry keeps its id | not executed | TimeoutTable.DefragmentDropsId | TimeoutTable.CompactKeepsEntries |
| software/main/Update.cpp:94-95 | the checksum buffer has `CONFIG_APP_RETRIEVE_LEN_ELF_SHA` bytes, and `esp_partition_get_sha256` writes a whole 32-byte SHA-256 digest into it | a setting of 9: the digest write runs 23 bytes past the buffer on the stack | a buffer of at least 32 bytes, of which `min(setting, 8)` are sent | not executed | Updater.DigestBufferAsWrittenOverruns | Updater.DigestBufferHoldsDigest |

The model uses the corrected versions throughout: `MessageQueue.Queue.EnoughSpace`, `MessageQueue.Queue.DeliverNext`, `MessageQueue.Queue.Defragment` and `Updater.VerifyReply`.
