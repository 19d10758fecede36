# RGB state persistence and LED control of the ESTC GATT server

This project models two pieces of sequential logic from the nRF52 firmware
`estc_gatt_server`, with the hardware left out.

1. **The persistent RGB store** (`flash_storage.c`). One 32-bit record word holds
   four bytes: the on/off state in bits 0-7, red in bits 8-15, green in bits 16-23
   and blue in bits 24-31. The word lives at the fixed flash address `0x3e000` and
   a copy is cached in RAM.
   - At boot the store reads the word. An erased word (`0xFFFFFFFF`) becomes the
     all-zero default. The store then decodes the word, hands it to the
     characteristic initialisation, and pushes it to the LED.
   - An update merges a requested state and/or colour into the cache. If nothing
     changes, no flash request is issued. Otherwise the store erases the page
     and then writes the word again at the same address.
2. **The LED PWM controller** (`pwm_control.c`). It holds an enabled flag, the
   current colour and four duty-cycle values. `pwm_set_rgb_color`,
   `pwm_on_rgb` and `pwm_off_rgb` act on that state, using the helper
   `pwm_update_duty_cycle`.

Modules:

- `Codec` (`codec.dfy`) models the mask-and-shift getters and setters over
  `bv32`. Their contracts state the layout a second way, as base-256 digits
  of the word.
- `PwmControl` (`pwm_control.dfy`) models the LED controller as an immutable
  state record with one step function per operation. Its invariant is
  "duty = colour when enabled, 0 when disabled".
- `FlashStorage` (`flash_storage.dfy`) models the store: the cached word, plus
  flash as the data word and a log of the erase and write requests issued.
  Programming a flash word can only clear bits, so the new content is the old
  content AND the data. That is why the store must erase before it writes.
  Rejected requests (`APP_ERROR_CHECK` failing) are modelled as a fault that
  stops the device.
- `StoreSession` (`store_session.dfy`) holds the properties of whole sessions:
  boot, any sequence of updates, and the next boot.

The store overwrites one word at a fixed address. There is no append log, no
write cursor, no wear levelling and no region-full handling.

Behaviours the proofs bring out:

- The state argument of `flash_storage_update_values` is 32 bits wide, but it
  is compared with the stored 8-bit state. A state above 255 therefore always
  counts as a change. Only its low byte is stored, so repeating that update
  erases and writes the flash again every time (`StoreSession.RepeatedUpdate`).
  The BLE write handlers declared at `estc_gatt_server/ble_module.h:37-38`
  take 8-bit arguments. Their bodies are not part of this model, so this note
  is about `flash_storage_update_values` on its own.
- The record state=255, colour (255,255,255) is the erased pattern. Once
  written, the next boot reads it back as the default: LED off, colour
  (0,0,0) (`StoreSession.AllOnesUpdateLostOnReboot`).
- In this model, an accepted erase completes before the write is requested.
  Under that assumption, a write rejected after an accepted erase leaves the
  page erased, and the next boot comes up with the default record
  (`StoreSession.RejectedWriteLosesRecord`).
- In `pwm_update_duty_cycle`, the `rgb_enabled ? … : 0` choice never takes the
  `0` arm. A disabled LED returns early for channels 1-3, and channel 0 has no
  case in the switch.

## Model

| member | source | states |
|---|---|---|
| Codec.GetState | estc_gatt_server/flash_storage.c:16 | the state field is digit 0 of the word in base 256 (the word modulo 256) |
| Codec.GetRed | estc_gatt_server/flash_storage.c:17 | the red field is digit 1 of the word in base 256 |
| Codec.GetGreen | estc_gatt_server/flash_storage.c:18 | the green field is digit 2 of the word in base 256 |
| Codec.GetBlue | estc_gatt_server/flash_storage.c:19 | the blue field is digit 3, the most significant byte of the word |
| Codec.SetState | estc_gatt_server/flash_storage.c:21 | reading the state back gives the low byte of the 32-bit argument; red, green and blue are unchanged |
| Codec.SetRed | estc_gatt_server/flash_storage.c:22 | reading red back gives the argument; state, green and blue are unchanged |
| Codec.SetGreen | estc_gatt_server/flash_storage.c:23 | reading green back gives the argument; state, red and blue are unchanged |
| Codec.SetBlue | estc_gatt_server/flash_storage.c:24 | reading blue back gives the argument; state, red and green are unchanged |
| Codec.SetColor | estc_gatt_server/flash_storage.c:148-150 | the three colour setters in sequence decode to the requested colour with the state byte kept |
| Codec.ComposeRoundTrip | estc_gatt_server/flash_storage.c:16-24 | on any base word, the four setters followed by the four getters return exactly the four inputs |
| Codec.DecodeInjective | estc_gatt_server/flash_storage.c:11-19 | two words decode to the same four fields if and only if they are equal |
| Codec.Reassemble | estc_gatt_server/flash_storage.c:11-19 | every word equals state + 256·red + 65536·green + 16777216·blue of its own fields |
| Codec.ErasedDecodesToAllOnes | estc_gatt_server/flash_storage.c:92 | the erased pattern is the record state=255, colour (255,255,255) |
| PwmControl.ControllerInit | estc_gatt_server/pwm_control.c:47-49 | start-up loads the current colour into channels 1-3 and leaves the flag, the colour and channel 0 alone |
| PwmControl.UpdateDutyCycle | estc_gatt_server/pwm_control.c:57-76 | a disabled LED or a channel outside 1..3 changes nothing; an enabled LED loads channel 1, 2 or 3 with its colour component and no other channel |
| PwmControl.RefreshAll | estc_gatt_server/pwm_control.c:99-101 | refreshing channels R, G, B makes an enabled LED show its colour and leaves a disabled one unchanged |
| PwmControl.SetRgbColor | estc_gatt_server/pwm_control.c:78-92 | the colour is always stored; when enabled the duty cycles become (r,g,b); when disabled they stay as they were |
| PwmControl.On | estc_gatt_server/pwm_control.c:94-102 | the LED becomes enabled, the duty cycles equal the current colour, and the colour is unchanged |
| PwmControl.Off | estc_gatt_server/pwm_control.c:104-112 | the LED becomes disabled, channels 1-3 become 0, and the colour and channel 0 are unchanged |
| PwmControl.InitConsistent | estc_gatt_server/pwm_control.c:47-49 | after the static initialisers and start-up, duty = (enabled ? colour : 0) |
| PwmControl.SetRgbColorPreservesConsistent | estc_gatt_server/pwm_control.c:78-92 | setting the colour keeps duty = (enabled ? colour : 0) |
| PwmControl.OnEstablishesConsistent | estc_gatt_server/pwm_control.c:94-102 | turning on establishes duty = (enabled ? colour : 0) from any state |
| PwmControl.OffEstablishesConsistent | estc_gatt_server/pwm_control.c:104-112 | turning off establishes duty = (enabled ? colour : 0) from any state |
| PwmControl.OffThenOn | estc_gatt_server/pwm_control.c:94-112 | off then on shows the colour set before the off, and ends in the same state as on alone |
| PwmControl.RunPreservesConsistent | estc_gatt_server/pwm_control.c:78-112 | any sequence of set-colour, on and off calls keeps the invariant and never touches channel 0 |
| PwmControl.SessionShowsColorOrDark | estc_gatt_server/pwm_control.c:35-112 | after start-up and any sequence of calls, the LED shows its colour when on and is dark when off, and channel 0 stays 0 |
| FlashStorage.Program | estc_gatt_server/flash_storage.c:165 | programming an erased word stores exactly the data |
| FlashStorage.ProgramOnlyClearsBits | estc_gatt_server/flash_storage.c:160-166 | programming never sets a bit that is clear in the old content or in the data |
| FlashStorage.Apply | estc_gatt_server/flash_storage.c:160-166 | a one-page erase at the data address yields the erased pattern; a 4-byte write there programs the word; requests elsewhere change nothing |
| FlashStorage.EraseThenWrite | estc_gatt_server/flash_storage.c:160-166 | erase followed by write leaves exactly the written word, whatever was stored before |
| FlashStorage.WriteStoresDataExactlyWhen | estc_gatt_server/flash_storage.c:160-166 | for every old word and data, a write stores the data if and only if every bit the data sets is still set in the word, so writing without the erase can lose data |
| FlashStorage.Issue | estc_gatt_server/flash_storage.c:160-165 | an erase or write request is appended to the request log, after everything issued before it; a one-page erase at the data address leaves the erased pattern, a 4-byte write there programs the word (old content AND data), and a request elsewhere leaves the word alone |
| FlashStorage.Recovered | estc_gatt_server/flash_storage.c:92-96 | the erased pattern becomes 0 and any other word is kept, so the cache never holds the erased pattern after boot |
| FlashStorage.Init | estc_gatt_server/flash_storage.c:82-120 | a rejected read faults; otherwise an erased word is cached as 0 and any other word as itself, with no flash request; the characteristics get the decoded fields; the LED gets the decoded colour and is on exactly when the state byte is nonzero, with duty = (enabled ? colour : 0) |
| FlashStorage.MergeState | estc_gatt_server/flash_storage.c:129-137 | the state counts as changed exactly when the stored byte differs from the 32-bit request; the stored byte becomes the request's low byte; the colour bytes are kept |
| FlashStorage.MergeRgb | estc_gatt_server/flash_storage.c:139-152 | the colour counts as changed exactly when any byte differs; the three bytes become the request; the state byte is kept |
| FlashStorage.Merge | estc_gatt_server/flash_storage.c:127-152 | the change flag is set exactly when a selected field differs; the result holds the selected fields from the request and the rest from the cache; with no change the word is unchanged |
| FlashStorage.MergeFlagMeansNewWord | estc_gatt_server/flash_storage.c:127-154 | the change flag is set if and only if the merged word differs from the cache or a state above 255 was requested |
| FlashStorage.UpdateWithIo | estc_gatt_server/flash_storage.c:122-167 | no change means no request and an unchanged store; otherwise a rejected erase faults with the flash untouched, a rejected write faults with the page erased, and accepted requests log exactly erase then write of the new cache word at the data address |
| FlashStorage.Update | estc_gatt_server/flash_storage.c:122-167 | the new cache decodes to the requested fields with the unselected ones kept; no change means no request; a change logs exactly one erase and then one 4-byte write of the new cache, after which flash holds the cache |
| StoreSession.PairsAppend | estc_gatt_server/flash_storage.c:160-166 | joining two logs made of erase-write pairs gives a log made of erase-write pairs |
| StoreSession.InitInSync | estc_gatt_server/flash_storage.c:89-96 | after boot the flash word is the cache, or is erased while the cache holds the default 0 |
| StoreSession.AllOnesRecordRecoveredAsDefault | estc_gatt_server/flash_storage.c:92-96 | a stored all-255 record is recovered as (0,0,0,0) with the LED off and dark |
| StoreSession.UpdateKeepsInSync | estc_gatt_server/flash_storage.c:154-166 | an update keeps the flash word in step with the cache |
| StoreSession.UpdateAllInvariants | estc_gatt_server/flash_storage.c:122-167 | any sequence of updates keeps flash and cache in step and only appends erase-write pairs to the log |
| StoreSession.RepeatedUpdate | estc_gatt_server/flash_storage.c:129-137 | repeating an update is a no-op if and only if no state is requested or the requested state is below 256 |
| StoreSession.UpdateTwiceWritesOnce | estc_gatt_server/flash_storage.c:127-166 | two identical changing updates, with a state below 256, issue exactly one erase and one write between them |
| StoreSession.RebootRecoversCache | estc_gatt_server/flash_storage.c:89-101 | rebooting from an in-step flash recovers the cache, except that an all-255 cache comes back as 0 |
| StoreSession.SessionSurvivesReboot | estc_gatt_server/flash_storage.c:82-167 | boot, any updates, reboot: the characteristics get the last cached record, or (0,0,0,0) if that record is all-255 |
| StoreSession.AllOnesUpdateLostOnReboot | estc_gatt_server/flash_storage.c:139-166 | requesting state 255 with colour (255,255,255) writes the erased pattern, and the next boot recovers (0,0,0,0) |
| StoreSession.RejectedEraseKeepsRecord | estc_gatt_server/flash_storage.c:160-161 | a rejected erase faults with the flash untouched, and the next boot recovers the record from before the update |
| StoreSession.RejectedWriteLosesRecord | estc_gatt_server/flash_storage.c:160-166 | a rejected write after an accepted erase faults, and the next boot recovers (0,0,0,0) with the LED off |

## Left out

- BLE service set-up, UUIDs and characteristic definitions (`estc_service.c`, `estc_service/`): stack API wiring with no logic. `estc_characteristic_init_values` is a foreign call, modelled only as the `characteristics` fields handed over at boot.
- `main.c`: it only sequences the init calls and runs the idle loop and power management.
- `flash_storage_get_end_addr`: it reads hardware registers, and its result is discarded.
- `fstorage_evt_handler`: an asynchronous completion callback that only logs. Erase and write are modelled as synchronous requests recorded in the log.
- Failures of the fstorage set-up and of the read at boot are merged into one `readAccepted` flag, because both end in the same fatal-error handler.
- `pwm_start_playback`, `nrfx_pwm_init`, the pin mapping and `PWM_TOP_VALUE`: peripheral configuration that the duty-cycle values do not depend on.
- `NRF_LOG_*` logging everywhere.
- FlashStorage.Apply: models only the effect of a request on the data word. An erase is counted only when it starts exactly at the data address, which is the only address the store uses, and a write counts only when it starts at the data address with length 4; requests that overlap the word from elsewhere are not modelled. The rest of the fstorage region (end address `0x3ffff`) is not modelled.
- StoreSession.UpdateAllInvariants, StoreSession.SessionSurvivesReboot: an accepted erase or write is assumed to complete. In the firmware, accepted only means queued. A failure reported only to the completion handler, or a reset between the erase and the write, leaves the flash behind the cache and is not modelled.
- The callers of `flash_storage_update_values` (the BLE write handlers) are not part of this model, so `StoreSession` quantifies over every possible request sequence.
