# DFU bootloader core: transfer callbacks and boot decision

A Dafny model of the core of a USB DFU (Device Firmware Upgrade, the USB
Device Class Specification for Device Firmware Upgrade) bootloader for
Kinetis and SAM microcontrollers, `Bootloader/main.c`:

- the three callbacks the DFU protocol engine invokes while in update mode,
  `setup_read`, `setup_write` and `finish_write`, as pure step functions over
  an immutable transfer state `Context(verified, last, staging, cursor)`
  (module `Transfer`, file `transfer.dfy`);
- sequences of those callbacks as the engine drives them during a download,
  and the guarantees that hold across them (module `Session`, `session.dfy`);
- where `finish_write` lets flash programming land, given the 32-bit bounds
  test at main.c:193 (module `Bounds`, `bounds.dfy`);
- the reset-time decision in `main` between staying in the loader and jumping
  to the application, for both the Kinetis and the SAM branch (module `Boot`,
  `boot.dfy`);
- 32-bit words, wrap-around and byte fills (module `Words`, `words.dfy`).

Addresses, offsets and lengths are 32-bit (`size_t` and `uintptr_t` on
Cortex-M), so the sums in `setup_read` and `finish_write` are reduced modulo
2^32 with `Wrap`. The link-time constants `_app_rom`, `_app_rom_end`
(inclusive) and `USB_DFU_TRANSFER_SIZE` form a `Region`. The key validator
`Chip_validation` is a function parameter `validate: seq<bv8> -> Int8`; the
flash programmer's result is an input `FlashRc`, used only when programming
happens, and the programming itself is reported as `FlashWrite(addr, data)`.
The boot decision reads memory through a parameter `mem: Word -> Word`; the
jump is the value `Jump(watchdogArmed, vtor, sp, pc)`, not executed code.

The model reproduces these behaviours of the code, each pinned down by a
lemma or a contract:

- the bounds test rejects a chunk whose last byte is the region's inclusive
  last byte (main.c:193, `Bounds.ChunkEndingOnLastByteRejected`);
- an oversize request is rejected before the offset-0 reset of the
  short-chunk flag, so it leaves the flag as it was (main.c:131-140,
  `Transfer.SetupWrite`);
- a short chunk is padded with 0xFF up to a full chunk (main.c:148,
  `Session.ShortChunkPaddedWithErased`);
- after a short chunk, a write that restarts at offset 0 is accepted
  (main.c:137-140, `Session.ShortChunkMustBeLast`);
- a Failed validation returns errFILE for that block only; the validator is
  never consulted again and later blocks, even at offset 0, are programmed
  (main.c:163, `Session.ValidationNeverRevisited`);
- a full chunk is programmed even when fewer bytes were received (main.c:221),
  which runs past the region end when the region is not a whole number of
  chunks (`Bounds.UnalignedFinalChunkOverruns`);
- the bounds test is computed modulo 2^32 (main.c:193), so an offset that
  wraps the sum programs below the region
  (`Bounds.WrappedOffsetProgramsBelowRegion`);
- the SAM marker-clearing loop runs to `|magic| / 4` inclusive and so zeroes
  one extra word when the magic's size is a multiple of four (main.c:333).

## Model

| member | source | states |
|---|---|---|
| Transfer.PowerOn | Bootloader/main.c:43-46 | At power-on the validation is Unknown, no short chunk has been seen, the cursor is 0 and the staging buffer holds one chunk |
| Transfer.InitUsbBootloader | Bootloader/main.c:245-246 | Entering update mode makes validation Unknown and leaves the short-chunk flag, staging buffer and cursor as they were |
| Transfer.SetupRead | Bootloader/main.c:103-114 | Always OK; for an offset inside the region the window starts at `_app_rom + off`, is `min(chunk, end + 1 - buf)` long, non-empty, and ends at or before the inclusive end; at one past the end it is empty |
| Transfer.SetupWrite | Bootloader/main.c:116-153 | Accepted iff the length fits the staging buffer and either the offset is 0, no short chunk was seen, or the length is 0; a rejection is errADDRESS with the state unchanged, even at offset 0; an accepted short request sets the flag and fills the whole buffer with 0xFF; a full one leaves the buffer alone and keeps the flag except at offset 0 |
| Transfer.Verdict | Bootloader/main.c:170-189 | Validator result 0 records Ok, -1 records Failed, anything else records Pending; never Unknown |
| Transfer.FinishWrite | Bootloader/main.c:155-232 | Zero length is an OK no-op; the validator decides the new state only on the first block; flash is programmed iff there is data, the first block (if it is one) had no key, and the bounds test passes; what is programmed is the full staging buffer at `_app_rom + off`; the status is OK iff the flash result is FLASH_RC_OK, errADDRESS otherwise; errFILE iff the first block has an invalid key; OK without programming only for zero length or a valid key |
| Transfer.Sam4s8cValidation | Bootloader/Devices/sam4s8c.c:80-84 | The SAM4S8C validator reports every image as key-less, which records Ok |
| Session.Run | Bootloader/main.c:163-190 | Across any callback sequence the staging buffer keeps one chunk and a validation that has left Unknown never changes again |
| Session.TerminalChunkSticks | Bootloader/main.c:136-149 | Once a short chunk has been seen the flag stays set through every callback until a write is prepared at offset 0 |
| Session.ShortChunkMustBeLast | Bootloader/main.c:136-144 | After an accepted short chunk and no restart, a later write is accepted iff it fits and carries no data or restarts at offset 0; a data write at a nonzero offset is errADDRESS with the state unchanged |
| Session.ShortChunkPaddedWithErased | Bootloader/main.c:145-148 | A short chunk is programmed as the received bytes followed by 0xFF up to a full chunk |
| Session.FullChunkProgrammedVerbatim | Bootloader/main.c:221 | A full chunk is programmed exactly as received |
| Session.ValidatorOnlyOnFirstBlock | Bootloader/main.c:163-170 | Outside the first block any two validators give the same outcome of `finish_write` |
| Session.ValidationNeverRevisited | Bootloader/main.c:163-196 | Once validation has left Unknown, after any callbacks every data chunk that passes the bounds test is programmed, offset 0 included, Failed included |
| Session.ValidKeySkipsFirstBlock | Bootloader/main.c:182-188 | A valid key returns OK, programs nothing, records Pending, and a later in-bounds chunk is programmed normally |
| Session.StubValidatorFlashesFirstBlock | Bootloader/Devices/sam4s8c.c:80-84 | With the stub validator the first block records Ok and is programmed at `_app_rom` iff it passes the bounds test |
| Session.InitArmsValidation | Bootloader/main.c:245-246 | After `init_usb_bootloader` the next data block at offset 0 is validated, and an invalid key gives errFILE without programming |
| Bounds.BoundsCheckWithoutWrap | Bootloader/main.c:192-196 | Without 32-bit wrap the test lets a chunk through iff `off + _app_rom + len` is at most `_app_rom_end` |
| Bounds.ChunkEndingOnLastByteRejected | Bootloader/main.c:193-195 | A chunk whose last byte is the region's last byte is rejected with errADDRESS and nothing is programmed |
| Bounds.ProgrammedRangeInRegion | Bootloader/main.c:192-224 | For a region that is a whole number of chunks and writes at chunk boundaries, every programmed full chunk lies inside the region |
| Bounds.FinalSlotRejectsFullChunk | Bootloader/main.c:193-195 | A full chunk in the region's final chunk slot is always rejected |
| Bounds.UnalignedFinalChunkOverruns | Bootloader/main.c:192-224 | For every region and every offset whose chunk slot straddles the region end, a chunk that is programmed runs past the inclusive end, because a full chunk is programmed whatever the length |
| Bounds.UnalignedRegionOverrun | Bootloader/main.c:221 | Example: in the 10-byte region 0x1000..0x1009 with 4-byte chunks, a 1-byte chunk at offset 8 passes the test and is programmed up to 0x100B |
| Bounds.WrappedOffsetProgramsBelowRegion | Bootloader/main.c:193-221 | For every region and every offset that carries `off + _app_rom` past 2^32, a chunk that is programmed lands below the region start |
| Bounds.WrappedOffsetPassesBoundsCheck | Bootloader/main.c:193 | Example: with region 0x4000..0x3FFFF, a 1-byte chunk at offset 2^32 - 0x4000 passes the test and is programmed at address 0 |
| Bounds.ReadPastEndWraps | Bootloader/main.c:109-111 | A read two bytes past the end yields the wrapped length 2^32 - 1 |
| Boot.SamCauses | Bootloader/main.c:322-325 | The SAM branch sees at most one cause and never a core lockup |
| Boot.ZeroPrefix | Bootloader/main.c:303 | Clearing the marker zeroes exactly its first bytes and keeps the rest |
| Boot.EnterApplication | Bootloader/main.c:249-262 | The jump arms the watchdog, sets VTOR to the application start, loads SP from its first word and PC from the word four bytes on |
| Boot.KinetisBoot | Bootloader/main.c:290-320 | Stays in the loader iff a pin, watchdog or lockup cause is flagged, the first application word is erased, or the marker is armed; staying zeroes the magic's span of VBAT; otherwise the marker is untouched and the application is entered at `_app_rom` |
| Boot.SamClearSpan | Bootloader/main.c:333-334 | The SAM clear covers more than the magic, at most one word more, and exactly one word more when the magic's size is a multiple of four |
| Boot.SamBoot | Bootloader/main.c:322-352 | Stays in the loader iff the reset type is user or watchdog, the first application word is erased, or the marker is armed; staying zeroes the clear span of GPBR; otherwise the marker is untouched and the application is entered at `_app_rom` |
| Boot.ClearGpbr | Bootloader/main.c:333-334 | The word-by-word clearing loop leaves GPBR zero below the clear span and unchanged above it |
| Boot.BlankFlashSelectsLoader | Bootloader/main.c:296-297 | An erased first application word selects the loader on both chips whatever the causes and marker |
| Boot.ClearedMarkerDisarmed | Bootloader/main.c:303 | Once cleared, a marker no longer matches a magic that has a nonzero byte |
| Boot.KinetisMarkerIsOneShot | Bootloader/main.c:299-303 | On Kinetis a boot that stays leaves the marker disarmed, so the next cause-free boot with a programmed application jumps |
| Boot.SamMarkerIsOneShot | Bootloader/main.c:329-334 | The same one-shot marker behaviour on SAM |
| Boot.SamClearZeroesExtraWord | Bootloader/main.c:333 | When the magic's size is a multiple of four, the SAM clear also zeroes the word after it |
| Boot.WatchdogResetReturnsToLoader | Bootloader/main.c:292-293 | A watchdog reset, as after a hung application, always selects the loader on both chips |

## Left out

- `sector_print` (main.c:51-101) and every debug print, including the CPU and chip ID dumps (main.c:355-401): output only.
- The DFU engine (`dfu_init`, `dfu_usb_init`, `dfu_usb_poll`) and the endless main loop (main.c:236, 418-430): the engine is outside this code; `Session.Event` stands for its calls, and `Transfer.Receive` for its copy into the staging buffer.
- SysTick disabling (main.c:239-243) and the watchdog register encodings (main.c:33-34, 309-313, 340-345): hardware registers; the model records only that the watchdog is armed.
- The inline-assembly jump (main.c:257-261): represented by the `Jump` value.
- The Kinetis flash branch (main.c:198-219): `flash_get_staging_area`, `flash_program_sector` and the FTFL status bits are not part of this model; only the SAM result mapping is modelled. That branch also treats codes it does not list as success, unlike the SAM branch.
- `Chip_reset`, `Chip_setup` and `Chip_process` in Bootloader/Devices/sam4s8c.c: peripheral set-up and USB start.
- The numeric values of `FLASH_RC_*`, of the SAM reset-type field and of `sys_reset_to_loader_magic`: they come from headers that are not part of this model, so `FlashRc` and `SamResetType` are enumerations and the magic is a parameter.
- Boot.SamBoot: requires the GPBR area to hold every word the clearing loop writes; the code writes past the array when it does not.
- Transfer.SetupRead: its window properties are stated for offsets up to one past the region end; beyond that the length wraps, shown by `Bounds.ReadPastEndWraps`.
