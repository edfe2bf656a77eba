/**
 The boot decision `main` makes on every reset, before any transport is set
 up: stay in the DFU loader (clearing the "reset to loader" marker kept in
 always-powered memory), or arm the watchdog, point the vector table at the
 application and jump into it, loading SP and PC from the application's first
 two words. Both chip families are modelled: Kinetis (reset causes in
 RCM_SRS0/RCM_SRS1, marker in the VBAT register file) and SAM (reset type in
 RSTC_SR, marker in the GPBR words).
 */
module Boot {
  import opened Words

  /** The reset causes that send the device back to the loader. */
  datatype ResetCause = PinReset | WatchdogTimeout | CoreLockup

  /** The reset type field of the SAM reset controller status register. */
  datatype SamResetType = GeneralReset | BackupReset | WatchdogReset | SoftwareReset | UserReset

  /** What `main` does on the way out of the decision. `Jump` records that
      the watchdog was armed, the value written to VTOR, and the SP and PC
      the jump loads. */
  datatype BootAction = StayInLoader | Jump(watchdogArmed: bool, vtor: Word, sp: Word, pc: Word)

  /** The decision and the persisted marker area as it is left afterwards. */
  datatype Boot = Boot(action: BootAction, marker: seq<bv8>)

  /** Reset causes reported by the Kinetis Reset Control Module: external
      pin (SRS0 bit 6), watchdog timeout (SRS0 bit 5), core lockup (SRS1
      bit 1). */
  function KinetisCauses(srs0: bv8, srs1: bv8): (s: set<ResetCause>)
  {
    (if srs0 & 0x40 != 0 then {PinReset} else {})
    + (if srs0 & 0x20 != 0 then {WatchdogTimeout} else {})
    + (if srs1 & 0x02 != 0 then {CoreLockup} else {})
  }

  /** Reset causes the SAM branch looks at: user (pin) reset and watchdog
      reset. The reset type field holds one value, so at most one applies. */
  function SamCauses(t: SamResetType): (s: set<ResetCause>)
    ensures CoreLockup !in s
    ensures |s| <= 1
  {
    match t
    case UserReset => {PinReset}
    case WatchdogReset => {WatchdogTimeout}
    case _ => {}
  }

  /** The marker is armed when its first `|magic|` bytes equal the magic
      pattern (a `memcmp` over the size of the magic). */
  predicate MarkerArmed(area: seq<bv8>, magic: seq<bv8>)
  {
    |magic| <= |area| && area[..|magic|] == magic
  }

  /** The rule both branches implement: any reset cause, an erased first
      application word, or an armed marker selects the loader. */
  predicate LoaderRequested(causes: set<ResetCause>, firstWord: Word, area: seq<bv8>, magic: seq<bv8>)
  {
    causes != {} || firstWord == ERASED_WORD || MarkerArmed(area, magic)
  }

  /** `area` with its first `n` bytes zeroed. */
  function ZeroPrefix(area: seq<bv8>, n: nat): (z: seq<bv8>)
    requires n <= |area|
    ensures |z| == |area|
    ensures forall i :: 0 <= i < |area| ==> z[i] == if i < n then 0 else area[i]
  {
    Fill(0, n) + area[n..]
  }

  /** Leaving for the application at `addr`: watchdog armed, VTOR set to
      `addr`, SP from the word at `addr` and PC from the word after it. */
  function EnterApplication(addr: Word, mem: Word -> Word): (a: BootAction)
    ensures a.Jump? && a.watchdogArmed && a.vtor == addr
    ensures a.sp == mem(addr) && a.pc == mem(Wrap(addr + 4))
  {
    Jump(true, addr, mem(addr), mem(Wrap(addr + 4)))
  }

  // ----- Kinetis -----

  /** The Kinetis branch. `appRom` is `_app_rom`, `mem` reads a 32-bit word
      of memory, `vbat` is the VBAT register file holding the marker. The
      marker is cleared by a `memset` over the magic's size. */
  function KinetisBoot(srs0: bv8, srs1: bv8, appRom: Word, mem: Word -> Word,
                       vbat: seq<bv8>, magic: seq<bv8>): (b: Boot)
    requires |magic| <= |vbat|
    ensures b.action.StayInLoader? <==>
              LoaderRequested(KinetisCauses(srs0, srs1), mem(appRom), vbat, magic)
    ensures b.action.StayInLoader? ==> b.marker == ZeroPrefix(vbat, |magic|)
    ensures b.action.Jump? ==>
              && b.marker == vbat
              && b.action == EnterApplication(appRom, mem)
  {
    if || srs0 & 0x40 != 0
       || srs0 & 0x20 != 0
       || srs1 & 0x02 != 0
       || mem(appRom) == ERASED_WORD
       || vbat[..|magic|] == magic
    then
      Boot(StayInLoader, ZeroPrefix(vbat, |magic|))
    else
      Boot(EnterApplication(appRom, mem), vbat)
  }

  // ----- SAM -----

  /** Bytes of GPBR the SAM branch zeroes: its loop runs `pos` from 0 up to
      and including `|magic| / 4`, one 32-bit word each time. That covers
      the magic, and a whole extra word when the magic's size is a multiple
      of four. */
  function SamClearSpan(magicLen: nat): (n: nat)
    ensures magicLen < n <= magicLen + 4
    ensures n % 4 == 0
    ensures magicLen % 4 == 0 ==> n == magicLen + 4
  {
    4 * (magicLen / 4 + 1)
  }

  /** The SAM branch. `gpbr` is the general-purpose backup register area as
      bytes; it must hold every word the clearing loop writes. */
  function SamBoot(rst: SamResetType, appRom: Word, mem: Word -> Word,
                   gpbr: seq<bv8>, magic: seq<bv8>): (b: Boot)
    requires SamClearSpan(|magic|) <= |gpbr|
    ensures b.action.StayInLoader? <==>
              LoaderRequested(SamCauses(rst), mem(appRom), gpbr, magic)
    ensures b.action.StayInLoader? ==> b.marker == ZeroPrefix(gpbr, SamClearSpan(|magic|))
    ensures b.action.Jump? ==>
              && b.marker == gpbr
              && b.action == EnterApplication(appRom, mem)
  {
    if || rst == UserReset
       || rst == WatchdogReset
       || mem(appRom) == ERASED_WORD
       || gpbr[..|magic|] == magic
    then
      Boot(StayInLoader, ZeroPrefix(gpbr, SamClearSpan(|magic|)))
    else
      Boot(EnterApplication(appRom, mem), gpbr)
  }

  /** The SAM clearing loop itself, one GPBR word per iteration; it leaves
      exactly the area `SamBoot` describes. */
  method ClearGpbr(gpbr: seq<bv8>, magicLen: nat) returns (out: seq<bv8>)
    requires SamClearSpan(magicLen) <= |gpbr|
    ensures out == ZeroPrefix(gpbr, SamClearSpan(magicLen))
  {
    out := gpbr;
    var pos := 0;
    while pos <= magicLen / 4
      invariant 0 <= pos <= magicLen / 4 + 1
      invariant |out| == |gpbr|
      invariant forall i :: 0 <= i < |out| ==> out[i] == if i < 4 * pos then 0 else gpbr[i]
    {
      out := out[..4 * pos] + [0, 0, 0, 0] + out[4 * pos + 4..];
      pos := pos + 1;
    }
    assert 4 * pos == SamClearSpan(magicLen);
    var z := ZeroPrefix(gpbr, SamClearSpan(magicLen));
    assert forall i :: 0 <= i < |out| ==> out[i] == z[i];
  }

  // ----- Properties -----

  /** An erased first application word always selects the loader, whatever
      the reset causes and the marker say. */
  lemma BlankFlashSelectsLoader(srs0: bv8, srs1: bv8, rst: SamResetType, appRom: Word,
                                mem: Word -> Word, area: seq<bv8>, magic: seq<bv8>)
    requires mem(appRom) == ERASED_WORD
    requires SamClearSpan(|magic|) <= |area|
    ensures KinetisBoot(srs0, srs1, appRom, mem, area, magic).action == StayInLoader
    ensures SamBoot(rst, appRom, mem, area, magic).action == StayInLoader
  {
  }

  /** A cleared prefix no longer matches a magic pattern that has a nonzero
      byte. */
  lemma {:induction false} ClearedMarkerDisarmed(area: seq<bv8>, n: nat, magic: seq<bv8>)
    requires |magic| <= n <= |area|
    requires magic != Fill(0, |magic|)
    ensures !MarkerArmed(ZeroPrefix(area, n), magic)
  {
    var z := ZeroPrefix(area, n);
    assert z[..|magic|] == Fill(0, |magic|);
  }

  /** Kinetis: one marker write buys exactly one stay in the loader. A boot
      that stayed because of the marker leaves it disarmed, so the next boot
      with no reset cause and a programmed application jumps. */
  lemma KinetisMarkerIsOneShot(srs0: bv8, srs1: bv8, appRom: Word, mem: Word -> Word,
                               vbat: seq<bv8>, magic: seq<bv8>)
    requires |magic| <= |vbat|
    requires magic != Fill(0, |magic|)
    requires mem(appRom) != ERASED_WORD
    ensures var b := KinetisBoot(srs0, srs1, appRom, mem, vbat, magic);
            b.action.StayInLoader? ==>
              && !MarkerArmed(b.marker, magic)
              && KinetisBoot(0, 0, appRom, mem, b.marker, magic).action == EnterApplication(appRom, mem)
  {
    ClearedMarkerDisarmed(vbat, |magic|, magic);
  }

  /** SAM: the same one-shot behaviour, with the wider word-granular clear. */
  lemma SamMarkerIsOneShot(rst: SamResetType, appRom: Word, mem: Word -> Word,
                           gpbr: seq<bv8>, magic: seq<bv8>)
    requires SamClearSpan(|magic|) <= |gpbr|
    requires magic != Fill(0, |magic|)
    requires mem(appRom) != ERASED_WORD
    ensures var b := SamBoot(rst, appRom, mem, gpbr, magic);
            b.action.StayInLoader? ==>
              && !MarkerArmed(b.marker, magic)
              && SamBoot(GeneralReset, appRom, mem, b.marker, magic).action == EnterApplication(appRom, mem)
  {
    ClearedMarkerDisarmed(gpbr, SamClearSpan(|magic|), magic);
  }

  /** The SAM clear reaches past the magic: when the magic's size is a
      multiple of four, the word after it is zeroed too. */
  lemma SamClearZeroesExtraWord(rst: SamResetType, appRom: Word, mem: Word -> Word,
                                gpbr: seq<bv8>, magic: seq<bv8>, i: nat)
    requires SamClearSpan(|magic|) <= |gpbr|
    requires |magic| % 4 == 0 && |magic| <= i < |magic| + 4
    requires SamBoot(rst, appRom, mem, gpbr, magic).action.StayInLoader?
    ensures SamBoot(rst, appRom, mem, gpbr, magic).marker[i] == 0
  {
  }

  /** After the jump the watchdog runs; if the application hangs and the
      watchdog resets the chip, the next boot stays in the loader. */
  lemma WatchdogResetReturnsToLoader(srs1: bv8, appRom: Word, mem: Word -> Word,
                                     area: seq<bv8>, magic: seq<bv8>)
    requires SamClearSpan(|magic|) <= |area|
    ensures KinetisBoot(0x20, srs1, appRom, mem, area, magic).action == StayInLoader
    ensures SamBoot(WatchdogReset, appRom, mem, area, magic).action == StayInLoader
  {
  }
}
