/**
 The three callbacks the USB Device Firmware Upgrade (DFU) protocol engine invokes
 while the bootloader is in update mode: prepare an upload read, prepare a
 download write into the staging buffer, and finish a download write by
 validating the first block and programming the chunk into the application
 region of flash.

 The C code keeps its state in globals (`dfu_ctx.verified`, `dfu_ctx.off`, the
 function-static `last` and the `staging` array); here that state is one
 immutable `Context` value threaded through pure step functions. Only the SAM
 flash branch is modelled; the flash programmer and the key validator are
 inputs.
 */
module Transfer {
  import opened Words

  /** The application region and transfer unit, fixed at link time:
      `_app_rom` (first byte), `_app_rom_end` (last byte, inclusive) and
      `USB_DFU_TRANSFER_SIZE`, which is also the staging buffer's capacity. */
  datatype Region = Region(start: Word, end: Word, chunk: Word) {
    /** What a sensible link map provides: a non-empty region, a non-empty
        chunk, and room above the region so that pointer sums one window past
        its end do not wrap. */
    predicate Valid()
    {
      start < end && 0 < chunk && end + chunk + 1 < WORD_SIZE
    }

    /** Number of bytes in the region. */
    function Size(): (n: int)
    {
      end - start + 1
    }
  }

  /** The DFU status codes the callbacks produce: `DFU_STATUS_OK`,
      `DFU_STATUS_errADDRESS` and `DFU_STATUS_errFILE`. */
  datatype DfuStatus = StatusOk | ErrAddress | ErrFile

  /** `dfu_ctx.verified`: the outcome of the one-shot key validation. */
  datatype Validation = ValidationUnknown | ValidationOk | ValidationFailed | ValidationPending

  /** The `int8_t` a key validator returns. */
  type Int8 = x: int | -128 <= x < 128

  /** Result codes of the SAM flash programmer (`FLASH_RC_*`); `FlashRcOther`
      stands for any code the switch does not list. */
  datatype FlashRc = FlashRcOk | FlashRcError | FlashRcInvalid | FlashRcNotSupport | FlashRcOther(code: int)

  /** The transfer state: the validation state, the "short chunk already seen"
      flag, the staging buffer's contents and the engine's write cursor
      (`dfu_ctx.off`, which the first block resets). */
  datatype Context = Context(verified: Validation, last: bool, staging: seq<bv8>, cursor: nat) {
    /** The staging buffer holds exactly one chunk. */
    predicate Wf(r: Region)
    {
      |staging| == r.chunk
    }
  }

  /** Outcome of `setup_read`: status, start address and length of the window. */
  datatype ReadWindow = ReadWindow(status: DfuStatus, buf: Word, len: Word)

  /** Outcome of `setup_write`: status and the new state. On success the
      engine is handed the staging buffer to copy the chunk into. */
  datatype WriteSetup = WriteSetup(status: DfuStatus, next: Context)

  /** One call of the flash programmer: destination address and the bytes
      programmed there. */
  datatype FlashWrite = FlashWrite(addr: Word, data: seq<bv8>)

  /** Outcome of `finish_write`: status, new state, and the flash programming
      it performed, if any. */
  datatype WriteFinish = WriteFinish(status: DfuStatus, next: Context, flashed: Option<FlashWrite>)

  /** The byte the staging buffer is padded with before a short chunk. */
  const PAD: bv8 := 0xFF

  /** State at power-on: C zero-initialises `dfu_ctx`, `last` and `staging`. */
  function PowerOn(r: Region): (c: Context)
    ensures c.Wf(r)
    ensures c.verified == ValidationUnknown && !c.last && c.cursor == 0
  {
    Context(ValidationUnknown, false, Fill(0, r.chunk), 0)
  }

  /** `init_usb_bootloader`: forget any earlier validation; the short-chunk
      flag, the staging buffer and the cursor are not touched. */
  function InitUsbBootloader(c: Context): (c': Context)
    ensures c'.verified == ValidationUnknown
    ensures c'.last == c.last && c'.staging == c.staging && c'.cursor == c.cursor
  {
    c.(verified := ValidationUnknown)
  }

  // ----- setup_read -----

  /** `setup_read`: the upload window for offset `off`. It always succeeds.
      Inside the region the window is one chunk, clipped at the inclusive end;
      exactly one past the end it is empty, which ends the upload. */
  function SetupRead(r: Region, off: Word): (w: ReadWindow)
    ensures w.status == StatusOk
    ensures r.Valid() && off <= r.end - r.start ==>
              && w.buf == r.start + off
              && w.len == Min(r.chunk, r.end + 1 - w.buf)
              && 1 <= w.len
              && w.buf + w.len <= r.end + 1
    ensures r.Valid() && off == r.Size() ==> w.buf == r.end + 1 && w.len == 0
  {
    var buf := Wrap(r.start + off);
    var len := if Wrap(buf + r.chunk) > r.end then Wrap(r.end - buf + 1) else r.chunk;
    ReadWindow(StatusOk, buf, len)
  }

  // ----- setup_write -----

  /** Whether `setup_write` accepts a request: it fits the staging buffer and,
      unless it starts a new transfer at offset 0, either no short chunk has
      been seen yet or it carries no data. */
  predicate WriteAccepted(r: Region, c: Context, off: Word, len: Word)
  {
    len <= r.chunk && (off == 0 || !c.last || len == 0)
  }

  /** `setup_write`. The oversize check comes before the offset-0 reset of
      the short-chunk flag, so an oversize request at offset 0 leaves the flag
      set. A short request (any length other than one chunk) marks the
      transfer's last chunk and pads the whole staging buffer with 0xFF. */
  function SetupWrite(r: Region, c: Context, off: Word, len: Word): (s: WriteSetup)
    ensures s.status == StatusOk <==> WriteAccepted(r, c, off, len)
    ensures s.status != StatusOk ==> s.status == ErrAddress && s.next == c
    ensures s.status == StatusOk && len != r.chunk ==>
              s.next == c.(last := true, staging := Fill(PAD, r.chunk))
    ensures s.status == StatusOk && len == r.chunk ==>
              s.next.staging == c.staging && s.next.last == (c.last && off != 0)
    ensures s.next.verified == c.verified && s.next.cursor == c.cursor
    ensures c.Wf(r) ==> s.next.Wf(r)
  {
    if len > r.chunk then
      WriteSetup(ErrAddress, c)
    else
      var c1 := if off == 0 then c.(last := false) else c;
      if c1.last && len != 0 then
        WriteSetup(ErrAddress, c1)
      else if len != r.chunk then
        WriteSetup(StatusOk, c1.(last := true, staging := Fill(PAD, r.chunk)))
      else
        WriteSetup(StatusOk, c1)
  }

  /** The engine's copy of the received bytes into the buffer `setup_write`
      handed out: they overwrite the front of the staging buffer, and bytes
      beyond its capacity are not stored. This is the protocol engine's work,
      modelled only so that callback sequences can be replayed. */
  function Receive(c: Context, data: seq<bv8>): (c': Context)
    ensures |c'.staging| == |c.staging|
    ensures forall i :: 0 <= i < |c.staging| ==>
              c'.staging[i] == if i < |data| then data[i] else c.staging[i]
    ensures c'.verified == c.verified && c'.last == c.last && c'.cursor == c.cursor
  {
    var n := |c.staging|;
    if |data| <= n then c.(staging := data + c.staging[|data|..])
    else c.(staging := data[..n])
  }

  // ----- finish_write -----

  /** The first block of a transfer: data at offset 0 while the key has not
      been looked at. Only then is the validator consulted. */
  predicate FirstBlock(c: Context, off: Word, len: Word)
  {
    len != 0 && off == 0 && c.verified == ValidationUnknown
  }

  /** How the validator's answer is recorded: 0 means no key, -1 an invalid
      key, anything else a valid key. */
  function Verdict(v: Int8): (s: Validation)
    ensures s != ValidationUnknown
    ensures s == ValidationOk <==> v == 0
    ensures s == ValidationFailed <==> v == -1
  {
    if v == 0 then ValidationOk
    else if v == -1 then ValidationFailed
    else ValidationPending
  }

  /** The bounds test of `finish_write`, in 32-bit arithmetic: the chunk is
      let through when `off + _app_rom + len` does not exceed `_app_rom_end`. */
  predicate PassesBoundsCheck(r: Region, off: Word, len: Word)
  {
    Wrap(off + r.start + len) <= r.end
  }

  /** The tail of `finish_write`: bounds check, then program a full chunk
      from the staging buffer and fold the SAM result codes onto two
      statuses. */
  function Program(r: Region, c: Context, off: Word, len: Word, rc: FlashRc): (f: WriteFinish)
  {
    if !PassesBoundsCheck(r, off, len) then
      WriteFinish(ErrAddress, c, None)
    else
      var status := match rc
        case FlashRcOk => StatusOk
        case _ => ErrAddress;
      WriteFinish(status, c, Some(FlashWrite(Wrap(off + r.start), c.staging)))
  }

  /** `finish_write`, with `validate` standing for `Chip_validation` applied to
      the staged bytes and `rc` for the result the flash programmer would
      report. The engine passes back the staging buffer as `buf`. */
  function FinishWrite(r: Region, c: Context, off: Word, len: Word,
                       validate: seq<bv8> -> Int8, rc: FlashRc): (f: WriteFinish)
    ensures len == 0 ==> f == WriteFinish(StatusOk, c, None)
    ensures f.next.last == c.last && f.next.staging == c.staging
    ensures f.next.verified ==
              if FirstBlock(c, off, len) then Verdict(validate(c.staging)) else c.verified
    ensures f.next.cursor == if FirstBlock(c, off, len) then 0 else c.cursor
    ensures f.flashed.Some? <==>
              && len != 0
              && (FirstBlock(c, off, len) ==> validate(c.staging) == 0)
              && PassesBoundsCheck(r, off, len)
    ensures f.flashed.Some? ==>
              && f.flashed.value == FlashWrite(Wrap(r.start + off), c.staging)
              && (f.status == StatusOk <==> rc == FlashRcOk)
              && (f.status != StatusOk ==> f.status == ErrAddress)
    ensures f.status == ErrFile <==> FirstBlock(c, off, len) && validate(c.staging) == -1
    ensures f.flashed.None? && f.status == StatusOk ==>
              len == 0 || (FirstBlock(c, off, len) && Verdict(validate(c.staging)) == ValidationPending)
  {
    if len == 0 then
      WriteFinish(StatusOk, c, None)
    else if off == 0 && c.verified == ValidationUnknown then
      var c1 := c.(cursor := 0);
      var v := validate(c.staging);
      if v == 0 then
        Program(r, c1.(verified := ValidationOk), off, len, rc)
      else if v == -1 then
        WriteFinish(ErrFile, c1.(verified := ValidationFailed), None)
      else
        WriteFinish(StatusOk, c1.(verified := ValidationPending), None)
    else
      Program(r, c, off, len, rc)
  }

  /** `Chip_validation` on the SAM4S8C: a stub that accepts every image as
      carrying no key. */
  function Sam4s8cValidation(key: seq<bv8>): (v: Int8)
    ensures Verdict(v) == ValidationOk
  {
    0
  }
}
