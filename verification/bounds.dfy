/**
 Where `finish_write` lets flash programming land. The bounds test at
 main.c:193 compares `off + _app_rom + len` against the inclusive region end
 with `>`, works on the chunk's length while a full chunk is programmed, and is
 computed in 32-bit arithmetic. The model reproduces that test, and these
 lemmas state where it lets programming land.
 */
module Bounds {
  import opened Words
  import opened Transfer

  /** Without wrap-around, the bounds test lets a chunk through exactly when
      `off + _app_rom + len` is at most the inclusive end. */
  lemma BoundsCheckWithoutWrap(r: Region, off: Word, len: Word)
    requires off + r.start + len < WORD_SIZE
    ensures PassesBoundsCheck(r, off, len) <==> off + r.start + len <= r.end
  {
  }

  /** A chunk whose last byte is the region's last byte is rejected: the
      test treats the inclusive end as if it were exclusive. */
  lemma ChunkEndingOnLastByteRejected(r: Region, c: Context, off: Word, len: Word,
                                      validate: seq<bv8> -> Int8, rc: FlashRc)
    requires r.Valid()
    requires len != 0 && off + r.start + len == r.end + 1
    requires FirstBlock(c, off, len) ==> validate(c.staging) == 0
    ensures var f := FinishWrite(r, c, off, len, validate, rc);
            f.status == ErrAddress && f.flashed.None?
  {
  }

  /** `x` is a whole number of chunks of `k` bytes. */
  predicate MultipleOf(x: nat, k: nat)
    requires 0 < k
    decreases x
  {
    x == 0 || (k <= x && MultipleOf(x - k, k))
  }

  /** Chunk boundaries are at least a chunk apart: a multiple of `k` below
      another multiple of `k` is at least `k` below it. */
  lemma {:induction false} MultipleBelowMultiple(a: nat, b: nat, k: nat)
    requires 0 < k && a < b
    requires MultipleOf(a, k) && MultipleOf(b, k)
    ensures a + k <= b
    decreases a
  {
    if a != 0 {
      MultipleBelowMultiple(a - k, b - k, k);
    }
  }

  /** When the region size is a whole number of chunks and the engine writes
      at chunk boundaries, the full chunk programmed for any accepted write
      lies inside the region, even though the test looks only at `len`. */
  lemma {:induction false} ProgrammedRangeInRegion(r: Region, c: Context, off: Word, len: Word,
                                                   validate: seq<bv8> -> Int8, rc: FlashRc)
    requires r.Valid()
    requires MultipleOf(r.Size(), r.chunk) && MultipleOf(off, r.chunk)
    requires off + r.start + len < WORD_SIZE
    ensures var f := FinishWrite(r, c, off, len, validate, rc);
            f.flashed.Some? ==>
              && f.flashed.value.addr == r.start + off
              && r.start <= f.flashed.value.addr
              && f.flashed.value.addr + r.chunk <= r.end + 1
  {
    var f := FinishWrite(r, c, off, len, validate, rc);
    if f.flashed.Some? {
      assert len != 0;
      assert off + r.start + len <= r.end;
      MultipleBelowMultiple(off, r.Size(), r.chunk);
    }
  }

  /** Consequence for a region that is a whole number of chunks: the final
      chunk slot can only be written by a short chunk; a full chunk there is
      rejected, so an image that fills the region cannot be downloaded. */
  lemma FinalSlotRejectsFullChunk(r: Region, c: Context, validate: seq<bv8> -> Int8, rc: FlashRc)
    requires r.Valid() && r.chunk <= r.Size()
    requires c.verified != ValidationUnknown || r.chunk < r.Size()
    ensures var off := r.Size() - r.chunk;
            var f := FinishWrite(r, c, off, r.chunk, validate, rc);
            f.status == ErrAddress && f.flashed.None?
  {
    ChunkEndingOnLastByteRejected(r, c, r.Size() - r.chunk, r.chunk, validate, rc);
  }

  /** A chunk slot that straddles the region end (the region is not a whole
      number of chunks and `off` is the last slot): any chunk programmed there
      runs past the inclusive end, since the full staging buffer is
      programmed whatever the length. */
  lemma UnalignedFinalChunkOverruns(r: Region, c: Context, off: Word, len: Word,
                                    validate: seq<bv8> -> Int8, rc: FlashRc)
    requires r.Valid() && c.Wf(r)
    requires off < r.Size() < off + r.chunk
    ensures var f := FinishWrite(r, c, off, len, validate, rc);
            f.flashed.Some? ==> f.flashed.value.addr + |f.flashed.value.data| > r.end + 1
  {
  }

  /** Example of such a slot that the test lets through: a 10-byte region
      with 4-byte chunks, one byte at offset 8. */
  lemma UnalignedRegionOverrun()
    ensures var r := Region(0x1000, 0x1009, 4);
            var c := Context(ValidationOk, true, Fill(PAD, 4), 0);
            var f := FinishWrite(r, c, 8, 1, Sam4s8cValidation, FlashRcOk);
            && r.Valid() && !MultipleOf(r.Size(), r.chunk)
            && f.flashed.Some?
            && f.flashed.value.addr + |f.flashed.value.data| > r.end + 1
  {
  }

  /** The test is computed modulo 2^32: whenever `off + _app_rom` carries past
      the top of the address space, a chunk that is programmed lands below the
      region start. The DFU engine's offsets stay far below such values. */
  lemma WrappedOffsetProgramsBelowRegion(r: Region, c: Context, off: Word, len: Word,
                                         validate: seq<bv8> -> Int8, rc: FlashRc)
    requires r.Valid()
    requires off + r.start >= WORD_SIZE
    ensures var f := FinishWrite(r, c, off, len, validate, rc);
            f.flashed.Some? ==> f.flashed.value.addr < r.start
  {
  }

  /** Example of a wrapping offset that the test lets through and that is
      programmed at address 0. */
  lemma WrappedOffsetPassesBoundsCheck()
    ensures var r := Region(0x4000, 0x3_FFFF, 0x400);
            var c := Context(ValidationOk, false, Fill(PAD, 0x400), 0);
            var f := FinishWrite(r, c, WORD_SIZE - 0x4000, 1, Sam4s8cValidation, FlashRcOk);
            && r.Valid()
            && f.status == StatusOk
            && f.flashed == Some(FlashWrite(0, c.staging))
  {
  }

  /** `setup_read` beyond the end-of-upload offset: the negative length
      wraps to a huge `size_t`. The engine stops at the empty window, so it
      never asks for this. */
  lemma ReadPastEndWraps(r: Region)
    requires r.Valid() && r.end + r.chunk + 2 < WORD_SIZE
    ensures SetupRead(r, r.Size() + 1).len == WORD_SIZE - 1
  {
  }
}
