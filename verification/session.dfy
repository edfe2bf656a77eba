/**
 Sequences of callback invocations, as the DFU engine drives them during one
 download, and what the transfer state guarantees across such a sequence:
 a short chunk must be the last one, the key is looked at once, and every
 chunk after the first is programmed whatever the validation said.
 */
module Session {
  import opened Words
  import opened Transfer

  /** One thing that can happen to the transfer state between two polls. */
  datatype Event =
    | Read(readOff: Word)
    | PrepareWrite(off: Word, len: Word)
    | Copy(data: seq<bv8>)
    | CompleteWrite(off: Word, len: Word, validate: seq<bv8> -> Int8, rc: FlashRc)

  /** The state after one event. */
  function Step(r: Region, c: Context, e: Event): (c': Context)
  {
    match e
    case Read(_) => c
    case PrepareWrite(off, len) => SetupWrite(r, c, off, len).next
    case Copy(data) => Receive(c, data)
    case CompleteWrite(off, len, validate, rc) => FinishWrite(r, c, off, len, validate, rc).next
  }

  /** The state after a sequence of events. The staging buffer keeps its
      size, and once the key has been looked at the validation state never
      changes again. */
  function Run(r: Region, c: Context, evs: seq<Event>): (c': Context)
    ensures c.Wf(r) ==> c'.Wf(r)
    ensures c.verified != ValidationUnknown ==> c'.verified == c.verified
    decreases |evs|
  {
    if evs == [] then c else Run(r, Step(r, c, evs[0]), evs[1..])
  }

  /** No event in `evs` prepares a write at offset 0, the only thing that
      starts a new transfer. */
  predicate NoRestart(evs: seq<Event>)
  {
    forall i :: 0 <= i < |evs| ==> !(evs[i].PrepareWrite? && evs[i].off == 0)
  }

  /** Once a short chunk has been seen, the flag stays set until a write is
      prepared at offset 0. */
  lemma {:induction false} TerminalChunkSticks(r: Region, c: Context, evs: seq<Event>)
    requires c.last
    requires NoRestart(evs)
    ensures Run(r, c, evs).last
    decreases |evs|
  {
    if evs != [] {
      var c1 := Step(r, c, evs[0]);
      assert !(evs[0].PrepareWrite? && evs[0].off == 0);
      assert c1.last;
      assert NoRestart(evs[1..]) by {
        forall i | 0 <= i < |evs[1..]|
          ensures !(evs[1..][i].PrepareWrite? && evs[1..][i].off == 0)
        {
          assert evs[1..][i] == evs[i + 1];
        }
      }
      TerminalChunkSticks(r, c1, evs[1..]);
    }
  }

  /** After an accepted short chunk, whatever the engine does short of
      restarting at offset 0, a later write is accepted exactly when it
      carries no data or restarts at offset 0 within the staging capacity. */
  lemma ShortChunkMustBeLast(r: Region, c: Context, off0: Word, len0: Word,
                             evs: seq<Event>, off: Word, len: Word)
    requires SetupWrite(r, c, off0, len0).status == StatusOk
    requires len0 != r.chunk
    requires NoRestart(evs)
    ensures var c' := Run(r, SetupWrite(r, c, off0, len0).next, evs);
            var s := SetupWrite(r, c', off, len);
            && (s.status == StatusOk <==> len <= r.chunk && (len == 0 || off == 0))
            && (off != 0 && len != 0 ==> s == WriteSetup(ErrAddress, c'))
  {
    TerminalChunkSticks(r, SetupWrite(r, c, off0, len0).next, evs);
  }

  /** A short chunk is programmed as the received bytes followed by 0xFF
      padding up to a full chunk, never with stale bytes of an earlier
      chunk. */
  lemma ShortChunkPaddedWithErased(r: Region, c: Context, off: Word, data: seq<bv8>,
                                   validate: seq<bv8> -> Int8, rc: FlashRc)
    requires 0 < |data| < r.chunk
    requires WriteAccepted(r, c, off, |data|)
    requires PassesBoundsCheck(r, off, |data|)
    requires off == 0 && c.verified == ValidationUnknown ==>
               validate(data + Fill(PAD, r.chunk - |data|)) == 0
    ensures var c1 := SetupWrite(r, c, off, |data|).next;
            var f := FinishWrite(r, Receive(c1, data), off, |data|, validate, rc);
            f.flashed == Some(FlashWrite(Wrap(r.start + off), data + Fill(PAD, r.chunk - |data|)))
  {
    var c1 := SetupWrite(r, c, off, |data|).next;
    var c2 := Receive(c1, data);
    assert c2.staging == data + Fill(PAD, r.chunk - |data|);
  }

  /** A full chunk is programmed exactly as received. */
  lemma FullChunkProgrammedVerbatim(r: Region, c: Context, off: Word, data: seq<bv8>,
                                    validate: seq<bv8> -> Int8, rc: FlashRc)
    requires c.Wf(r)
    requires |data| == r.chunk > 0
    requires WriteAccepted(r, c, off, |data|)
    requires PassesBoundsCheck(r, off, |data|)
    requires off == 0 && c.verified == ValidationUnknown ==> validate(data) == 0
    ensures var c1 := SetupWrite(r, c, off, |data|).next;
            var f := FinishWrite(r, Receive(c1, data), off, |data|, validate, rc);
            f.flashed == Some(FlashWrite(Wrap(r.start + off), data))
  {
    var c1 := SetupWrite(r, c, off, |data|).next;
    assert Receive(c1, data).staging == data;
  }

  /** The validator is consulted only on the first block: outside it, any
      two validators give the same outcome. */
  lemma ValidatorOnlyOnFirstBlock(r: Region, c: Context, off: Word, len: Word,
                                  v1: seq<bv8> -> Int8, v2: seq<bv8> -> Int8, rc: FlashRc)
    requires !FirstBlock(c, off, len)
    ensures FinishWrite(r, c, off, len, v1, rc) == FinishWrite(r, c, off, len, v2, rc)
  {
  }

  /** Once the key has been looked at, whatever it said (even an invalid
      key), every later chunk with data that passes the bounds check is
      programmed, including one at offset 0. */
  lemma ValidationNeverRevisited(r: Region, c: Context, evs: seq<Event>, off: Word, len: Word,
                                 validate: seq<bv8> -> Int8, rc: FlashRc)
    requires c.verified != ValidationUnknown
    requires len != 0 && PassesBoundsCheck(r, off, len)
    ensures var c' := Run(r, c, evs);
            FinishWrite(r, c', off, len, validate, rc).flashed ==
              Some(FlashWrite(Wrap(r.start + off), c'.staging))
  {
  }

  /** A valid key: the key-bearing first block is consumed without being
      programmed, and a chunk that follows it is programmed normally. */
  lemma ValidKeySkipsFirstBlock(r: Region, c: Context, len0: Word, validate: seq<bv8> -> Int8,
                                rc0: FlashRc, evs: seq<Event>, off: Word, len: Word, rc: FlashRc)
    requires FirstBlock(c, 0, len0)
    requires validate(c.staging) != 0 && validate(c.staging) != -1
    requires len != 0 && PassesBoundsCheck(r, off, len)
    ensures var f := FinishWrite(r, c, 0, len0, validate, rc0);
            && f.status == StatusOk
            && f.flashed.None?
            && f.next.verified == ValidationPending
            && var c' := Run(r, f.next, evs);
               FinishWrite(r, c', off, len, validate, rc).flashed ==
                 Some(FlashWrite(Wrap(r.start + off), c'.staging))
  {
    var f := FinishWrite(r, c, 0, len0, validate, rc0);
    ValidationNeverRevisited(r, f.next, evs, off, len, validate, rc);
  }

  /** With the SAM4S8C stub validator the first block is always treated as
      key-less: validation becomes Ok and the block is programmed at the
      region start when it passes the bounds check. */
  lemma StubValidatorFlashesFirstBlock(r: Region, c: Context, len: Word, rc: FlashRc)
    requires FirstBlock(c, 0, len)
    ensures var f := FinishWrite(r, c, 0, len, Sam4s8cValidation, rc);
            && f.next.verified == ValidationOk
            && (f.flashed.Some? <==> PassesBoundsCheck(r, 0, len))
            && (f.flashed.Some? ==> f.flashed.value.addr == r.start)
  {
  }

  /** Entering update mode re-arms the one-shot validation: the next block
      with data at offset 0 goes to the validator, and an invalid key is
      reported as a file error without programming anything. */
  lemma InitArmsValidation(r: Region, c: Context, len: Word,
                           validate: seq<bv8> -> Int8, rc: FlashRc)
    requires len != 0
    ensures var c0 := InitUsbBootloader(c);
            var f := FinishWrite(r, c0, 0, len, validate, rc);
            && f.next.verified == Verdict(validate(c.staging))
            && (validate(c.staging) == -1 ==> f.status == ErrFile && f.flashed.None?)
  {
  }
}
