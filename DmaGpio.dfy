/** Pulse generation on GPIO lines by DMA: a builder that appends control blocks to a
    contiguous buffer and, when asked to run, terminates or loops the chain. */
module DmaGpio {
  import opened Bcm2835
  import opened PhysicalMemory
  import opened DmaChain

  /** Bytes allocated for control blocks: always 32 MiB. */
  const BufferSize: nat := 32 * 1024 * 1024

  /** The exceptions the builder raises. */
  datatype Error = MemoryError | RuntimeError

  datatype Outcome = Ok | Raised(error: Error)

  /** Encoding three blocks lays their words side by side. */
  lemma EncodeThree(cbs: seq<ControlBlock>)
    requires |cbs| == 3
    ensures Encode(cbs) == Words(cbs[0]) + Words(cbs[1]) + Words(cbs[2])
  {
    var ws := Words(cbs[0]) + Words(cbs[1]) + Words(cbs[2]);
    forall i | 0 <= i < 24
      ensures Encode(cbs)[i] == ws[i]
    {
      assert i / 8 == 0 || i / 8 == 1 || i / 8 == 2;
    }
  }

  /** A consistent builder state: the cursor is the byte size of the chain of `steps`,
      which fits the buffer `words` (mapped at bus address `bus`, every address of
      which is a 32-bit word); the buffer starts with that chain, laid out from
      offset 0, except that the NEXTCONBK words of the blocks in `patches` were
      rewritten to end the chain (0) or to return to its head (`bus`). */
  ghost predicate Consistent(words: seq<Word>, bus: nat, cursor: nat, steps: seq<Step>, patches: map<nat, nat>) {
    && bus + 4 * |words| < WordRange
    && cursor == ControlBlockSize * ChainLength(steps)
    && (forall k :: k in patches ==> k < ChainLength(steps) && (patches[k] == 0 || patches[k] == bus))
    && Stores(words, Patched(Chain(bus, steps), patches))
  }

  /** Nothing added yet is consistent with any buffer contents. */
  lemma ConsistentEmpty(words: seq<Word>, bus: nat)
    requires bus + 4 * |words| < WordRange
    ensures Consistent(words, bus, 0, [], map[])
  {
  }

  /** Overwriting words at or after the end of block `k` leaves that block as it was. */
  lemma BlockAtOverwriteBelow(words: seq<Word>, at: nat, data: seq<Word>, k: nat)
    requires at + |data| <= |words| && 8 * k + 8 <= at
    ensures BlockAt(Overwrite(words, at, data), k) == BlockAt(words, k)
  {
  }

  /** Block n+j of the buffer after writing `data` from block `n` on is block j of `data`. */
  lemma BlockAtOverwrite(words: seq<Word>, n: nat, data: seq<Word>, j: nat)
    requires 8 * n + |data| <= |words| && 8 * j + 8 <= |data|
    ensures BlockAt(Overwrite(words, 8 * n, data), n + j) == BlockAt(data, j)
  {
    assert 8 * (n + j) == 8 * n + 8 * j;
  }

  /** Block j of an encoding is the j-th encoded block. */
  lemma BlockAtEncode(cbs: seq<ControlBlock>, j: nat)
    requires j < |cbs|
    ensures BlockAt(Encode(cbs), j) == cbs[j]
  {
    var ws := Encode(cbs);
    var w := Words(cbs[j]);
    forall i | 0 <= i < 8
      ensures ws[8 * j + i] == w[i]
    {
      assert (8 * j + i) / 8 == j && (8 * j + i) % 8 == i;
    }
    assert ws[8 * j] == w[0] && ws[8 * j + 1] == w[1] && ws[8 * j + 2] == w[2] && ws[8 * j + 3] == w[3];
    assert ws[8 * j + 4] == w[4] && ws[8 * j + 5] == w[5] && ws[8 * j + 6] == w[6] && ws[8 * j + 7] == w[7];
  }

  /** Reading the blocks back from an encoding gives the encoded blocks. */
  lemma EncodeStores(cbs: seq<ControlBlock>)
    ensures Stores(Encode(cbs), cbs)
  {
    forall k | 0 <= k < |cbs|
      ensures BlockAt(Encode(cbs), k) == cbs[k]
    {
      BlockAtEncode(cbs, k);
    }
  }

  /** Writing words that hold `blocks` just past the blocks the buffer holds makes it
      hold those blocks followed by `blocks`. */
  lemma StoresAppend(words: seq<Word>, cbs: seq<ControlBlock>, blocks: seq<ControlBlock>, data: seq<Word>)
    requires Stores(words, cbs) && Stores(data, blocks) && |data| == 8 * |blocks|
    requires 8 * |cbs| + |data| <= |words|
    ensures Stores(Overwrite(words, 8 * |cbs|, data), cbs + blocks)
  {
    var n := |cbs|;
    var w := Overwrite(words, 8 * n, data);
    forall k | 0 <= k < n + |blocks|
      ensures BlockAt(w, k) == (cbs + blocks)[k]
    {
      if k < n {
        BlockAtOverwriteBelow(words, 8 * n, data, k);
      } else {
        BlockAtOverwrite(words, n, data, k - n);
      }
    }
  }

  /** Writing the words of a new step's blocks at the cursor, when they fit, appends the
      step to the chain held in the buffer and moves the cursor past them; the
      patched links stay as they were. */
  lemma ConsistentAppend(words: seq<Word>, bus: nat, cursor: nat, steps: seq<Step>, patches: map<nat, nat>,
                         s: Step, data: seq<Word>)
    requires Consistent(words, bus, cursor, steps, patches)
    requires data == Encode(StepBlocks(bus, cursor, s))
    requires cursor + 4 * |data| <= 4 * |words|
    ensures cursor % 4 == 0 && |data| == 8 * StepLength(s)
    ensures Consistent(Overwrite(words, cursor / 4, data), bus, cursor + ControlBlockSize * StepLength(s), steps + [s], patches)
  {
    var n := ChainLength(steps);
    var chain := Chain(bus, steps);
    var blocks := StepBlocks(bus, cursor, s);
    assert cursor / 4 == 8 * n;
    ChainAppend(bus, steps, s);
    PatchedAppend(chain, blocks, patches);
    EncodeStores(blocks);
    StoresAppend(words, Patched(chain, patches), blocks, data);
  }

  /** When something was added, the NEXTCONBK word of the last block, 20 bytes into the
      block before the cursor, is a word of the buffer: word 8n-3 for a chain of n blocks. */
  lemma LastNextInBuffer(words: seq<Word>, bus: nat, cursor: nat, steps: seq<Step>, patches: map<nat, nat>)
    requires Consistent(words, bus, cursor, steps, patches) && cursor > 0
    ensures ChainLength(steps) > 0
    ensures cursor + 20 >= ControlBlockSize && (cursor + 20 - ControlBlockSize) % 4 == 0
    ensures (cursor + 20 - ControlBlockSize) / 4 == 8 * ChainLength(steps) - 3
    ensures cursor + 20 - ControlBlockSize + 4 <= 4 * |words|
  {
  }

  /** Rewriting the NEXTCONBK word of the last block (20 bytes into the block before the
      cursor) patches the chain's last block. */
  lemma ConsistentPatch(words: seq<Word>, bus: nat, cursor: nat, steps: seq<Step>, patches: map<nat, nat>, v: Word)
    requires Consistent(words, bus, cursor, steps, patches)
    requires cursor > 0 && (v == 0 || v == bus)
    ensures ChainLength(steps) > 0 && 8 * ChainLength(steps) - 3 < |words|
    ensures Consistent(words[(cursor + 20 - ControlBlockSize) / 4 := v], bus, cursor, steps,
                       patches[ChainLength(steps) - 1 := v])
  {
    var n := ChainLength(steps);
    var cbs := Chain(bus, steps);
    LastNextInBuffer(words, bus, cursor, steps, patches);
    var i := 8 * n - 3;
    var w := words[i := v];
    PatchedLast(cbs, patches, v);
    var p := Patched(cbs, patches);
    var after := Patched(cbs, patches[n - 1 := v]);
    assert after == p[n - 1 := p[n - 1].(next := v)];
    forall k | 0 <= k < n
      ensures BlockAt(w, k) == after[k]
    {
      assert BlockAt(words, k) == p[k];
      if k < n - 1 {
        assert BlockAt(w, k) == BlockAt(words, k);
      } else {
        assert BlockAt(w, k) == BlockAt(words, k).(next := v);
      }
    }
  }

  /** Run on a buffer whose links were never rewritten leaves in it exactly the
      terminated chain: every block as added, except that the last one's NEXTCONBK word
      is the head of the chain when looping and 0 otherwise. */
  lemma RunStoresTerminated(words: seq<Word>, bus: nat, cursor: nat, steps: seq<Step>, loop: bool)
    requires Consistent(words, bus, cursor, steps, map[]) && cursor > 0
    ensures ChainLength(steps) > 0 && 8 * ChainLength(steps) - 3 < |words|
    ensures var v := if loop then bus else 0;
      Stores(words[(cursor + 20 - ControlBlockSize) / 4 := v], Terminated(Chain(bus, steps), loop, bus))
  {
    var v: Word := if loop then bus else 0;
    ConsistentPatch(words, bus, cursor, steps, map[], v);
    TerminatedIsPatch(Chain(bus, steps), loop, bus);
  }

  /** The first `n` blocks held in `words` link only among themselves: every NEXTCONBK
      word is 0 (end of chain) or the bus address of one of those blocks. */
  ghost predicate LinksClosed(words: seq<Word>, bus: nat, n: nat) {
    && 8 * n <= |words|
    && forall k :: 0 <= k < n ==>
         BlockAt(words, k).next == 0 || exists j :: 0 <= j < n && BlockAt(words, k).next == bus + ControlBlockSize * j
  }

  /** Once the last block's link was rewritten, the chain in the buffer is closed, however
      many links were rewritten before (by earlier runs followed by more additions). */
  lemma ConsistentClosed(words: seq<Word>, bus: nat, cursor: nat, steps: seq<Step>, patches: map<nat, nat>)
    requires Consistent(words, bus, cursor, steps, patches)
    requires ChainLength(steps) > 0 && ChainLength(steps) - 1 in patches
    ensures LinksClosed(words, bus, ChainLength(steps))
  {
    var t := Patched(Chain(bus, steps), patches);
    PatchedClosed(bus, steps, patches);
    forall k | 0 <= k < |t|
      ensures BlockAt(words, k) == t[k]
    {
    }
  }

  /** The 24 words `add_pulse` writes, computed from the address of the block after the
      pulse, are the encoding of the pulse's three blocks. */
  lemma PulseLayout(bus: nat, at: nat, pinsMask: Word, lengthUs: nat,
                    next1: int, next2: int, next3: int, source1: int, source3: int, length2: int)
    requires next3 == at + 3 * ControlBlockSize + bus
    requires next2 == next3 - ControlBlockSize && next1 == next2 - ControlBlockSize
    requires source1 == next1 - 8 && source3 == next3 - 8 && length2 == 16 * lengthUs
    ensures [PulseInfo, source1, PulseDestination, PulseLength,
             PulseStride, next1, pinsMask, 0,
             DelayInfo, 0, DelayDestination, length2,
             DelayStride, next2, 0, 0,
             PulseInfo, source3, PulseDestination, PulseLength,
             PulseStride, next3, 0, pinsMask]
            == Encode(PulseBlocks(bus, at, pinsMask, lengthUs))
            == Encode(StepBlocks(bus, at, Pulse(pinsMask, lengthUs)))
  {
    EncodeThree(PulseBlocks(bus, at, pinsMask, lengthUs));
  }

  /** The 8 words `add_delay` writes are the encoding of the delay's block. */
  lemma DelayLayout(bus: nat, at: nat, delayUs: nat, next: int, source: int, length: int)
    requires next == bus + (at + ControlBlockSize) && source == next - 8 && length == 16 * delayUs
    ensures [DelayInfo, source, DelayDestination, length, DelayStride, next, 0, 0]
            == Encode(DelayBlocks(bus, at, delayUs))
            == Encode(StepBlocks(bus, at, Delay(delayUs)))
  {
    var cbs := DelayBlocks(bus, at, delayUs);
    assert Encode(cbs) == Encode([]) + Words(cbs[0]);
  }

  class DmaGpio {
    /** The control-block buffer. */
    const mem: CmaMemory
    /** Byte offset where the next block goes; bytes before it hold the chain. */
    var cursor: nat
    /** The pulses and delays added since the buffer was last cleared. */
    ghost var steps: seq<Step>
    /** NEXTCONBK words rewritten by `Run` or `FinalizeStream`, by block index. */
    ghost var patches: map<nat, nat>

    /** The buffer holds the chain of the added steps, with the patched links, and
        every address in it fits a 32-bit word. */
    ghost predicate Valid()
      reads this, mem, mem.words
    {
      Consistent(mem.words[..], mem.busAddress, cursor, steps, patches)
    }

    /** Allocates the buffer at bus address `bus`; nothing has been added yet. */
    constructor (bus: nat)
      requires bus + BufferSize < WordRange
      ensures Valid() && fresh(mem) && fresh(mem.words)
      ensures mem.busAddress == bus && mem.Size() == BufferSize
      ensures cursor == 0 && steps == [] && patches == map[]
    {
      mem := new CmaMemory(BufferSize, bus);
      cursor := 0;
      steps := [];
      patches := map[];
      new;
      ConsistentEmpty(mem.words[..], bus);
    }

    /** Appends a pulse on the pins of `pinsMask` lasting `lengthUs` microseconds: a
        set block, a delay block and a clear block. Raises MemoryError, changing
        nothing, when the three blocks do not fit. */
    method AddPulse(pinsMask: Word, lengthUs: nat) returns (outcome: Outcome)
      requires Valid() && DelayLength(lengthUs) < WordRange
      modifies this, mem.words
      ensures Valid() && patches == old(patches)
      ensures old(cursor) + 3 * ControlBlockSize > mem.Size() ==>
        && outcome == Raised(MemoryError) && cursor == old(cursor) && steps == old(steps)
        && mem.words[..] == old(mem.words[..])
      ensures old(cursor) + 3 * ControlBlockSize <= mem.Size() ==>
        && outcome == Ok && cursor == old(cursor) + 3 * ControlBlockSize
        && steps == old(steps) + [Pulse(pinsMask, lengthUs)]
        && mem.words[..] == Overwrite(old(mem.words[..]), old(cursor) / 4,
                                      Encode(PulseBlocks(mem.busAddress, old(cursor), pinsMask, lengthUs)))
    {
      var nextCb := cursor + 3 * ControlBlockSize;
      if nextCb > mem.Size() {
        return Raised(MemoryError);
      }
      var next3 := nextCb + mem.busAddress;
      var next2 := next3 - ControlBlockSize;
      var next1 := next2 - ControlBlockSize;
      var source1 := next1 - 8;
      var length2 := 16 * lengthUs;
      var source3 := next3 - 8;
      var data: seq<Word> := [
        PulseInfo, source1, PulseDestination, PulseLength,
        PulseStride, next1, pinsMask, 0,
        DelayInfo, 0, DelayDestination, length2,
        DelayStride, next2, 0, 0,
        PulseInfo, source3, PulseDestination, PulseLength,
        PulseStride, next3, 0, pinsMask];
      PulseLayout(mem.busAddress, cursor, pinsMask, lengthUs, next1, next2, next3, source1, source3, length2);
      ghost var before, at, stepsBefore := mem.words[..], cursor, steps;
      mem.Write(cursor, data);
      cursor, steps := nextCb, steps + [Pulse(pinsMask, lengthUs)];
      AppendKeepsValid(before, at, stepsBefore, Pulse(pinsMask, lengthUs), data);
      outcome := Ok;
    }

    /** Appends a delay of `delayUs` microseconds: one delay block. Raises MemoryError,
        changing nothing, when the block does not fit. */
    method AddDelay(delayUs: nat) returns (outcome: Outcome)
      requires Valid() && DelayLength(delayUs) < WordRange
      modifies this, mem.words
      ensures Valid() && patches == old(patches)
      ensures old(cursor) + ControlBlockSize > mem.Size() ==>
        && outcome == Raised(MemoryError) && cursor == old(cursor) && steps == old(steps)
        && mem.words[..] == old(mem.words[..])
      ensures old(cursor) + ControlBlockSize <= mem.Size() ==>
        && outcome == Ok && cursor == old(cursor) + ControlBlockSize
        && steps == old(steps) + [Delay(delayUs)]
        && mem.words[..] == Overwrite(old(mem.words[..]), old(cursor) / 4,
                                      Encode(DelayBlocks(mem.busAddress, old(cursor), delayUs)))
    {
      var nextCb := cursor + ControlBlockSize;
      if nextCb > mem.Size() {
        return Raised(MemoryError);
      }
      var next := mem.busAddress + nextCb;
      var source := next - 8;
      var length := 16 * delayUs;
      var data: seq<Word> := [DelayInfo, source, DelayDestination, length, DelayStride, next, 0, 0];
      DelayLayout(mem.busAddress, cursor, delayUs, next, source, length);
      ghost var before, at, stepsBefore := mem.words[..], cursor, steps;
      mem.Write(cursor, data);
      cursor, steps := nextCb, steps + [Delay(delayUs)];
      AppendKeepsValid(before, at, stepsBefore, Delay(delayUs), data);
      outcome := Ok;
    }

    /** Rewrites the NEXTCONBK word of the last block, 20 bytes into the block before
        the cursor, to `v`: 0 ends the chain there, the bus address of the buffer
        returns to its head. */
    method WriteLastNext(v: Word)
      requires Valid() && cursor > 0 && (v == 0 || v == mem.busAddress)
      modifies this, mem.words
      ensures Valid() && cursor == old(cursor) && steps == old(steps)
      ensures patches == old(patches)[ChainLength(steps) - 1 := v]
      ensures mem.words[..] == old(mem.words[..])[(cursor + 20 - ControlBlockSize) / 4 := v]
      ensures LinksClosed(mem.words[..], mem.busAddress, ChainLength(steps))
    {
      ghost var before, patchedBefore := mem.words[..], patches;
      LastNextInBuffer(before, mem.busAddress, cursor, steps, patches);
      mem.WriteInt(cursor + 20 - ControlBlockSize, v);
      patches := patches[ChainLength(steps) - 1 := v];
      PatchKeepsValid(before, patchedBefore, v);
      ConsistentClosed(mem.words[..], mem.busAddress, cursor, steps, patches);
    }

    /** After the words of a new step's blocks were written at the old cursor and the
        step recorded, the builder is consistent again. */
    lemma AppendKeepsValid(before: seq<Word>, at: nat, stepsBefore: seq<Step>, s: Step, data: seq<Word>)
      requires Consistent(before, mem.busAddress, at, stepsBefore, patches)
      requires data == Encode(StepBlocks(mem.busAddress, at, s)) && at + 4 * |data| <= 4 * |before|
      requires mem.words[..] == Overwrite(before, at / 4, data)
      requires cursor == at + ControlBlockSize * StepLength(s) && steps == stepsBefore + [s]
      ensures Valid()
    {
      ConsistentAppend(before, mem.busAddress, at, stepsBefore, patches, s, data);
    }

    /** After the last block's NEXTCONBK word was rewritten in the buffer and recorded
        in `patches`, the builder is consistent again. */
    lemma PatchKeepsValid(before: seq<Word>, patchedBefore: map<nat, nat>, v: Word)
      requires Consistent(before, mem.busAddress, cursor, steps, patchedBefore)
      requires cursor > 0 && (v == 0 || v == mem.busAddress)
      requires mem.words[..] == before[(cursor + 20 - ControlBlockSize) / 4 := v]
      requires patches == patchedBefore[ChainLength(steps) - 1 := v]
      ensures Valid()
    {
      ConsistentPatch(before, mem.busAddress, cursor, steps, patchedBefore, v);
    }

    /** Marks the last block as the end of the chain: its NEXTCONBK word becomes 0. */
    method FinalizeStream()
      requires Valid() && cursor > 0
      modifies this, mem.words
      ensures Valid() && cursor == old(cursor) && steps == old(steps)
      ensures patches == old(patches)[ChainLength(steps) - 1 := 0]
      ensures mem.words[..] == old(mem.words[..])[(cursor + 20 - ControlBlockSize) / 4 := 0]
      ensures LinksClosed(mem.words[..], mem.busAddress, ChainLength(steps))
    {
      WriteLastNext(0);
    }

    /** Terminates the chain before the engine is started: the last block's NEXTCONBK
        word becomes the head of the chain when `loop` is set, and 0 otherwise. Raises
        RuntimeError, changing nothing, when nothing was added. */
    method Run(loop: bool) returns (outcome: Outcome)
      requires Valid()
      modifies this, mem.words
      ensures Valid() && cursor == old(cursor) && steps == old(steps)
      ensures old(cursor) == 0 ==>
        && outcome == Raised(RuntimeError) && patches == old(patches) && mem.words[..] == old(mem.words[..])
      ensures old(cursor) != 0 ==>
        var v := if loop then mem.busAddress else 0;
        && outcome == Ok
        && patches == old(patches)[ChainLength(steps) - 1 := v]
        && mem.words[..] == old(mem.words[..])[(cursor + 20 - ControlBlockSize) / 4 := v]
        && LinksClosed(mem.words[..], mem.busAddress, ChainLength(steps))
    {
      if cursor == 0 {
        return Raised(RuntimeError);
      }
      if loop {
        WriteLastNext(mem.busAddress);
      } else {
        FinalizeStream();
      }
      outcome := Ok;
    }

    /** Forgets every added step; the buffer's words are left as they are. */
    method Clear()
      requires Valid()
      modifies this
      ensures Valid() && cursor == 0 && steps == [] && patches == map[]
      ensures mem.words[..] == old(mem.words[..])
    {
      cursor := 0;
      steps := [];
      patches := map[];
    }
  }
}
