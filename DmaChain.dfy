/** The chain of DMA control blocks that the pulse builder lays out in its buffer,
    as pure functions of the steps added so far. A control block is 8 words (32
    bytes, section 4.2.1.1 of the BCM2835 ARM Peripherals manual): TI, SOURCE_AD,
    DEST_AD, TXFR_LEN, STRIDE, NEXTCONBK and two words the engine does not read,
    which the builder uses to hold the data a block copies. */
module DmaChain {
  import opened Bcm2835

  /** Bytes of one control block (8 words). */
  const ControlBlockSize: nat := 32

  // Control-block words fixed when the builder is created.

  // Their values are written out; FixedFields shows how each is composed.

  /** Delay block: no read, writes paced by the PWM's DREQ. */
  const DelayInfo: nat := 0x405_0840
  /** Delay block destination: the PWM FIFO. */
  const DelayDestination: nat := PwmBus + PwmFifoOffset
  const DelayStride: nat := 0
  /** Pulse block: a 2D transfer that waits for each write to complete. */
  const PulseInfo: nat := 0x400_000A
  /** Pulse block destination: the GPIO set register of bank 0. */
  const PulseDestination: nat := GpioBus + GpioSetOffset
  /** Two rows of one 4-byte word. */
  const PulseLength: nat := 0x2_0004
  /** After a row, the destination moves 12 bytes (set register to clear register)
      and the source 4 bytes (to the next payload word). */
  const PulseStride: nat := 0xC_0004

  /** Bit `bit` (a power of two) is set in the TI word `ti`. */
  predicate HasTiBit(ti: nat, bit: nat)
    requires bit > 0
  {
    ti / bit % 2 == 1
  }

  /** What the fixed words say: a delay block ignores its source and is paced by the
      PWM's DREQ, a pulse block is a 2D transfer of two one-word rows whose destination
      moves from the GPIO set register to the clear register and whose source moves one
      word. */
  lemma FixedFields()
    ensures HasTiBit(DelayInfo, TiSrcIgnore) && HasTiBit(DelayInfo, TiDestDreq)
    ensures HasTiBit(DelayInfo, TiNoWideBursts) && PerMapOf(DelayInfo) == PerMapPwm
    ensures HasTiBit(PulseInfo, TiTdMode) && HasTiBit(PulseInfo, TiWaitResp)
    ensures HasTiBit(PulseInfo, TiNoWideBursts) && PerMapOf(PulseInfo) == 0
    ensures XLengthOf(PulseLength) == 4 && YLengthOf(PulseLength) == 2
    ensures DStrideOf(PulseStride) == 12 && SStrideOf(PulseStride) == 4
    ensures PulseDestination + DStrideOf(PulseStride) == GpioBus + GpioClearOffset
    ensures DelayInfo == TiNoWideBursts + TiSrcIgnore + TiPerMap(PerMapPwm) + TiDestDreq
    ensures PulseInfo == TiNoWideBursts + TiTdMode + TiWaitResp
    ensures PulseLength == TxfrLen(2, 4) && PulseStride == Stride(12, 4)
  {
  }

  /** One control block: TI, SOURCE_AD, DEST_AD, TXFR_LEN, STRIDE, NEXTCONBK and two
      words the engine does not read. */
  datatype ControlBlock = ControlBlock(ti: int, source: int, dest: int, length: int,
                                       stride: int, next: int, pad0: int, pad1: int)

  /** The 8 words of a block as they lie in memory. */
  function Words(cb: ControlBlock): (ws: seq<int>)
    ensures |ws| == 8
  {
    [cb.ti, cb.source, cb.dest, cb.length, cb.stride, cb.next, cb.pad0, cb.pad1]
  }

  /** The words of consecutive blocks: word i is word i % 8 of block i / 8. */
  function Encode(cbs: seq<ControlBlock>): (ws: seq<int>)
    ensures |ws| == 8 * |cbs|
  {
    seq(8 * |cbs|, i requires 0 <= i < 8 * |cbs| => Words(cbs[i / 8])[i % 8])
  }

  /** Block `k` lies at words 8k to 8k+7 of the encoding. */
  lemma EncodeAt(cbs: seq<ControlBlock>, k: nat)
    requires k < |cbs|
    ensures Encode(cbs)[8 * k .. 8 * k + 8] == Words(cbs[k])
  {
    forall j | 0 <= j < 8
      ensures Encode(cbs)[8 * k + j] == Words(cbs[k])[j]
    {
      assert (8 * k + j) / 8 == k && (8 * k + j) % 8 == j;
    }
  }

  /** The block whose 8 words lie at words 8k to 8k+7 of `words`. */
  function BlockAt(words: seq<int>, k: nat): ControlBlock
    requires 8 * k + 8 <= |words|
  {
    ControlBlock(words[8 * k], words[8 * k + 1], words[8 * k + 2], words[8 * k + 3],
                 words[8 * k + 4], words[8 * k + 5], words[8 * k + 6], words[8 * k + 7])
  }

  /** `words` begins with the blocks `cbs`, 8 words each. */
  ghost predicate Stores(words: seq<int>, cbs: seq<ControlBlock>) {
    8 * |cbs| <= |words| && forall k {:trigger BlockAt(words, k)} :: 0 <= k < |cbs| ==> BlockAt(words, k) == cbs[k]
  }

  /** What one call of the builder appends: a pulse on the pins of `pinsMask`
      lasting `lengthUs` microseconds, or a delay of `delayUs` microseconds. */
  datatype Step = Pulse(pinsMask: nat, lengthUs: nat) | Delay(delayUs: nat)

  /** Control blocks a step occupies: three for a pulse, one for a delay. */
  function StepLength(s: Step): nat {
    if s.Pulse? then 3 else 1
  }

  /** Control blocks the first `n` steps occupy; they take 32 times as many bytes. */
  function ChainLengthOf(steps: seq<Step>, n: nat): (len: nat)
    requires n <= |steps|
    ensures len >= n
  {
    if n == 0 then 0 else ChainLengthOf(steps, n - 1) + StepLength(steps[n - 1])
  }

  /** Control blocks the whole chain occupies. */
  function ChainLength(steps: seq<Step>): nat {
    ChainLengthOf(steps, |steps|)
  }

  /** Length word of a delay block: 16 bytes of PWM FIFO traffic per microsecond. */
  function DelayLength(us: nat): nat {
    16 * us
  }

  /** The three blocks of a pulse whose first block sits at byte offset `at` of the
      buffer mapped at bus address `bus`: set the pins, wait, clear the pins. The two
      copying blocks keep their data in their own trailing words. */
  function PulseBlocks(bus: nat, at: nat, pinsMask: nat, lengthUs: nat): (cbs: seq<ControlBlock>)
    ensures |cbs| == 3
    ensures forall k :: 0 <= k < 3 ==> cbs[k].next == bus + at + ControlBlockSize * (k + 1)
    ensures cbs[0].source == bus + at + 24 && cbs[0].pad0 == pinsMask && cbs[0].pad1 == 0
    ensures cbs[2].source == bus + at + 2 * ControlBlockSize + 24 && cbs[2].pad0 == 0 && cbs[2].pad1 == pinsMask
    ensures cbs[1].length == DelayLength(lengthUs)
  {
    var b := bus + at;
    [ControlBlock(PulseInfo, b + 24, PulseDestination, PulseLength, PulseStride, b + 32, pinsMask, 0),
     ControlBlock(DelayInfo, 0, DelayDestination, DelayLength(lengthUs), DelayStride, b + 64, 0, 0),
     ControlBlock(PulseInfo, b + 88, PulseDestination, PulseLength, PulseStride, b + 96, 0, pinsMask)]
  }

  /** The single block of a delay at byte offset `at`. */
  function DelayBlocks(bus: nat, at: nat, delayUs: nat): (cbs: seq<ControlBlock>)
    ensures |cbs| == 1 && cbs[0].next == bus + at + ControlBlockSize
    ensures cbs[0].ti == DelayInfo && cbs[0].dest == PwmBus + PwmFifoOffset && cbs[0].length == DelayLength(delayUs)
  {
    var b := bus + at;
    [ControlBlock(DelayInfo, b + 24, DelayDestination, DelayLength(delayUs), DelayStride, b + 32, 0, 0)]
  }

  function StepBlocks(bus: nat, at: nat, s: Step): (cbs: seq<ControlBlock>)
    ensures |cbs| == StepLength(s)
  {
    match s
    case Pulse(mask, us) => PulseBlocks(bus, at, mask, us)
    case Delay(us) => DelayBlocks(bus, at, us)
  }

  /** The blocks of the first `n` steps, laid out from byte offset 0: each step's blocks
      start where the blocks of the steps before it end. */
  function ChainOf(bus: nat, steps: seq<Step>, n: nat): (cbs: seq<ControlBlock>)
    requires n <= |steps|
    ensures |cbs| == ChainLengthOf(steps, n)
  {
    if n == 0 then []
    else ChainOf(bus, steps, n - 1) + StepBlocks(bus, ControlBlockSize * ChainLengthOf(steps, n - 1), steps[n - 1])
  }

  /** The blocks of the whole chain. */
  function Chain(bus: nat, steps: seq<Step>): seq<ControlBlock> {
    ChainOf(bus, steps, |steps|)
  }

  /** The blocks of the first `n` steps do not depend on the steps added later. */
  lemma {:induction false} ChainOfExtend(bus: nat, steps: seq<Step>, s: Step, n: nat)
    requires n <= |steps|
    ensures ChainLengthOf(steps + [s], n) == ChainLengthOf(steps, n)
    ensures ChainOf(bus, steps + [s], n) == ChainOf(bus, steps, n)
    decreases n
  {
    if n > 0 {
      ChainOfExtend(bus, steps, s, n - 1);
      assert (steps + [s])[n - 1] == steps[n - 1];
    }
  }

  /** Appending a step appends its blocks at the end of the chain. */
  lemma ChainAppend(bus: nat, steps: seq<Step>, s: Step)
    ensures ChainLength(steps + [s]) == ChainLength(steps) + StepLength(s)
    ensures Chain(bus, steps + [s]) == Chain(bus, steps) + StepBlocks(bus, ControlBlockSize * ChainLength(steps), s)
  {
    ChainOfExtend(bus, steps, s, |steps|);
    assert (steps + [s])[|steps|] == s;
  }

  /** The NEXTCONBK word of every block of a step holds the bus address of the block
      after it. */
  lemma StepLinked(bus: nat, at: nat, s: Step)
    ensures forall k :: 0 <= k < StepLength(s) ==> StepBlocks(bus, at, s)[k].next == bus + at + ControlBlockSize * (k + 1)
  {
  }

  /** The linked-list invariant: the NEXTCONBK word of every block of the first `n`
      steps' blocks holds the bus address of the block that follows it in the buffer;
      the last block therefore points just past them. */
  lemma {:induction false} ChainLinked(bus: nat, steps: seq<Step>, n: nat)
    requires n <= |steps|
    ensures forall k :: 0 <= k < ChainLengthOf(steps, n) ==> ChainOf(bus, steps, n)[k].next == bus + ControlBlockSize * (k + 1)
    decreases n
  {
    if n > 0 {
      var m := ChainLengthOf(steps, n - 1);
      var sb := StepBlocks(bus, ControlBlockSize * m, steps[n - 1]);
      ChainLinked(bus, steps, n - 1);
      StepLinked(bus, ControlBlockSize * m, steps[n - 1]);
      var cbs := ChainOf(bus, steps, n);
      assert cbs == ChainOf(bus, steps, n - 1) + sb;
      forall k | 0 <= k < |cbs|
        ensures cbs[k].next == bus + ControlBlockSize * (k + 1)
      {
        if k >= m {
          assert cbs[k] == sb[k - m];
        }
      }
    }
  }

  /** The blocks of the first `j` steps are a prefix of the blocks of the first `n`. */
  lemma {:induction false} ChainPrefix(bus: nat, steps: seq<Step>, j: nat, n: nat)
    requires j <= n <= |steps|
    ensures ChainLengthOf(steps, j) <= ChainLengthOf(steps, n)
    ensures ChainOf(bus, steps, n)[..ChainLengthOf(steps, j)] == ChainOf(bus, steps, j)
    decreases n
  {
    if j < n {
      ChainPrefix(bus, steps, j, n - 1);
      var prefix := ChainOf(bus, steps, n - 1);
      var m := ChainLengthOf(steps, j);
      assert (prefix + StepBlocks(bus, ControlBlockSize * ChainLengthOf(steps, n - 1), steps[n - 1]))[..m] == prefix[..m];
    }
  }

  lemma SliceAfter<T>(a: seq<T>, p: seq<T>, q: seq<T>)
    requires |p| + |q| <= |a| && a[..|p| + |q|] == p + q
    ensures a[|p| .. |p| + |q|] == q
  {
    assert a[|p| .. |p| + |q|] == (p + q)[|p|..];
  }

  /** A step's blocks sit in the chain at the block count of the steps before it. */
  lemma ChainStepAt(bus: nat, steps: seq<Step>, s: nat)
    requires s < |steps|
    ensures var k := ChainLengthOf(steps, s);
      var sb := StepBlocks(bus, ControlBlockSize * k, steps[s]);
      && k + |sb| <= ChainLength(steps)
      && Chain(bus, steps)[k .. k + |sb|] == sb
  {
    var k := ChainLengthOf(steps, s);
    var sb := StepBlocks(bus, ControlBlockSize * k, steps[s]);
    var before := ChainOf(bus, steps, s);
    assert ChainOf(bus, steps, s + 1) == before + sb;
    assert |before| + |sb| == ChainLengthOf(steps, s + 1);
    ChainPrefix(bus, steps, s + 1, |steps|);
    var cbs := Chain(bus, steps);
    assert cbs[..|before| + |sb|] == before + sb;
    SliceAfter(cbs, before, sb);
  }

  /** The chain after `run`: the NEXTCONBK word of its last block rewritten to the head
      of the chain when looping, or to 0 (end of chain) otherwise. */
  function Terminated(cbs: seq<ControlBlock>, loop: bool, bus: nat): (t: seq<ControlBlock>)
    requires cbs != []
    ensures |t| == |cbs| && t[..|t| - 1] == cbs[..|cbs| - 1]
    ensures t[|t| - 1] == cbs[|cbs| - 1].(next := if loop then bus else 0)
  {
    cbs[|cbs| - 1 := cbs[|cbs| - 1].(next := if loop then bus else 0)]
  }

  /** Once terminated, no link of the chain leaves it: the NEXTCONBK word of every block
      is the bus address of a block of the chain, except that of the last block, which
      is 0 exactly when the chain is not looped. */
  lemma ChainClosed(bus: nat, steps: seq<Step>, loop: bool)
    requires steps != []
    ensures var n := ChainLength(steps);
      var t := Terminated(Chain(bus, steps), loop, bus);
      forall k :: 0 <= k < n ==>
        if !loop && k == n - 1 then t[k].next == 0
        else exists j :: 0 <= j < n && t[k].next == bus + ControlBlockSize * j
  {
    var n := ChainLength(steps);
    var cbs := Chain(bus, steps);
    var t := Terminated(cbs, loop, bus);
    ChainLinked(bus, steps, |steps|);
    forall k | 0 <= k < n && (loop || k != n - 1)
      ensures exists j :: 0 <= j < n && t[k].next == bus + ControlBlockSize * j
    {
      if k == n - 1 {
        assert t[k].next == bus + ControlBlockSize * 0;
      } else {
        assert t[k] == cbs[k];
        assert t[k].next == bus + ControlBlockSize * (k + 1);
      }
    }
  }

  /** Block `cb`, at index `k` of its chain, with its NEXTCONBK word rewritten when
      `patches` has an entry for `k`. */
  function Patch(cb: ControlBlock, k: nat, patches: map<nat, nat>): ControlBlock {
    if k in patches then cb.(next := patches[k]) else cb
  }

  /** The chain with the NEXTCONBK words of the blocks in `patches` rewritten. */
  function Patched(cbs: seq<ControlBlock>, patches: map<nat, nat>): (r: seq<ControlBlock>)
    ensures |r| == |cbs|
  {
    seq(|cbs|, k requires 0 <= k < |cbs| => Patch(cbs[k], k, patches))
  }

  /** Block `k` of a patched chain is block `k` of the chain, patched. */
  lemma PatchedAt(cbs: seq<ControlBlock>, patches: map<nat, nat>, k: nat)
    requires k < |cbs|
    ensures Patched(cbs, patches)[k] == Patch(cbs[k], k, patches)
  {
  }

  /** With no patches the chain is unchanged. */
  lemma PatchedNone(cbs: seq<ControlBlock>)
    ensures Patched(cbs, map[]) == cbs
  {
    forall k | 0 <= k < |cbs|
      ensures Patched(cbs, map[])[k] == cbs[k]
    {
      PatchedAt(cbs, map[], k);
    }
  }

  /** Adding a patch of the last block rewrites the NEXTCONBK word of the patched chain's
      last block. */
  lemma PatchedLast(cbs: seq<ControlBlock>, patches: map<nat, nat>, v: nat)
    requires cbs != []
    ensures var n := |cbs|; var p := Patched(cbs, patches);
      Patched(cbs, patches[n - 1 := v]) == p[n - 1 := p[n - 1].(next := v)]
  {
    var n := |cbs|;
    var p := Patched(cbs, patches);
    var q := Patched(cbs, patches[n - 1 := v]);
    forall k | 0 <= k < n
      ensures q[k] == p[n - 1 := p[n - 1].(next := v)][k]
    {
      PatchedAt(cbs, patches, k);
      PatchedAt(cbs, patches[n - 1 := v], k);
    }
  }

  /** Patches below the end of a chain leave the blocks appended after it alone. */
  lemma PatchedAppend(a: seq<ControlBlock>, b: seq<ControlBlock>, patches: map<nat, nat>)
    requires forall k :: k in patches ==> k < |a|
    ensures Patched(a + b, patches) == Patched(a, patches) + b
  {
    var p := Patched(a + b, patches);
    forall k | 0 <= k < |a| + |b|
      ensures p[k] == (Patched(a, patches) + b)[k]
    {
      PatchedAt(a + b, patches, k);
      if k < |a| {
        PatchedAt(a, patches, k);
      }
    }
  }

  /** Terminating a chain is patching its last block. */
  lemma TerminatedIsPatch(cbs: seq<ControlBlock>, loop: bool, bus: nat)
    requires cbs != []
    ensures Terminated(cbs, loop, bus) == Patched(cbs, map[|cbs| - 1 := if loop then bus else 0])
  {
    PatchedNone(cbs);
    PatchedLast(cbs, map[], if loop then bus else 0);
  }

  /** Patches that end the chain (0) or return to its head (`bus`) never make a link
      leave the buffer: every NEXTCONBK word of a patched chain is 0, the head of the
      chain, or the block right after its own. */
  lemma PatchedLinks(bus: nat, steps: seq<Step>, patches: map<nat, nat>)
    requires forall k :: k in patches ==> patches[k] == 0 || patches[k] == bus
    ensures var t := Patched(Chain(bus, steps), patches);
      forall k :: 0 <= k < |t| ==> t[k].next == 0 || t[k].next == bus || t[k].next == bus + ControlBlockSize * (k + 1)
  {
    var cbs := Chain(bus, steps);
    ChainLinked(bus, steps, |steps|);
    forall k | 0 <= k < |cbs|
      ensures Patched(cbs, patches)[k] == Patch(cbs[k], k, patches)
    {
      PatchedAt(cbs, patches, k);
    }
  }

  /** Once the last block's link was rewritten (to 0 or to the head), with every other
      rewritten link 0 or the head as well, no link leaves the chain: every NEXTCONBK word
      is 0 or the bus address of one of the chain's blocks. */
  lemma PatchedClosed(bus: nat, steps: seq<Step>, patches: map<nat, nat>)
    requires forall k :: k in patches ==> patches[k] == 0 || patches[k] == bus
    requires ChainLength(steps) > 0 && ChainLength(steps) - 1 in patches
    ensures var t := Patched(Chain(bus, steps), patches);
      forall k :: 0 <= k < |t| ==> t[k].next == 0 || exists j :: 0 <= j < |t| && t[k].next == bus + ControlBlockSize * j
  {
    var t := Patched(Chain(bus, steps), patches);
    var n := |t|;
    PatchedLinks(bus, steps, patches);
    forall k | 0 <= k < n && t[k].next != 0
      ensures exists j :: 0 <= j < n && t[k].next == bus + ControlBlockSize * j
    {
      if k == n - 1 {
        PatchedAt(Chain(bus, steps), patches, k);
      }
      if t[k].next == bus {
        assert t[k].next == bus + ControlBlockSize * 0;
      } else {
        assert t[k].next == bus + ControlBlockSize * (k + 1);
      }
    }
  }

  // What the DMA engine does with a 2D block: in row `r` it copies the word at the
  // row's source address to the row's destination address.

  function RowSource(cb: ControlBlock, r: nat): int {
    cb.source + r * SStrideOf(cb.stride)
  }

  function RowDestination(cb: ControlBlock, r: nat): int {
    cb.dest + r * DStrideOf(cb.stride)
  }

  /** Row `r` of block `k` of the chain (mapped at `bus`) reads trailing word `pad` (0
      or 1) of block `m` of the same chain, which holds `value`, and writes it to bus
      address `dest`. */
  predicate RowCopies(bus: nat, cbs: seq<ControlBlock>, k: nat, r: nat, m: nat, pad: nat, dest: nat, value: nat)
    requires k < |cbs|
  {
    && m < |cbs| && pad < 2
    && RowSource(cbs[k], r) == bus + ControlBlockSize * m + 24 + 4 * pad
    && (if pad == 0 then cbs[m].pad0 else cbs[m].pad1) == value
    && RowDestination(cbs[k], r) == dest
  }

  /** The block is a delay of `us` microseconds: it feeds DelayLength(us) bytes to the
      PWM FIFO, paced by the PWM's DREQ, and reads nothing. */
  predicate IsDelay(cb: ControlBlock, us: nat) {
    cb.ti == DelayInfo && cb.dest == PwmBus + PwmFifoOffset && cb.length == DelayLength(us)
  }

  /** A pulse at block `k` is set-wait-clear: its first block copies the pin mask to the
      GPIO set register and then 0 to the clear register, its second block is a delay of
      the pulse's length, and its third copies 0 to the set register and then the mask
      to the clear register. Both copying blocks are 2D transfers (their TI word is
      PulseInfo, whose TDMODE bit FixedFields shows) of two one-word rows, and take
      their data from their own trailing words. */
  predicate PulseAt(bus: nat, cbs: seq<ControlBlock>, k: nat, pinsMask: nat, lengthUs: nat) {
    && k + 3 <= |cbs|
    && cbs[k].ti == PulseInfo && cbs[k + 2].ti == PulseInfo
    && cbs[k].length == PulseLength && cbs[k + 2].length == PulseLength
    && RowCopies(bus, cbs, k, 0, k, 0, GpioBus + GpioSetOffset, pinsMask)
    && RowCopies(bus, cbs, k, 1, k, 1, GpioBus + GpioClearOffset, 0)
    && IsDelay(cbs[k + 1], lengthUs)
    && RowCopies(bus, cbs, k + 2, 0, k + 2, 0, GpioBus + GpioSetOffset, 0)
    && RowCopies(bus, cbs, k + 2, 1, k + 2, 1, GpioBus + GpioClearOffset, pinsMask)
  }

  /** The blocks `add_pulse` builds make a set-wait-clear pulse wherever they lie. */
  lemma PulseEffect(bus: nat, cbs: seq<ControlBlock>, k: nat, pinsMask: nat, lengthUs: nat)
    requires k + 3 <= |cbs|
    requires cbs[k .. k + 3] == PulseBlocks(bus, ControlBlockSize * k, pinsMask, lengthUs)
    ensures PulseAt(bus, cbs, k, pinsMask, lengthUs)
  {
    FixedFields();
    assert cbs[k] == cbs[k .. k + 3][0];
    assert cbs[k + 1] == cbs[k .. k + 3][1];
    assert cbs[k + 2] == cbs[k .. k + 3][2];
  }

  /** Every step of the chain does what it was added for: a pulse sets, waits and
      clears its pins, a delay waits. */
  lemma ChainSteps(bus: nat, steps: seq<Step>, s: nat)
    requires s < |steps|
    ensures var cbs := Chain(bus, steps);
      var k := ChainLengthOf(steps, s);
      match steps[s]
      case Pulse(mask, us) => PulseAt(bus, cbs, k, mask, us)
      case Delay(us) => k < |cbs| && IsDelay(cbs[k], us)
  {
    var cbs := Chain(bus, steps);
    var k := ChainLengthOf(steps, s);
    ChainStepAt(bus, steps, s);
    match steps[s]
    case Pulse(mask, us) =>
      PulseEffect(bus, cbs, k, mask, us);
    case Delay(us) =>
      assert cbs[k] == cbs[k .. k + 1][0];
  }
}
