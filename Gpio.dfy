/** Direct register-level control of the GPIO lines: function select, the
    latched pull-up/pull-down protocol, set, clear and read. */
module Gpio {
  import opened Bcm2835
  import opened Registers

  const ModeOutput: int := 1
  const ModeInputNoPull: int := 2
  const ModeInputPullUp: int := 3
  const ModeInputPullDown: int := 4

  /** `k` as a 32-bit shift amount. */
  function BitIndex(k: nat): (b: bv32)
    requires k < 32
    ensures b < 32
  {
    k as bv32
  }

  /** Bit `k` of `v` is set. */
  predicate HasBit(v: bv32, k: bv32)
    requires k < 32
  {
    v & (1 << k) != 0
  }

  /** Register of the pin's 32-line bank, starting from the bank-0 register at `base`. */
  function BankAddr(pin: nat, base: nat): (a: nat)
    ensures base <= a && (a - base) % 4 == 0 && (a - base) / 4 == pin / 32
  {
    4 * (pin / 32) + base
  }

  /** Position of the pin's line in its 32-line bank. */
  function BankBit(pin: nat): (k: bv32)
    ensures k < 32
  {
    BitIndex(pin % 32)
  }

  /** The word with only bit `k` set. */
  function SingleBit(k: bv32): (m: bv32)
    requires k < 32
    ensures forall j: bv32 :: j < 32 ==> (HasBit(m, j) <==> j == k)
  {
    1 << k
  }

  /** The write-1 mask that addresses exactly the pin's line in its bank. */
  function PinMask(pin: nat): (m: bv32)
    ensures forall j: bv32 :: j < 32 ==> (HasBit(m, j) <==> j == BankBit(pin))
  {
    SingleBit(BankBit(pin))
  }

  /** Function-select register holding the pin's 3-bit field (ten pins per register). */
  function FselAddr(pin: nat): (a: nat)
    ensures GpioFselOffset <= a && (a - GpioFselOffset) % 4 == 0 && (a - GpioFselOffset) / 4 == pin / 10
  {
    4 * (pin / 10) + GpioFselOffset
  }

  /** Lowest bit of the pin's function-select field. */
  function FselShift(pin: nat): (s: bv32)
    ensures s <= 27
  {
    BitIndex((pin % 10) * 3)
  }

  /** The three bits of the 3-bit field at `s`. */
  function FieldMask(s: bv32): bv32
    requires s <= 27
  {
    7 << s
  }

  /** A value of the 3-bit field at `s` fits inside the field's mask. */
  lemma FieldFits(f: bv32, s: bv32)
    requires f < 8 && s <= 27
    ensures (f << s) & !FieldMask(s) == 0
  {
  }

  /** `v` with the bits under mask `m` cleared and `x` (which lies inside `m`) or-ed in. */
  function Overlay(v: bv32, m: bv32, x: bv32): (r: bv32)
    requires x & !m == 0
    ensures r & !m == v & !m
    ensures r & m == x
  {
    (v & !m) | x
  }

  /** `v` with its 3-bit field at `s` replaced by `f`. */
  function SetField(v: bv32, s: bv32, f: bv32): bv32
    requires s <= 27 && f < 8
  {
    FieldFits(f, s);
    Overlay(v, FieldMask(s), f << s)
  }

  /** `SetField` rewrites exactly the field: the field holds `f`, every other bit is kept. */
  lemma SetFieldSpec(v: bv32, s: bv32, f: bv32)
    requires s <= 27 && f < 8
    ensures SetField(v, s, f) & !FieldMask(s) == v & !FieldMask(s)
    ensures SetField(v, s, f) & FieldMask(s) == f << s
  {
  }

  /** Function-select code of a mode: 001 for output, 000 (input) for every other mode. */
  function FselCode(mode: int): bv32 {
    if mode == ModeOutput then 1 else 0
  }

  /** The function-select register `v` with the pin's field rewritten for `mode`. */
  function FunctionSelect(v: bv32, pin: nat, mode: int): bv32 {
    SetField(v, FselShift(pin), FselCode(mode))
  }

  /** Pull-control code: 2 pulls up, 1 pulls down, 0 disables the pull resistor. */
  function PullCode(mode: int): bv32 {
    if mode == ModeInputPullUp then 2
    else if mode == ModeInputPullDown then 1
    else 0
  }

  /** `p` with its low two bits replaced by `c` and every other bit kept. */
  function SetLowBits(p: bv32, c: bv32): (r: bv32)
    requires c < 4
    ensures r & 3 == c
    ensures r & !3 == p & !3
  {
    (p & !3) | c
  }

  /** The pull-control register `p` with its low two bits replaced by the mode's code. */
  function PullValue(p: bv32, mode: int): bv32 {
    SetLowBits(p, PullCode(mode))
  }

  /** The four stores of the latched pull protocol, given the pull-control register `pud`
      as read at its start. */
  function PullWrites(pud: bv32, pin: nat, mode: int): (w: seq<RegWrite>)
    ensures |w| == 4
    ensures w[0].offset == GpioPullUpDnOffset && w[2].offset == GpioPullUpDnOffset
    ensures w[1].offset == BankAddr(pin, GpioPullUpDnClkOffset) && w[3].offset == BankAddr(pin, GpioPullUpDnClkOffset)
  {
    var p := PullValue(pud, mode);
    var clk := BankAddr(pin, GpioPullUpDnClkOffset);
    [RegWrite(GpioPullUpDnOffset, p), RegWrite(clk, PinMask(pin)),
     RegWrite(GpioPullUpDnOffset, SetLowBits(p, 0)), RegWrite(clk, 0)]
  }

  /** The stores `init` makes, starting from the register state `regs`. */
  function InitWrites(regs: map<nat, bv32>, pin: nat, mode: int): (w: seq<RegWrite>)
    ensures |w| == if mode == ModeOutput then 1 else 5
    ensures w[0] == RegWrite(FselAddr(pin), FunctionSelect(Get(regs, FselAddr(pin)), pin, mode))
  {
    var addr := FselAddr(pin);
    var v := FunctionSelect(Get(regs, addr), pin, mode);
    [RegWrite(addr, v)]
      + if mode == ModeOutput then [] else PullWrites(Get(regs[addr := v], GpioPullUpDnOffset), pin, mode)
  }

  /** Bit `k` of `v` as the integer 0 or 1, found by masking. */
  function BitValue(v: bv32, k: bv32): (r: int)
    requires k < 32
    ensures r == 0 || r == 1
    ensures r == 1 <==> HasBit(v, k)
  {
    if v & (1 << k) == 0 then 0 else 1
  }

  /** First step of the pull protocol: the pull-control register gets the mode's code
      in its low two bits, its other bits kept. */
  lemma PullCodeWritten(pud: bv32, pin: nat, mode: int)
    ensures var w := PullWrites(pud, pin, mode);
      && |w| == 4
      && w[0].offset == GpioPullUpDnOffset
      && w[0].value & 3 == PullCode(mode)
      && w[0].value & !3 == pud & !3
  {
  }

  /** Second step: the clock register of the pin's bank is strobed with exactly the pin's bit. */
  lemma PullClockStrobed(pud: bv32, pin: nat, mode: int)
    ensures var w := PullWrites(pud, pin, mode);
      && |w| == 4
      && w[1].offset == BankAddr(pin, GpioPullUpDnClkOffset)
      && (forall k: bv32 :: k < 32 ==> (HasBit(w[1].value, k) <==> k == BankBit(pin)))
  {
  }

  /** Last two steps: the code bits are cleared (other bits still as at the start), and
      only then is the strobe withdrawn. */
  lemma PullReleased(pud: bv32, pin: nat, mode: int)
    ensures var w := PullWrites(pud, pin, mode);
      && |w| == 4
      && w[2].offset == GpioPullUpDnOffset
      && w[2].value & 3 == 0
      && w[2].value & !3 == pud & !3
      && w[3] == RegWrite(BankAddr(pin, GpioPullUpDnClkOffset), 0)
  {
  }

  /** The register state after `init`'s stores, spelled out store by store. */
  lemma InitApplied(regs: map<nat, bv32>, pin: nat, mode: int)
    ensures var addr := FselAddr(pin);
      var v := FunctionSelect(Get(regs, addr), pin, mode);
      var w := PullWrites(Get(regs[addr := v], GpioPullUpDnOffset), pin, mode);
      Apply(regs, InitWrites(regs, pin, mode))
        == if mode == ModeOutput then regs[addr := v]
           else regs[addr := v][w[0].offset := w[0].value][w[1].offset := w[1].value]
                               [w[2].offset := w[2].value][w[3].offset := w[3].value]
  {
    var addr := FselAddr(pin);
    var v := FunctionSelect(Get(regs, addr), pin, mode);
    var rest := InitWrites(regs, pin, mode)[1..];
    assert InitWrites(regs, pin, mode) == [RegWrite(addr, v)] + rest;
    ApplyAppend(regs, [RegWrite(addr, v)], rest);
    ApplyOne(regs, RegWrite(addr, v));
    if mode == ModeOutput {
      assert rest == [];
    } else {
      ApplyFour(regs[addr := v], rest);
    }
  }

  /** The pin's function-select field after `FunctionSelect`: 001 for output and 000
      otherwise, with every other bit of the register kept. */
  lemma FunctionSelectField(v: bv32, pin: nat, mode: int)
    ensures FunctionSelect(v, pin, mode) & !FieldMask(FselShift(pin)) == v & !FieldMask(FselShift(pin))
    ensures FunctionSelect(v, pin, mode) & FieldMask(FselShift(pin)) == FselCode(mode) << FselShift(pin)
  {
    SetFieldSpec(v, FselShift(pin), FselCode(mode));
  }

  /** After `init`, the function-select register holds `FunctionSelect` of its old value;
      for an output mode no other register changes. */
  lemma InitStoresFunctionSelect(regs: map<nat, bv32>, pin: nat, mode: int)
    requires FselAddr(pin) < GpioPullUpDnOffset
    ensures var after := Apply(regs, InitWrites(regs, pin, mode));
      var v := FunctionSelect(Get(regs, FselAddr(pin)), pin, mode);
      && Get(after, FselAddr(pin)) == v
      && (mode == ModeOutput ==> after == regs[FselAddr(pin) := v])
  {
    assert FselAddr(pin) != BankAddr(pin, GpioPullUpDnClkOffset);
    InitApplied(regs, pin, mode);
  }

  /** What `init` leaves in the pull registers for an input mode: the pull-control register
      ends with its code bits cleared and its other bits kept, and the clock register of
      the pin's bank ends at 0. */
  lemma InitReleasesPull(regs: map<nat, bv32>, pin: nat, mode: int)
    requires FselAddr(pin) < GpioPullUpDnOffset && mode != ModeOutput
    ensures var after := Apply(regs, InitWrites(regs, pin, mode));
      && Get(after, GpioPullUpDnOffset) & 3 == 0
      && Get(after, GpioPullUpDnOffset) & !3 == Get(regs, GpioPullUpDnOffset) & !3
      && Get(after, BankAddr(pin, GpioPullUpDnClkOffset)) == 0
  {
    var addr := FselAddr(pin);
    var v := FunctionSelect(Get(regs, addr), pin, mode);
    var pud := Get(regs[addr := v], GpioPullUpDnOffset);
    assert pud == Get(regs, GpioPullUpDnOffset);
    InitApplied(regs, pin, mode);
    PullReleased(pud, pin, mode);
    var w := PullWrites(pud, pin, mode);
    assert Get(Apply(regs, InitWrites(regs, pin, mode)), GpioPullUpDnOffset) == w[2].value;
  }

  class Gpio {
    const mem: RegisterWindow

    /** Maps the GPIO register block; `initial` is the hardware state found there. */
    constructor (initial: map<nat, bv32>)
      ensures fresh(mem) && mem.regs == initial && mem.trace == []
    {
      mem := new RegisterWindow(initial);
    }

    /** Programs the pin's pull resistor with the latched two-phase protocol. */
    method PullUpDown(pin: nat, mode: int)
      modifies mem
      ensures mem.trace == old(mem.trace) + PullWrites(old(mem.Value(GpioPullUpDnOffset)), pin, mode)
      ensures mem.regs == Apply(old(mem.regs), PullWrites(old(mem.Value(GpioPullUpDnOffset)), pin, mode))
    {
      ghost var regs0 := mem.regs;
      ghost var w := PullWrites(mem.Value(GpioPullUpDnOffset), pin, mode);
      var p := mem.ReadInt(GpioPullUpDnOffset);
      p := SetLowBits(p, PullCode(mode));
      mem.WriteInt(GpioPullUpDnOffset, p);
      var addr := BankAddr(pin, GpioPullUpDnClkOffset);
      mem.WriteInt(addr, PinMask(pin));
      p := mem.ReadInt(GpioPullUpDnOffset);
      p := SetLowBits(p, 0);
      mem.WriteInt(GpioPullUpDnOffset, p);
      mem.WriteInt(addr, 0);
      assert mem.trace == old(mem.trace) + w;
      ApplyFour(regs0, w);
    }

    /** Initialises or re-initialises the pin in `mode`. */
    method Init(pin: nat, mode: int)
      modifies mem
      ensures mem.trace == old(mem.trace) + InitWrites(old(mem.regs), pin, mode)
      ensures mem.regs == Apply(old(mem.regs), InitWrites(old(mem.regs), pin, mode))
    {
      ghost var regs0 := mem.regs;
      var addr := FselAddr(pin);
      var v := mem.ReadInt(addr);
      if mode == ModeOutput {
        v := SetField(v, FselShift(pin), 1);
        mem.WriteInt(addr, v);
        ApplyOne(regs0, RegWrite(addr, v));
      } else {
        v := SetField(v, FselShift(pin), 0);
        mem.WriteInt(addr, v);
        ghost var regs1 := mem.regs;
        PullUpDown(pin, mode);
        ApplyOne(regs0, RegWrite(addr, v));
        ApplyAppend(regs0, [RegWrite(addr, v)], PullWrites(Get(regs1, GpioPullUpDnOffset), pin, mode));
      }
    }

    /** Drives the pin high: one store of the pin's mask to its bank's set register. */
    method Set(pin: nat)
      modifies mem
      ensures mem.trace == old(mem.trace) + [RegWrite(BankAddr(pin, GpioSetOffset), PinMask(pin))]
      ensures mem.regs == Apply(old(mem.regs), [RegWrite(BankAddr(pin, GpioSetOffset), PinMask(pin))])
    {
      var addr := BankAddr(pin, GpioSetOffset);
      mem.WriteInt(addr, PinMask(pin));
      ApplyOne(old(mem.regs), RegWrite(addr, PinMask(pin)));
    }

    /** Drives the pin low: one store of the pin's mask to its bank's clear register. */
    method Clear(pin: nat)
      modifies mem
      ensures mem.trace == old(mem.trace) + [RegWrite(BankAddr(pin, GpioClearOffset), PinMask(pin))]
      ensures mem.regs == Apply(old(mem.regs), [RegWrite(BankAddr(pin, GpioClearOffset), PinMask(pin))])
    {
      var addr := BankAddr(pin, GpioClearOffset);
      mem.WriteInt(addr, PinMask(pin));
      ApplyOne(old(mem.regs), RegWrite(addr, PinMask(pin)));
    }

    /** The pin's current level: 1 exactly when its bit in its bank's input-level register is set. */
    method Read(pin: nat) returns (r: int)
      ensures r == 0 || r == 1
      ensures r == 1 <==> HasBit(mem.Value(BankAddr(pin, GpioInputOffset)), BankBit(pin))
    {
      var addr := BankAddr(pin, GpioInputOffset);
      var v := mem.ReadInt(addr);
      r := BitValue(v, BankBit(pin));
    }
  }
}
