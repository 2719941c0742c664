/** A mapped window of 32-bit peripheral registers. Every store is kept, in
    order, in a ghost trace, so that the order of a register protocol can be
    stated. Reads return the register's current contents; an offset never
    written reads as the value the window held when it was mapped, or 0. */
module Registers {

  datatype RegWrite = RegWrite(offset: nat, value: bv32)

  /** The value at `offset` in a register snapshot. */
  function Get(regs: map<nat, bv32>, offset: nat): bv32 {
    if offset in regs then regs[offset] else 0
  }

  /** The registers after the stores `ws`, applied first to last. */
  function Apply(regs: map<nat, bv32>, ws: seq<RegWrite>): map<nat, bv32>
    decreases |ws|
  {
    if ws == [] then regs else Apply(regs[ws[0].offset := ws[0].value], ws[1..])
  }

  /** Applying two store sequences one after the other is applying their concatenation. */
  lemma {:induction false} ApplyAppend(regs: map<nat, bv32>, a: seq<RegWrite>, b: seq<RegWrite>)
    ensures Apply(regs, a + b) == Apply(Apply(regs, a), b)
    decreases |a|
  {
    if a != [] {
      assert (a + b)[0] == a[0] && (a + b)[1..] == a[1..] + b;
      ApplyAppend(regs[a[0].offset := a[0].value], a[1..], b);
    } else {
      assert a + b == b;
    }
  }

  /** Applying one store updates one register. */
  lemma ApplyOne(regs: map<nat, bv32>, w: RegWrite)
    ensures Apply(regs, [w]) == regs[w.offset := w.value]
  {
    assert [w][1..] == [];
  }

  /** Applying four stores, spelled out. */
  lemma ApplyFour(regs: map<nat, bv32>, ws: seq<RegWrite>)
    requires |ws| == 4
    ensures Apply(regs, ws) == regs[ws[0].offset := ws[0].value][ws[1].offset := ws[1].value]
                                   [ws[2].offset := ws[2].value][ws[3].offset := ws[3].value]
  {
    var r1 := regs[ws[0].offset := ws[0].value];
    var r2 := r1[ws[1].offset := ws[1].value];
    var r3 := r2[ws[2].offset := ws[2].value];
    calc {
      Apply(regs, ws);
      Apply(r1, ws[1..]);
      { assert ws[1..][0] == ws[1] && ws[1..][1..] == ws[2..]; }
      Apply(r2, ws[2..]);
      { assert ws[2..][0] == ws[2] && ws[2..][1..] == ws[3..]; }
      Apply(r3, ws[3..]);
      { assert ws[3..] == [ws[3]]; ApplyOne(r3, ws[3]); }
      r3[ws[3].offset := ws[3].value];
    }
  }

  class RegisterWindow {
    var regs: map<nat, bv32>
    ghost var trace: seq<RegWrite>

    /** Maps the window; `initial` is the hardware state found there. */
    constructor (initial: map<nat, bv32>)
      ensures regs == initial && trace == []
    {
      regs := initial;
      trace := [];
    }

    function Value(offset: nat): bv32
      reads this
    {
      Get(regs, offset)
    }

    method ReadInt(offset: nat) returns (v: bv32)
      ensures v == Value(offset)
    {
      v := Get(regs, offset);
    }

    method WriteInt(offset: nat, v: bv32)
      modifies this
      ensures regs == old(regs)[offset := v]
      ensures trace == old(trace) + [RegWrite(offset, v)]
    {
      regs := regs[offset := v];
      trace := trace + [RegWrite(offset, v)];
    }
  }
}
