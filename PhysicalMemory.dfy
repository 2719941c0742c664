/** A physically contiguous buffer that both the CPU and the DMA engine see: the
    CPU addresses it by byte offset, the DMA engine by bus address. Only the word
    view that the control-block builder uses is modelled. */
module PhysicalMemory {
  import opened Bcm2835

  /** A 32-bit word as an unsigned integer. */
  type Word = x: int | 0 <= x < WordRange

  /** `s` with the words from index `at` on replaced by `data`. */
  function Overwrite<T>(s: seq<T>, at: nat, data: seq<T>): (r: seq<T>)
    requires at + |data| <= |s|
    ensures |r| == |s|
    ensures forall i :: 0 <= i < |s| ==> r[i] == if at <= i < at + |data| then data[i - at] else s[i]
  {
    seq(|s|, i requires 0 <= i < |s| => if at <= i < at + |data| then data[i - at] else s[i])
  }

  class CmaMemory {
    /** Bus address of byte offset 0, the address the DMA engine uses. */
    const busAddress: nat
    const words: array<Word>

    /** Allocates `size` bytes; their initial contents are unknown. */
    constructor (size: nat, bus: nat)
      requires size % 4 == 0
      ensures Size() == size && busAddress == bus
      ensures fresh(words)
    {
      busAddress := bus;
      words := new Word[size / 4];
    }

    /** Size of the buffer in bytes. */
    function Size(): nat
      reads this
    {
      4 * words.Length
    }

    /** Stores the words `data` from byte offset `offset` on. */
    method Write(offset: nat, data: seq<Word>)
      requires offset % 4 == 0 && offset + 4 * |data| <= Size()
      modifies words
      ensures words[..] == Overwrite(old(words[..]), offset / 4, data)
    {
      var at := offset / 4;
      var k := 0;
      while k < |data|
        invariant 0 <= k <= |data|
        invariant forall i :: 0 <= i < words.Length ==>
          words[i] == if at <= i < at + k then data[i - at] else old(words[i])
      {
        words[at + k] := data[k];
        k := k + 1;
      }
      assert words[..] == Overwrite(old(words[..]), at, data);
    }

    /** Stores one word at byte offset `offset`. */
    method WriteInt(offset: nat, v: Word)
      requires offset % 4 == 0 && offset + 4 <= Size()
      modifies words
      ensures words[..] == old(words[..])[offset / 4 := v]
    {
      words[offset / 4] := v;
    }
  }
}
