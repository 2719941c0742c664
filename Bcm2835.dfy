/** Peripheral constants of the BCM2835 as the GPIO and DMA code uses them.
    Register offsets follow section 6.1 (GPIO) and the control-block fields
    follow section 4.2.1.1 (DMA) of the BCM2835 ARM Peripherals manual. */
module Bcm2835 {

  /** Number of distinct 32-bit values; every address handed to the DMA engine is below it. */
  const WordRange: int := 0x1_0000_0000

  // GPIO register offsets inside the GPIO block (section 6.1)
  const GpioFselOffset: nat := 0x00
  const GpioSetOffset: nat := 0x1C
  const GpioClearOffset: nat := 0x28
  const GpioInputOffset: nat := 0x34
  const GpioPullUpDnOffset: nat := 0x94
  const GpioPullUpDnClkOffset: nat := 0x98

  // Bus addresses of the peripheral blocks the DMA engine writes to
  const GpioBus: nat := 0x7E20_0000
  const PwmBus: nat := 0x7E20_C000
  /** PWM FIFO input register (FIF1) */
  const PwmFifoOffset: nat := 0x18

  // Transfer-information (TI) word bits (section 4.2.1.1). Control-block words are
  // kept as integers below WordRange; the bits of one word are disjoint, so the
  // bitwise or that composes them is their sum.
  const TiTdMode: nat := 0x2            // bit 1: 2D transfer
  const TiWaitResp: nat := 0x8          // bit 3: wait for the write response
  const TiDestDreq: nat := 0x40         // bit 6: pace writes by the peripheral's DREQ
  const TiSrcIgnore: nat := 0x800       // bit 11: do not read the source
  const TiNoWideBursts: nat := 0x400_0000  // bit 26
  /** DREQ peripheral number of the PWM block */
  const PerMapPwm: nat := 5

  /** PERMAP field (bits 20:16) of the TI word. */
  function TiPerMap(peripheral: nat): (w: nat)
    requires peripheral < 32
    ensures PerMapOf(w) == peripheral
    ensures w % 0x1_0000 == 0 && w < 0x20_0000
  {
    peripheral * 0x1_0000
  }

  function PerMapOf(ti: int): nat { ti / 0x1_0000 % 0x20 }

  /** TXFR_LEN word of a 2D transfer: YLENGTH (bits 29:16) rows of XLENGTH (bits 15:0) bytes. */
  function TxfrLen(ylength: nat, xlength: nat): (w: nat)
    requires ylength < 0x4000 && xlength < 0x1_0000
    ensures YLengthOf(w) == ylength && XLengthOf(w) == xlength
    ensures w < WordRange
  {
    ylength * 0x1_0000 + xlength
  }

  function YLengthOf(len: int): nat { len / 0x1_0000 % 0x4000 }
  function XLengthOf(len: int): nat { len % 0x1_0000 }

  /** STRIDE word: D_STRIDE (bits 31:16) is added to the destination and S_STRIDE
      (bits 15:0) to the source after each row. */
  function Stride(dStride: nat, sStride: nat): (w: nat)
    requires dStride < 0x1_0000 && sStride < 0x1_0000
    ensures DStrideOf(w) == dStride && SStrideOf(w) == sStride
    ensures w < WordRange
  {
    dStride * 0x1_0000 + sStride
  }

  function DStrideOf(stride: int): nat { stride / 0x1_0000 % 0x1_0000 }
  function SStrideOf(stride: int): nat { stride % 0x1_0000 }
}
