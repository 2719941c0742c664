# rpgpio: GPIO and DMA pulse generation on the BCM2835, modelled in Dafny

`rpgpio.py` drives the GPIO lines of a Raspberry Pi in two ways.

- **`GPIO`** writes the GPIO registers directly. It selects a pin's function, runs the
  latched pull-up/pull-down protocol, sets and clears pins, and reads a pin's level.
- **`DMAGPIO`** builds a chain of DMA control blocks in a physically contiguous 32 MiB
  buffer, so that the DMA engine, paced by the PWM block, produces pulses on GPIO
  lines without the CPU.
  - `add_pulse` appends three blocks: set the pins, wait, clear the pins.
  - `add_delay` appends one waiting block.
  - `finalize_stream` ends the chain at its last block.
  - `run` first refuses an empty chain. It then either ends the chain or makes the
    last block return to the head, before the hardware is started.
  - `clear` forgets everything that was added.

The model has six modules.

- **`Bcm2835`**: the peripheral constants (sections 6.1 and 4.2.1.1 of the BCM2835 ARM
  Peripherals manual), and the packed TXFR_LEN, STRIDE and TI PERMAP fields, each with
  its decoder.
- **`Registers`**: a mapped window of 32-bit registers, as a class. Every store is
  recorded in a ghost trace, so that the order of a register protocol can be stated.
- **`Gpio`**: the `GPIO` class. Its bit manipulations are pure functions on `bv32`,
  and its methods are proved to make exactly the stores of a specification sequence.
  Lemmas state what those stores achieve.
- **`PhysicalMemory`**: the CMA buffer as an array of 32-bit words, with bulk and
  single-word writes.
- **`DmaChain`**: pure specification of the chain.
  - A step (a pulse or a delay) becomes control blocks, and the blocks become words.
  - The chain of a sequence of steps is defined, and so is the effect of rewriting
    NEXTCONBK words.
  - Lemmas state the linking invariant, what each pulse block copies where, and that
    a terminated chain never links outside itself.
- **`DmaGpio`**: the `DMAGPIO` class. It holds the buffer, the byte cursor and two
  ghost fields: the steps added, and the NEXTCONBK words rewritten so far. Its
  invariant says that the buffer begins with the chain of the added steps. Every
  method keeps that invariant and states its exact effect on the buffer.

Two facts about the code shape the model:

- **Exceptions:** the code raises `MemoryError` when a step does not fit and
  `RuntimeError` when `run` finds nothing added. The model's `Outcome` names the same two.
- **`finalize_stream` with nothing added:** the code writes at byte offset -12
  (`0 + 20 - 32`). The model requires a non-empty chain; see "Left out".

## Model

| member | source | states |
|---|---|---|
| Bcm2835.TiPerMap | rpgpio.py:106-108 | the PERMAP value composed into the TI word decodes back to the peripheral number, and lies in bits 20:16 only |
| Bcm2835.TxfrLen | rpgpio.py:115-117 | the packed TXFR_LEN word decodes back to YLENGTH rows of XLENGTH bytes and fits 32 bits |
| Bcm2835.Stride | rpgpio.py:118-119 | the packed STRIDE word decodes back to the destination and source strides and fits 32 bits |
| Gpio.BankAddr | rpgpio.py:33 | the register address is the bank-0 register plus 4 bytes per bank of 32 pins (`4 * int(pin / 32) + base`) |
| Gpio.FselAddr | rpgpio.py:45 | the function-select register holds ten pins: register `pin / 10`, 4 bytes apart |
| Gpio.PinMask | rpgpio.py:59-60 | the write-1 mask `1 << (pin % 32)` has exactly the pin's bit of its bank set |
| Gpio.PullWrites | rpgpio.py:26-38 | the pull protocol is four stores: pull-control, bank clock, pull-control, bank clock |
| Gpio.InitWrites | rpgpio.py:45-53 | `init` makes one store for an output and five for an input, the first being the rewritten function-select word at the pin's register |
| Gpio.SingleBit | rpgpio.py:34 | `1 << k` has bit `k` set and every other bit clear |
| Gpio.SetLowBits | rpgpio.py:27-31 | after `p & ~3 \| c` the low two bits are `c` and every other bit of `p` is kept |
| Gpio.SetFieldSpec | rpgpio.py:47-49 | clearing the pin's 3-bit field and or-ing the code in puts the code in the field and keeps every other bit |
| Gpio.FunctionSelectField | rpgpio.py:45-52 | the function-select word `init` writes holds 001 (output) or 000 (input) in the pin's field, with every other pin's field kept |
| Gpio.BitValue | rpgpio.py:75-79 | `read` yields 0 or 1, and 1 exactly when the pin's bit is set |
| Gpio.PullCodeWritten | rpgpio.py:26-32 | first pull store: the mode's code (10 up, 01 down, 00 none) in the low two bits of the pull-control register, the other bits as read |
| Gpio.PullClockStrobed | rpgpio.py:33-34 | second pull store: the pin bank's clock register receives exactly the pin's bit |
| Gpio.PullReleased | rpgpio.py:35-38 | third and fourth pull stores: the code bits are cleared, other bits kept, and only then is the clock strobe withdrawn |
| Gpio.InitApplied | rpgpio.py:40-53 | the registers after `init` are its stores applied in order, one store for an output and five for an input |
| Gpio.InitStoresFunctionSelect | rpgpio.py:45-53 | after `init` the function-select register holds the rewritten field; for an output no other register changes |
| Gpio.InitReleasesPull | rpgpio.py:25-38 | after `init` in an input mode the pull-control code bits are 0 (other bits as before) and the bank's clock register is 0 |
| Gpio.Gpio.constructor | rpgpio.py:18-23 | maps the GPIO register block with an empty store trace |
| Gpio.Gpio.PullUpDown | rpgpio.py:25-38 | the method makes exactly the four stores of the latched protocol, in order, computed from the pull register as read |
| Gpio.Gpio.Init | rpgpio.py:40-53 | the method makes exactly `init`'s stores, in order: the function-select word, then the pull protocol for input modes |
| Gpio.Gpio.Set | rpgpio.py:55-60 | one store of the pin's single-bit mask to its bank's set register, and nothing else |
| Gpio.Gpio.Clear | rpgpio.py:62-67 | one store of the pin's single-bit mask to its bank's clear register, and nothing else |
| Gpio.Gpio.Read | rpgpio.py:69-79 | returns 0 or 1, and 1 exactly when the pin's bit in its bank's level register is set |
| Registers.RegisterWindow.ReadInt | rpgpio.py:26 | `read_int` returns the register's current contents |
| Registers.RegisterWindow.WriteInt | rpgpio.py:32 | `write_int` sets exactly the addressed register and appends the store to the trace |
| PhysicalMemory.CmaMemory.constructor | rpgpio.py:97 | the allocated buffer has the requested size and a fixed bus address |
| PhysicalMemory.Overwrite | rpgpio.py:147 | the buffer after a bulk write: the written words in place, every other word kept |
| PhysicalMemory.CmaMemory.Write | rpgpio.py:147 | writing words from a byte offset overwrites exactly those words of the buffer |
| PhysicalMemory.CmaMemory.WriteInt | rpgpio.py:170-171 | writing one word at a byte offset changes exactly that word |
| DmaChain.FixedFields | rpgpio.py:105-119 | the words fixed at construction mean what they are for: the delay TI ignores its source and is paced by PWM DREQ; the pulse TI is a 2D transfer waiting for write responses; two rows of 4 bytes; the destination moves 12 bytes from the set register to the clear register |
| DmaChain.EncodeAt | rpgpio.py:137-146 | block k of a chain lies at words 8k to 8k+7 of its encoding |
| DmaChain.ChainLengthOf | rpgpio.py:126 | the blocks of the first n steps are at least n |
| DmaChain.ChainOfExtend | rpgpio.py:147-148 | appending a step leaves the blocks of the earlier steps unchanged |
| DmaChain.ChainAppend | rpgpio.py:147-148 | appending a step appends its blocks (3 for a pulse, 1 for a delay) at the end of the chain, at the byte offset where the chain ended |
| DmaChain.StepLinked | rpgpio.py:129-131 | inside a step, each block's NEXTCONBK word is the bus address of the block after it |
| DmaChain.ChainLinked | rpgpio.py:129-157 | the NEXTCONBK word of every block of the chain is the bus address of the following block |
| DmaChain.ChainPrefix | rpgpio.py:147-148 | the blocks of the first j steps are a prefix of the blocks of any later point |
| DmaChain.ChainStepAt | rpgpio.py:147 | a step's blocks sit in the chain right after the blocks of the steps before it |
| DmaChain.Terminated | rpgpio.py:208-214 | run's chain keeps every block, except that the last block's NEXTCONBK word is the chain head (loop) or 0 |
| DmaChain.ChainClosed | rpgpio.py:208-214 | in a terminated chain every NEXTCONBK word is the address of a block of the chain, except the last one when not looping, which is 0 |
| DmaChain.PatchedAt | rpgpio.py:170-171 | block k of a patched chain is block k with its NEXTCONBK word rewritten when k was patched |
| DmaChain.PatchedNone | rpgpio.py:97-98 | a chain with no rewritten words is the chain itself |
| DmaChain.PatchedLast | rpgpio.py:210-212 | patching the last block rewrites only its NEXTCONBK word |
| DmaChain.PatchedAppend | rpgpio.py:147-148 | blocks appended after patched blocks are not patched themselves |
| DmaChain.TerminatedIsPatch | rpgpio.py:208-214 | terminating the chain is patching its last block with the head address or 0 |
| DmaChain.PatchedLinks | rpgpio.py:167-171 | with patches that are 0 or the head, every NEXTCONBK word is 0, the head, or the address of the next block; the last block's link, while unpatched, points just past the chain |
| DmaChain.PatchedClosed | rpgpio.py:167-171 | once the last block is patched (all patches 0 or the head), every NEXTCONBK word is 0 or the address of a block of the chain: no link dangles, however many earlier runs patched other blocks |
| DmaChain.PulseEffect | rpgpio.py:121-148 | the two copying blocks are 2D transfers (TI = PulseInfo) of two one-word rows; the three pulse blocks copy the mask to the set register (then 0 to clear), wait 16 bytes of PWM FIFO traffic per microsecond, then copy 0 to set and the mask to clear, reading their own trailing words |
| DmaChain.PulseBlocks | rpgpio.py:129-146 | three blocks, each linking to the block after it; the set block's source is its own trailing words holding `[mask, 0]`, the clear block's its own holding `[0, mask]`; the middle block waits 16 bytes per microsecond |
| DmaChain.DelayBlocks | rpgpio.py:154-163 | one block linking to the block after it, paced by the PWM's DREQ into its FIFO for 16 bytes per microsecond |
| DmaChain.ChainSteps | rpgpio.py:121-165 | every added step is in the chain at its block position: a pulse as set-wait-clear, a delay as a paced wait of its length |
| DmaGpio.ConsistentEmpty | rpgpio.py:96-98 | a new buffer with cursor 0 holds the empty chain, whatever its contents |
| DmaGpio.BlockAtOverwriteBelow | rpgpio.py:147 | a bulk write at the cursor leaves the blocks before it unchanged |
| DmaGpio.BlockAtOverwrite | rpgpio.py:147 | after a bulk write at block n, block n+j of the buffer is block j of the written words |
| DmaGpio.BlockAtEncode | rpgpio.py:137-146 | block j read back from an encoding is the j-th encoded block |
| DmaGpio.EncodeStores | rpgpio.py:137-146 | decoding an encoding gives back all of its blocks |
| DmaGpio.StoresAppend | rpgpio.py:147 | writing a block encoding just past the blocks already held makes the buffer hold both, in order |
| DmaGpio.ConsistentAppend | rpgpio.py:121-165 | writing a step's blocks at the cursor, when they fit, appends the step to the chain held in the buffer and moves the cursor by 32 bytes per block |
| DmaGpio.LastNextInBuffer | rpgpio.py:170-171 | when something was added, the last block's NEXTCONBK word (cursor + 20 - 32) is word 8n-3 of the buffer, inside it |
| DmaGpio.ConsistentPatch | rpgpio.py:167-171 | rewriting that word to 0 or the head patches exactly the chain's last block |
| DmaGpio.ConsistentClosed | rpgpio.py:167-171 | once the last block's link was rewritten, the blocks the buffer holds link only to 0 or to one of themselves |
| DmaGpio.RunStoresTerminated | rpgpio.py:202-214 | after run on a chain never patched, the buffer holds exactly the terminated chain |
| DmaGpio.PulseLayout | rpgpio.py:126-146 | the 24 words `add_pulse` computes from the next-block address are the encoding of the pulse's three blocks |
| DmaGpio.DelayLayout | rpgpio.py:154-163 | the 8 words `add_delay` computes are the encoding of the delay block |
| DmaGpio.DmaGpio.constructor | rpgpio.py:86-98 | a 32 MiB buffer, cursor 0, nothing added, invariant established |
| DmaGpio.DmaGpio.AddPulse | rpgpio.py:121-148 | MemoryError with nothing changed when three blocks do not fit; otherwise the pulse's encoding is written at the cursor, the cursor moves 96 bytes, the pulse joins the chain, and the invariant holds |
| DmaGpio.DmaGpio.AddDelay | rpgpio.py:150-165 | MemoryError with nothing changed when a block does not fit; otherwise the delay's encoding is written at the cursor, the cursor moves 32 bytes, the delay joins the chain, and the invariant holds |
| DmaGpio.DmaGpio.WriteLastNext | rpgpio.py:170-171 | rewrites exactly the last block's NEXTCONBK word and records it as a patch of the last block, keeping the invariant; afterwards no link of the chain in the buffer dangles |
| DmaGpio.DmaGpio.AppendKeepsValid | rpgpio.py:147-148 | the write at the old cursor and the cursor's move restore the invariant |
| DmaGpio.DmaGpio.PatchKeepsValid | rpgpio.py:170-171 | the rewritten last link restores the invariant |
| DmaGpio.DmaGpio.FinalizeStream | rpgpio.py:167-173 | the last block's NEXTCONBK word becomes 0 and nothing else changes; afterwards no link of the chain in the buffer dangles |
| DmaGpio.DmaGpio.Run | rpgpio.py:202-215 | RuntimeError with nothing changed when nothing was added; otherwise the last block's NEXTCONBK word becomes the head (loop) or 0 and nothing else changes, and every link of the chain in the buffer is 0 or a block of the chain |
| DmaGpio.DmaGpio.Clear | rpgpio.py:241-244 | cursor back to 0 and nothing added, the buffer's words untouched |

## Left out

- `run_stream`, `stop` and `is_active` (rpgpio.py:175-200, 217-239) program the PWM, clock-manager and DMA channel registers. Their constants live in `rpgpio_private`, and their effect is hardware timing. `run` is modelled up to the call of `run_stream`.
- `rpgpio_private` is not part of this model. `PhysicalMemory`, `CMAPhysicalMemory`, `read_int`, `write_int`, `write` and `get_bus_address` are modelled from their use in rpgpio.py: a register window that reads what was last written, and a word array with a fixed bus address. The constants come from the BCM2835 ARM Peripherals manual.
- Mapping and allocation failures, and the memory locking that keeps the buffer alive, are not modelled: the constructors always succeed.
- The `logging.info` call in `finalize_stream` and the `main` test routine are output only and are not modelled.
- Hardware concurrency is not modelled: the DMA engine reads the chain while the CPU may still be writing. The model states what the buffer holds, not when the engine reads it.
- DmaGpio.DmaGpio.FinalizeStream: requires that something was added. On an empty chain the source writes 0 at byte offset -12, below the buffer, and what that write does depends on `rpgpio_private`.
- DmaGpio.DmaGpio.AddPulse: requires `pins_mask` and `16 * length_us` to fit a 32-bit word. What `write` does with wider values is not shown in rpgpio.py.
- DmaGpio.DmaGpio.AddDelay: requires `16 * delay_us` to fit a 32-bit word, for the same reason.
- DmaGpio.DmaGpio.constructor: requires the buffer's bus addresses to fit a 32-bit word, as they do for any CMA allocation.
- Gpio.FselAddr, Gpio.BankAddr: Python's `int(pin / 32)` and `int(pin / 10)` go through a float. The model's integer division agrees with them for every pin below 2^53; above that, `int(pin / 10)` can round to a different register.
- Pins are non-negative in the model (`pin: nat`). The code would also accept a negative pin: `set(-1)` writes bit 31 (`-1 % 32`) of bank 0 (`int(-1 / 32)`).
- The modes are integers as in the source. A mode other than the four constants behaves as "input, no pull", as the code's `if`/`elif` chain does.
