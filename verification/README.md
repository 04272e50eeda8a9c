# Verification of the console, graphics and multiprocessor cores

This project models the parts of the SoC repository whose correctness is not visible from one function: the
half-precision arithmetic of the demo firmware, the protocols by which its CPUs lock, signal and boot, the two
rasterisers, the reference model of the coherence ring, the bus models of the simulator, the path from a key to a
parsed number, and two smaller cores. Code that changes things step by step is modelled by classes and loops that
are proved against a specification; concurrent code is modelled by the steps that its CPUs or nodes interleave,
and its properties hold in every run.

| files | what they model |
|---|---|
| `Half`, `Float16Sum`, `Float16Product`, `Float16Convert`, `Float16Order` | `demo/float16.c`. A finite half is an integer number of 2^-24 units (`Half.Val`), so every claim about rounding is a claim about integers. `Half.Truncates` says what rounding toward zero is, for a ratio of integers, with overflow to infinity. |
| `Float16SumLaws`, `Float16Parse` | What the arithmetic amounts to, and decimal literals. |
| `SpinLock`, `Mailbox`, `BootChain`, `Smp` | `demo/atomic.S`, `demo/mem.c`, `demo/start.S`, `demo/main.c`, `demo/smp.c`. Memory is sequentially consistent; each step is one instruction or one access. |
| `Geometry`, `Raster` | `tb/models/gfx_pineda.py` and the rasteriser of `platform/wavelet3d/host_sw/demo.c`. |
| `Ring` | `tb/models/ring.py`, wired as in `tb/top/test_ring.py`. |
| `Arbiter`, `SimSlave`, `AvalonMem` | `tb/mem_interconnect.sv` and the simulated bus in `tb/top/conspiracion`. |
| `Uart`, `Console`, `CStrings`, `Tokens`, `Hex` | The serial port's ring, the line editor, tokens and numbers. |
| `ShaderMemory`, `Assembler` | The stale-value oracle of the shader testbench, and the shader assembler. |
| `Powers`, `Options` | Powers of two, shifts and division; the option type. |

Results that a reader of the code might not expect:

- Overflow of `f16_add`, `f16_mul` and `f16_div` gives infinity, although everything else truncates toward zero;
  section 7.4 of IEEE 754-2019 asks for the largest finite number in that direction. Zero products and quotients
  lose their sign.
- Effective subtraction keeps one guard bit, rounds up to it and then drops it. It is within half an ulp of the
  larger operand's exponent, and exact whenever some half holds the difference
  (`Float16SumLaws.RepresentableExact`), but it need not truncate: one minus the least half returns one
  (`Float16SumLaws.SubtractionMayRoundUp`). `Float16SumLaws.SubtractionTruncatesIff` says exactly when it does.
- The boot completes if and only if the alive CPUs are a prefix. With a dead CPU below an alive one, the alive one
  takes the dead one's number, kicks itself, and `boot_done` is never set.
- A triangle without area passes the edge tests on the whole line through its corners, or on the whole plane if they
  coincide, not only on its hull. So once the corners are in raster's order, the tests decide the hull if and only
  if the triangle has area (`Geometry.TestsDecideHull`), and the statements about coverage ask for it.
- `parse_fp16` converts the integer that all the digits form to a half before it divides. The result is the decimal
  value truncated if and only if that loses no half on the way (`Float16Parse.ParsesDecimal`): it is for 2049, which
  no half holds, and it is not for 204.9.
- The default `read_line` and `write_line` of a simulated slave choose different words when word 0 and another word
  are enabled together (`AvalonAdapters.ReadMeetsWrite`).
- The bridge to a simulated device is right if and only if the device does not change its mind between the two clock
  edges of a cycle on which it is asked (`SimSlaveRuns.AcceptedOnceIffStable`).

## Model

| member | source | states |
|---|---|---|
| Half.TruncatesUnique | demo/float16.c:127-224 | Truncation determines the half: no two magnitudes are both the truncation of one ratio, so a contract that says Truncates leaves no freedom. |
| Half.MagMonotone | demo/float16.c:268-331 | The value of a magnitude grows strictly with its bit pattern, across subnormals, normals and infinity. |
| Float16Sum.Add | demo/float16.c:78-125 | Result is the sum: NaN and infinity cases; same signs truncate the exact sum; opposite signs follow the guard-bit rule. Terminates although it and Sub call each other. |
| Float16Sum.AddMagnitudes | demo/float16.c:98-124 | Alignment, carry and subnormals together give the exact sum truncated, infinity from 2^16. |
| Float16Sum.Sub | demo/float16.c:16-76 | Result is the sum with the second operand's sign flipped. |
| Float16Sum.SubMagnitudes | demo/float16.c:42-76 | The aligned difference, renormalised, is the exact difference rounded up to the guard bit, which is then dropped if the exponent stays. |
| Float16Sum.Renormalize | demo/float16.c:57-75 | The normalisation loop keeps the value of what it shifts, down into the subnormals. |
| Float16SumLaws.SameSignTruncates | demo/float16.c:78-125 | The truncated sum of Add is infinite if and only if the exact sum is at least 2^16. |
| Float16SumLaws.SubtractionWithinHalfUlp | demo/float16.c:16-76 | Effective subtraction is finite and within half an ulp of the larger operand, for all finite operands. |
| Float16SumLaws.SterbenzExact | demo/float16.c:16-76 | Exact when each magnitude is at most twice the other, subnormals included. |
| Float16SumLaws.EqualExponentsExact | demo/float16.c:16-76 | Exact when the effective exponents are equal. |
| Float16SumLaws.RepresentableExact | demo/float16.c:16-76 | Exact whenever the exact difference is a half at all. |
| Float16SumLaws.SubtractionTruncatesIff | demo/float16.c:16-76 | Effective subtraction truncates if and only if, with the difference in units of the larger operand's last place, what is left below a unit is at most half of it, or, where the exponent drops, is a whole guard unit. |
| Float16SumLaws.SubtractionMayRoundUp | demo/float16.c:16-76 | An input that does not: 0x3C00 minus 0x0001 returns 0x3C00, and the truncation is 0x3BFF. |
| Float16Product.Mul | demo/float16.c:127-172 | All special cases; otherwise the exact product truncated toward zero, through normals and subnormals, infinity from 2^16. |
| Float16Product.Div | demo/float16.c:174-224 | All special cases; otherwise the exact quotient truncated. |
| Float16Product.DivMagnitudes | demo/float16.c:190-224 | The restoring division keeps quotient times divisor plus remainder equal to the shifted dividend, and its result is the truncated quotient. |
| Float16Product.FromInt | demo/float16.c:230-254 | The integer truncated to a half, for every 32-bit integer. |
| Half.TruncatesInfinite | demo/float16.c:127-224 | A truncated ratio is infinite if and only if it is at least 2^16. |
| Float16Convert.ToIntTruncates | demo/float16.c:255-266 | Every finite half converts to its integer part; the 16-bit shift never loses a bit. |
| Float16Convert.FromIntExact | demo/float16.c:230-254 | Integers up to 2048 convert exactly. |
| Float16Convert.IntRoundTrip | demo/float16.c:230-266 | For every n below 65536 in magnitude, there and back gives n cut to its 11 leading bits. |
| Float16Order.ComparesValues | demo/float16.c:268-331 | The six comparisons, on bit patterns, are those of the values (infinities and both zeros included). |
| Float16Order.NanIsUnordered | demo/float16.c:268-331 | With a NaN every comparison but inequality is false. |
| Float16Parse.ParseFp16 | demo/util.c:145-185 | Accepts exactly the well-formed literals, and returns the quotient of the integers that its digits and its decimals spell. |
| Float16Parse.ParsesDecimal | demo/util.c:145-185 | For every literal whose digits and decimals fit 32 bits: the result is the decimal value truncated to half if and only if no half lies above the decimal with its digits cut to 11 bits and not above the decimal itself; with the conditions for digits from 2^16 on and for more than four decimals, where the converted integers are infinite. The sign is the literal's. |
| Float16Parse.HeldDigitsParse | demo/util.c:145-185 | The condition holds for digits up to 2048 and at most four decimals. |
| Float16Parse.LiteralNotTruncated | demo/util.c:145-185 | It fails for 204.9, which does not parse to its truncation. |
| Float16Parse.CutDigitsMayParse | demo/util.c:145-185 | It holds for 2049, although no half holds 2049. |
| SpinLock.MutualExclusion | demo/atomic.S:7-30 | In every interleaving of instructions and interrupts of any number of CPUs, at most one is between its successful strexeq and its releasing store, and the lock word tells. Holds for the monitor of section A2.9 of the ARM Architecture Reference Manual and for the value-comparing one of rtl/cache. |
| SpinLock.HolderIsMasked | demo/atomic.S:9-30 | The holder has IRQ and FIQ masked, and what an interrupt suspended never holds the lock. |
| SpinLock.MaskRestored | demo/atomic.S:25-30 | Unlocking leaves the mask that the matching lock found. |
| SpinLock.CallsAreServed | demo/atomic.S:7-30 | In every run, nobody leaves spin_lock without the lock: the calls of each CPU, from its code and from its interrupts, are its entries into the critical section and the calls still spinning; its entries are its exits and what has not left. |
| SpinLock.StepBalances | demo/atomic.S:7-30 | Step by step: no instruction leads out of spin_lock but into the critical section, nor from there but through spin_unlock. |
| SpinLock.FreeLockIsTaken | demo/atomic.S:8-19 | A CPU anywhere in spin_lock, from its call on and whether or not it failed before, alone and with the lock free, enters its critical section within eleven instructions. |
| Mailbox.DecodeEncode | demo/mem.c:14-31 | A packed message, pointer and flags in one half, value in the other, unpacks to its aligned pointer, flag and value. |
| Mailbox.Conservation | demo/mem.c:14-31 | In every run of senders and a receiver: sends = deliveries + overwritten messages + pending (0 or 1), torn first reads included. |
| Mailbox.EveryCallCounts | demo/mem.c:14-31 | In every run no call loses its message: each message was handed to remote_send as often as it was sent or its call still runs; and remote_recv returns only with a delivery. |
| Mailbox.ReturnMeansSent | demo/mem.c:19-20 | When a call of remote_send returns, its own message was just sent and is what the mailbox decodes to. |
| Mailbox.SendAloneReturns | demo/mem.c:14-21 | A call alone returns within four steps. |
| Mailbox.DeliveriesInOrder | demo/mem.c:14-31 | Deliveries are messages sent earlier, in order, each at most once. |
| Mailbox.PendingIsLast | demo/mem.c:14-31 | What is pending is the last message sent. |
| BootChain.NumbersAndStacksDistinct | demo/start.S:30-45 | In every run, each CPU is started at most once, and numbers and stacks are distinct, at their places in memory, although the increment of _boot_num is not atomic. |
| BootChain.DoneMeansAllBooted | demo/main.c:194-220 | When boot_done is set after bsp_main cleared it, whatever it held at reset, the alive CPUs are 0..k-1, each started and numbered by its position, and _boot_num is k until it is cleared. |
| BootChain.BootEnds | demo/main.c:194-220 | The boot cannot go on doing things: at most 160 steps change anything. |
| BootChain.CompletesIffPrefix | demo/main.c:194-220 | When nothing moves any more, boot_done is set if and only if the alive CPUs are a prefix. |
| BootChain.ApsHaltThemselves | demo/main.c:253-263 | After a complete boot, at rest, every alive CPU but the first has halted itself before receiving, the first runs its shell, and _boot_num is cleared. |
| Smp.SmpCtrl.RunCpus | demo/smp.c:16-31 | Through the control register, exactly the CPUs of the mask are started, whatever their state before. |
| Smp.SmpCtrl.HaltCpus | demo/smp.c:38-53 | Exactly the CPUs of the mask are halted. |
| Smp.SmpCtrl.KickCpus | demo/main.c:194-206 | Starts exactly the first alive CPU after this one, or reports that there is none. |
| Smp.SmpCtrl.Write | rtl/smp/smp_pe.sv:36-52 | At no breakpoint, a write starts and halts the lanes whose bits it has. |
| Geometry.InsideIffInHull | tb/models/gfx_pineda.py:27-33 | Three edge functions are nonnegative if and only if the point is a weighted mean of the corners, for a triangle with area. |
| Geometry.EdgeSwaps | platform/wavelet3d/host_sw/demo.c:137-147 | Swapping the ends of an edge negates its function. |
| Geometry.HullInBox | tb/models/gfx_pineda.py:20-25 | The hull lies in the bounding box. |
| Geometry.QuadIsTwoTriangles | platform/wavelet3d/host_sw/demo.c:325-335 | The two triangles of a convex quad, whichever way it turns, cover the closed hull of its four corners exactly, diagonal included. |
| Geometry.TestsDecideHull | tb/models/gfx_pineda.py:68-77 | The three tests decide the closed hull on all points if and only if the triangle is counterclockwise and has area. |
| Geometry.FlatTriangleIsLine | tb/models/gfx_pineda.py:68-77 | What the tests accept for a triangle without area. |
| Geometry.FlatTriangleOverflows | tb/models/gfx_pineda.py:68-77 | Every triangle without area accepts some point outside its hull. |
| Raster.CountSamples | tb/models/gfx_pineda.py:70-74 | The count from running edge values is the number of samples that the direct test covers. |
| Raster.Walk | tb/models/gfx_pineda.py:48-89 | The two loops that update edge values by addition yield what the direct test on every visited point yields. |
| Raster.RasterModel | tb/models/gfx_pineda.py:35-89 | The whole function, with its choice of orientation, yields the sequence of the direct tests. |
| Raster.RasterCovers | tb/models/gfx_pineda.py:35-89 | For every triangle with area, a pixel of the screen is yielded with a count if and only if that is the nonzero number of its samples in the closed hull: the walk misses none. |
| Raster.EachPixelOnce | tb/models/gfx_pineda.py:68-77 | No pixel is yielded twice. |
| Raster.OrderDoesNotMatter | tb/models/gfx_pineda.py:38-42 | Swaps of corners, and so all six orders, draw the same pixels. |
| Raster.Backend | tb/models/gfx_pineda.py:145-149 | After the writes, the cell in row r and column c of the 480 by 640 frame buffer is 85 times the number of the three sample points of pixel (c - 320, 239 - r) in the closed hull, or its old value if there are none. |
| Raster.RasterHost | platform/wavelet3d/host_sw/demo.c:181-240 | The host rasteriser, which rounds its start toward zero, passes to the depth test exactly the pixels whose origin is in the closed hull. |
| Raster.Quad | platform/wavelet3d/host_sw/demo.c:325-335 | The two triangles of a convex quad pass to the depth test exactly the pixels whose origin is in the closed hull of its four corners. |
| Raster.WantedSamples | tb/models/gfx_pineda.py:59-62 | The three sample points, by their coordinates. |
| Raster.IndexInjective | tb/models/gfx_pineda.py:146-149 | No two pixels of the screen share a cell. |
| RingSegments.DecodeEncode | tb/models/ring.py:1-30 | Packing into 20 bytes and unpacking loses no field. |
| RingSegments.WireLayout | tb/models/ring.py:9-16 | The bit position of each field in the 20 big-endian bytes. |
| RingSegments.FreshTypes | tb/models/ring.py:38-54 | Which type sets which flag; any other type sets none. |
| RingSegments.PackCuts | tb/models/ring.py:5-16 | Wide tags and indices are cut to their fields. |
| RingSegments.RingSegment.Recv | tb/models/ring.py:22-36 | A live request goes to the front with its ttl one less; a dead one is dropped. |
| RingSegments.RingSegment.Send | tb/models/ring.py:38-54 | A fresh request with ttl 3 and no data goes to the back. |
| RingSystem.SegmentsFollow | tb/top/test_ring.py:73-86 | In every run, the queues of byte lines change as the class RingSegment changes them. |
| RingSystem.ReceivedInRingOrder | tb/models/ring.py:18-54 | In every run, each message is received by the nodes after its origin in ring order, once each, with its fields unchanged and its ttl counting down, at most four times in all. |
| RingSystem.Drains | tb/models/ring.py:18-54 | Each emission takes one off the hops left; while there are any, some node can emit; at zero all queues are empty and every message is back at its origin. |
| RingSystem.RunKeepsInv | tb/models/ring.py:18-54 | In every run every message that is not back is queued exactly where its hops have taken it. |
| Arbiter.RoundRobin | tb/mem_interconnect.sv:52-93 | The first asking master after the last one, cyclically; the last one if none asks. |
| Arbiter.MemInterconnect.Clock | tb/mem_interconnect.sv:52-152 | One clock edge: the registers and wires follow the specification, and only the selected master can see waitrequest low. |
| Arbiter.NotPreempted | tb/mem_interconnect.sv:92-152 | While the bus stalls, the selected master and the request that the memory sees stay the same. |
| Arbiter.NoStarvation | tb/mem_interconnect.sv:52-152 | A master that asks continuously and is not selected lets at most three cycles without a stall pass. |
| Arbiter.ThreeTurnsHappen | tb/mem_interconnect.sv:52-152 | The bound is met. |
| Uart.JtagUart.Tick | tb/top/conspiracion/jtag_uart.cpp:19-48 | The keyboard is polled if and only if the countdown is over and the ring is not full, and what it gives goes to the end. |
| Uart.JtagUart.ReadData | tb/top/conspiracion/jtag_uart.cpp:59-74 | A read takes the oldest byte out and reports it, its validity and the bytes left. |
| LineEditor.Console.Receive | demo/console.c:209-234 | One character edits the line in the buffer as the abstract editor does, and leaves it ended by a NUL within its size. |
| LineEditor.Console.Irq | demo/console.c:195-237 | Whatever arrives while it runs, the handler terminates, empties the ring in order, and edits every byte out of it. |
| LineEditor.Console.BeginLine | demo/console.c:166-178 | A read of a line starts with an empty one; size zero does nothing. |
| LineEditor.Console.TakeLine | demo/console.c:180-193 | The waiting loop ends exactly when a line is finished, which the buffer then holds as a C string within its size. |
| LineEditor.KeyCodes | demo/console.c:212-234 | By key codes: 0x20 to 0x7e lengthen a line that has room, 0x7f takes a character off, newline ends the line, and no other key does anything. |
| LineEditor.EditAllIsTyped | demo/console.c:209-234 | The fold of the edits is the typed line up to the first newline, and does not change after it. |
| LineEditor.TypedFits | demo/console.c:228-232 | Every line is printable and leaves room for its NUL. |
| LineEditor.PlainText | demo/console.c:228-232 | Plain text is taken as typed, as far as it fits. |
| LineEditor.DelUndoes | demo/console.c:214-219 | DEL takes back the key before it if and only if that key was added, or there is no line. |
| ConsoleRuns.LinesAreTyped | demo/console.c:166-237 | In every run of keys, handler and reader: nothing is lost or doubled, and every line returned is what the keys between its call and the first newline make. |
| ConsoleRuns.PlainLinesAreReturned | demo/console.c:166-237 | In every run, a line typed in codes 0x20 to 0x7e is returned as typed, spaces included, as far as it fits. |
| ConsoleRuns.Drive | demo/console.c:166-237 | Whatever is done to the serial port and the console, in any order, they go through such a run. |
| Tokens.StrtokInput | demo/util.c:36-55 | Returns the first word of the rest of the line, in place, writes one NUL after it and nothing else, and leaves the other words for the next call. |
| Tokens.AllTokens | demo/util.c:86-97 | Taken one after the other, the tokens are the words of the line, each still in place at the end. |
| Tokens.WordsAreNonEmptyPieces | demo/util.c:36-55 | The words are the nonempty pieces between spaces. |
| Tokens.WordsOfJoin | demo/util.c:36-55 | Words joined by spaces are read back. |
| Hex.ParseHex | demo/util.c:107-143 | Error cases and value of the next word; the rest of the line is left. |
| Hex.PrintHex | demo/console.c:39-56 | The digits of the value for the clamped and rounded width. |
| Hex.HexRoundTrip | demo/console.c:39-56 | What is printed is one word of its line, and parses to the value modulo 2^(rounded bits), for every value and width. |
| Hex.DigitsOfValue | demo/util.c:123-136 | Conversely, digits that were parsed print as themselves, in lower case. |
| SimSlaves.SimSlave.DoRead | tb/top/conspiracion/sim_slave.cpp:32-45 | A read starts a transfer if none is driven, and returns the latched data once. |
| SimSlaveRuns.Interconnect.DoTickRising | tb/top/conspiracion/avalon.impl.hpp:71-119 | The rising edge: a held transfer continues, else the next request is taken. |
| SimSlaveRuns.CycleKeepsInv | tb/top/conspiracion/sim_slave.cpp:16-59 | Cycle by cycle, the bridge stays right if and only if the device, if asked, answers the same on both edges. |
| SimSlaveRuns.AcceptedOnceIffStable | tb/top/conspiracion/sim_slave.cpp:16-59 | All along a run, every transfer reported to the masters was accepted by the device on exactly one edge, in order, with its address and data, and a read got the data of that edge, if and only if the device was stable on each cycle on which it was asked. |
| SimSlaveRuns.AcceptedTwice | tb/top/conspiracion/sim_slave.cpp:24-30 | One way to fail: a device that withdraws its wait between the edges accepts one transfer twice. |
| AvalonMemory.Mem.WriteLine | tb/top/conspiracion/mem.cpp:21-43 | The loop over masked words changes exactly the enabled bytes of one line. |
| AvalonMemory.FlatAfterWrite | tb/top/conspiracion/avalon.impl.hpp:94-118 | A line write changes the enabled bytes of the flat memory at its address, and no byte elsewhere, on any set of devices. |
| AvalonMemory.Interconnect.Run | tb/top/conspiracion/avalon.impl.hpp:71-180 | Any sequence of line reads, byte-enabled line writes, dumps and patches answers as one flat array of bytes, holes and unaligned lines refused. |
| AvalonMemory.DumpReadsWord | tb/top/conspiracion/avalon.impl.hpp:138-152 | A dump of word n answers the four flat bytes from 4n on, or reports a hole. |
| AvalonMemory.PatchWritesWord | tb/top/conspiracion/avalon.impl.hpp:155-169 | A patch of word n changes the four flat bytes from 4n on to those of the value, and no others. |
| AvalonMemory.LineAnswers | tb/top/conspiracion/avalon.impl.hpp:71-119 | A line read answers the sixteen flat bytes from its address on. |
| AvalonMemory.LineShowsPatch | tb/top/conspiracion/avalon.impl.hpp:71-169 | A patched word 4q + j is word j of what line q then shows. |
| AvalonMemory.AddressMap | tb/top/conspiracion/avalon.impl.hpp:94-110 | A memory shows byte x of its block at its base + x, unless one attached before it has that address; other addresses are holes. |
| AvalonMemory.HolesStay | tb/top/conspiracion/avalon.impl.hpp:172-180 | No write fills a hole. |
| AvalonAdapters.WriteReachesWord | tb/top/conspiracion/avalon.hpp:142-158 | The default line write reaches every enabled byte if and only if they are in one word; it passes that word's data and enables. |
| AvalonAdapters.ReadReachesWord | tb/top/conspiracion/avalon.hpp:117-130 | The default line read reaches every enabled byte if and only if they are in one word, and asks for nothing if and only if none is enabled. |
| AvalonAdapters.ReadMeetsWrite | tb/top/conspiracion/avalon.hpp:117-158 | When the two choose the same word. |
| ShaderMemory.Memory.ReadWord | tb/gfx_shader_bind/testbench/models.py:66-74 | Returns what the word holds, all ones before its first write, and marks it as observed if it exists. |
| ShaderMemory.Memory.WriteWord | tb/gfx_shader_bind/testbench/models.py:84-91 | The tables keep exactly what each word has held since it was first read. |
| ShaderMemory.Memory.ReadCached | tb/gfx_shader_bind/testbench/models.py:99-106 | Gives exactly the values held since the first read (the present one if never read), so every value a read has given is among them. |
| ShaderMemory.GivenWasHeld | tb/gfx_shader_bind/testbench/models.py:66-91 | Every value a read has given was held since the first read, the all-ones value included. |
| Bits.ZfillIsLow | gfx_asm/assembler.py:137-142 | The digits of a number that fits, filled up with zeros, are its low bits. |
| Bits.SignedRoundTrip | gfx_asm/assembler.py:127-142 | For every size, exactly the values in range are encoded, and two's complement reads them back. |
| Assembler.DecodeEncode | gfx_asm/assembler.py:162-242 | Every instruction is 32 bits, and a decoder that refuses words with unused bits set returns it with all its operands. |
| Assembler.EncodeDecode | gfx_asm/assembler.py:162-242 | Conversely, a word that decodes is the encoding of what it decodes to. |
| Assembler.Assemble | gfx_asm/assembler.py:330-346 | The loop emits the words of the program in order. |
| Assembler.ImageRoundTrip | gfx_asm/assembler.py:330-346 | The image of n instructions is 4n bytes, and its little-endian words decode to the program. |

## Left out

- The MESI cache, CPU pipeline, MMU, GPU and FIFO designs: no coherence protocol is modelled, and memory is
  sequentially consistent.
- Mailbox.Conservation: takes compare_exchange_64 as one atomic step; whether its two exclusive pairs are atomic
  depends on the monitor of the cache, which does not promise it to this model.
- Mailbox: one receiver, as the CPU that owns the mailbox is the only one to receive from it; sends start after
  bsp_main has cleared the mailboxes.
- SpinLock.MutualExclusion: takes spin_init as done, and memory as sequentially consistent; the addresses of the lock
  and of the saved mask do not alias.
- BootChain.CompletesIffPrefix: the status bit that says a CPU is halted follows the halt bit at once; in
  rtl/smp/smp_pe.sv it follows when the CPU has stopped. Breakpoints and single steps do not happen.
- BootChain.BootEnds: bounds the steps that change something; that a CPU with a step to make eventually makes it is
  the schedule's business.
- Smp.SmpCtrl.Write: leaves out breakpoints, the step output and the delay of the status bit in rtl/smp/smp_pe.sv; the
  firmware uses none of them.
- Float16Product.FromInt: the negation of the smallest 32-bit integer, undefined in C, is taken as 2^31.
- Float16Parse.ParseFp16: where digits or decimals overflow 32 bits (the only literals that ParsesDecimal leaves out), the model wraps as the compiled code would, and
  the contract says nothing of the value.
- Branches of float16.c that no input reaches are not written out: an infinite second operand after the first was
  found finite and larger in f16_sub, and an exact zero quotient of nonzero operands in f16_div.
- Raster.RasterHost: ends before the depth test; depth, colour interpolation, perspective division and matrices are
  floating point in the source.
- Raster.RasterCovers: coordinates are unbounded integers, so it assumes that no product overflows.
- The colour of a pixel is one level in Raster.Backend, since the source writes the same level to all channels.
- RingSystem.Drains: says that some node can emit while hops are left; the wires and drivers between models, with
  their random readiness, are not part of this model.
- Arbiter.NoStarvation: counts cycles without a stall; a memory that stalls forever starves everybody.
- LineEditor.Console: echoing to the terminal, the console lock (see SpinLock), and the countdown of transmit are not
  modelled; one program reads lines at a time, as the firmware does.
- LineEditor.Console.Irq: a finite number of keys arrives while the handler runs; one that is fed faster than it reads
  goes on.
- Uart: the control register, the interrupt line, takeover of the terminal and writes are not modelled; the handler may
  run at any time.
- Tokens: parse_cpu, parse_lane, parse_cpu_mask, parse_ptr and parse_aligned, which only compare characters.
- Hex.ParseHex: like the source it counts a character that is no digit as zero; the round trips are for digits.
- SimSlaveRuns.AcceptedOnceIffStable: assumes that the latch starts clear (the source leaves it unset), and that masters
  hold a request until it is taken, which the interconnect asserts.
- SimSlaves: like the source it ignores byte enables; a line read with none enabled never reaches the bridge and is not
  part of these runs.
- AvalonMemory.Interconnect.Run: the devices are memories, whose reads and writes finish at once, so the polling loops of
  dump and patch run once; a bus error ends the simulation in the source, while a run here may go on.
- AvalonAdapters: the adapters are described by the word access that they make; what a device does with it is its own
  affair.
- The text of assembly programs: comments, labels and operand syntax are taken as parsed, a broadcast immediate as the
  16-bit word that packing a float gives. No instruction uses a label or the immediate pool.
- Drivers, monitors, sockets, the video window, the interrupt controller, the timer and the register files of the
  graphics core.
