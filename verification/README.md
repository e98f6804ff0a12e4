# pypga: clocked logic, registers and the path to Python

This project models the parts of pypga whose correctness is hard to see from one piece of code: the logic
that pypga generates for the FPGA, cycle by cycle, and the software that reads and writes it. It proves what
holds over every run of them.

| file | what it models |
|---|---|
| `Bits.dfy`, `Clocked.dfy`, `Reals.dfy`, `Sequences.dfy`, `Wrappers.dfy` | fixed-width arithmetic; runs and output traces of any clocked machine; small helpers |
| `SpiMachine.dfy`, `SpiTransfer.dfy`, `SpiReceiver.dfy`, `SpiTiming.dfy` | the SPI transmitter, its waveform, a receiver that sees only the wires, and every cycle in numbers |
| `ArrayRegister.dfy`, `ArrayAccess.dfy` | registers with a depth: the memory behind one bus word, the server's access loops |
| `PythonArray.dfy` | arrays in Python: conversions, order, and what reading gives back after writing |
| `PulseGen.dfy`, `BurstGen.dfy` | the pulse generator and the burst generator around it |
| `Daq.dfy`, `Average.dfy` | the accumulators of the data acquisition, and its division by multiplication |
| `Recording.dfy` | what the acquisition's value register shows in every cycle of a burst, by the reduce mode |
| `Dma.dfy`, `DaqMemory.dfy` | addresses, AXI writer and Python array of the memory path; the whole path from samples to Python by DMA |
| `DaqArray.dfy` | the same path without DMA, through an array register |
| `Stream.dfy`, `Session.dfy`, `Fpga.dfy` | the byte stream between client and server; both ends as programs; the board that the server accesses |
| `Acquisition.dfy` | reading the acquired data over the connection |
| `Counter.dfy`, `Pid.dfy`, `Codec.dfy` | the counter, the PI controller, the number and fixed-point registers |

Every clocked module has a class whose `Tick` updates its registers in place and is proved equal to a step
function over the values from before the clock edge; the theorems are about runs of that function over
input sequences of any length. All widths are parameters. `dafny verify dfyconfig.toml` checks the project.
Every lemma carries `{:induction false}`: each induction is written out.

## What is assumed about the libraries

- In the cycle after a bus write a CSRStorage shows the new `storage` with `re` high, for one cycle. A write
  from the device (`we`) does not raise `re`. A bus write beats a device write in the same cycle.
- A memory port registers its address: `dat_r` is the cell at the address of the cycle before. What lies
  beyond the depth reads as zero and is not written. A memory that starts with a shorter list has zeros behind it.
- Every assignment cuts to the width of its signal; the last assignment in a cycle wins; `NextValue` and
  `NextState` take effect at the next edge.
- The server runs on a 32-bit little-endian ARM with unsigned `char`; a socket delivers bytes in order.
- The memory behind the AXI port takes address and data together, or neither.

## Where the code differs from its documentation

- The counter stops only *at* its stop value, never beyond it (`counter.py:18`, `counter.py:27`);
  `Counter.EverStopsIff` says exactly when it stops at all, `Counter.NotBeyond` gives a case in which it
  does not.
- A plain register saturates to `1 << width`, which its `width` bits hold as zero (`register.py:133-134`,
  `Codec.PlainSaturation`).
- The index of an array shares the bus word with the value, so cells from index `2^width` on cannot be
  reached, and the client drops what is beyond 65533 words (`ArrayAccess.FullListsReturnIff`). A list of a
  single word skips the index (`ArrayAccess.SingleWord`).
- An array of numbers or fixed-point numbers that is `reverse` can be written but not read: `register.py:157`
  hands an iterator to the conversion, of which numpy cannot make an array (`register.py:267`), so the read
  fails for every content (`PythonArray.FullListsReturnIff`, `PythonArray.FixedPointArraysReturnIff`). The
  waveform generator's `data` (`awg.py:60-68`) is such an array.
- A burst with period 0 has its first gap longer by `2^width` cycles (`BurstGen.FirstGap`), and a trigger in
  the one cycle after a burst shortens the first gap of the next by one (`BurstGen.ShortenedBurst`).
  `pulsegen.py:24-26` and `pulsegen.py:88-90` allow negative periods, which the code rejects.
- An SPI clock divider of 0 is accepted and behaves like 2 (`SpiReceiver.DividerZero`). A half-cycle lasts
  `div + 1` system clock cycles, as the comment at `spimachine.py:122-128` admits.
- The mean that the acquisition records leaves out the last samples of its window, because it passes through
  two more registers than the pulse does: with DMA the last two. Maximum, minimum, count and edges are
  complete with DMA (`DaqMemory.WindowInArray`). Without DMA the memory takes the value register one cycle
  earlier, so that these lack the last sample, and the mean the last three (`DaqArray.WindowInArray`). The
  position of the first pulse of a burst has no window before it when the trigger was met at rest, and shows
  what the last burst left (`Recording.FromRest`); when the trigger was high in the last cycle of a burst,
  as it always is if it is held high, it holds the last window of that one (`DaqMemory.FirstInArray`,
  `DaqArray.FirstInArray`).
- Counts from 2^20 on stay in the memory region but can leave the block of their AXI port
  (`Dma.OwnBlockIff`).
- A write whose acknowledgement arrives in pieces is reported as failed although the server did it
  (`Session.Client.Writes`).
- Fixed-point registers have no decimals by default and then divide by zero when read
  (`Codec.FixedWorksIff`).

## Model

| member | source | states |
|---|---|---|
| SpiMachine.ClockGen.Tick | pypga/modules/migen/spimachine.py:19-45 | the half-cycle clock's registers after one edge, `start` being driven from outside |
| SpiMachine.Register.Tick | pypga/modules/migen/spimachine.py:67-88 | shift register and `sdo` after one edge; a shift wins over an init |
| SpiMachine.Machine.Tick | pypga/modules/migen/spimachine.py:131-260 | the three coupled machines together after one edge, every branch reading the values from before it |
| SpiMachine.Machine.Pinout | pypga/modules/migen/spimachine.py:132-244 | the four wires of a cycle, as each state drives them |
| SpiTransfer.HalfCycle | pypga/modules/migen/spimachine.py:122-128 | from its start pulse to the state it leads to, a half-cycle holds all wires for exactly `Half` cycles, in every state of the machine |
| SpiTransfer.HoldAndLeave | pypga/modules/migen/spimachine.py:153-176 | a leading, trailing or idle stage of any count shows one steady picture and then leaves, one cycle after its half-cycles |
| SpiTransfer.SendWord | pypga/modules/migen/spimachine.py:178-218 | any number of bits still in the shift register goes out in order, each for a whole clock period with the two clock levels of the phase, whatever the inputs do |
| SpiTransfer.Transfer | pypga/modules/migen/spimachine.py:131-260 | a transfer shows exactly the waveform of the word on `pdo` in the latch cycle (the end of the leading half-cycles, not the start), for any activity on `start` and `pdo`, and ends in the resting state |
| SpiReceiver.Interrupted | pypga/modules/migen/spimachine.py:131-260 | cut off at any cycle, a transfer has shown that beginning of its waveform |
| SpiReceiver.Refines | pypga/modules/migen/spimachine.py:91-260 | in every run of any length the wires are those of the ideal transmitter: at rest until a start, then whole waveforms |
| SpiReceiver.RoundTrip | pypga/modules/migen/spimachine.py:65-88 | a receiver that samples `sdo` at the edge between the two halves of each bit reassembles the latched word, for both bit orders and phases; it sees one clock pulse per bit |
| SpiReceiver.ReceivedIsSent | pypga/modules/migen/spimachine.py:131-260 | after any run from rest the receiver has a beginning of everything sent, and all of it whenever `idle` is high |
| SpiReceiver.EveryRun | pypga/modules/migen/spimachine.py:91-260 | both facts from power-up, for every input sequence |
| SpiReceiver.Observe | pypga/modules/migen/spimachine.py:95-260 | the machine with its registers updated in place, driven from power-up with any inputs, shows exactly the wires of the ideal transmitter |
| SpiReceiver.BusyWaveform | pypga/modules/migen/spimachine.py:131-260 | `idle` only in the first cycle, `cs` without a gap from the second up to the idle half-cycles, `clk` only under `cs` |
| SpiReceiver.ExactTiming | pypga/modules/migen/spimachine.py:122-139 | (L+2W+T+I)(div+1)+4 busy cycles, of which (L+2W+T)(div+1)+3 with `cs` high, the word read in cycle L(div+1)+1; L is the configured number of leading half-cycles, and 1 when that is zero and the phase is set |
| SpiTiming.CycleByCycle | pypga/modules/migen/spimachine.py:131-260 | all four wires in every cycle of a transfer, in numbers: when the leading half-cycles end, which bit of the word is out when, with which level of the clock for either phase, and when chip select falls |
| SpiReceiver.DividerZero | pypga/modules/migen/spimachine.py:32 | a divider of 0 gives the half-cycle of a divider of 2 |
| SpiReceiver.Handshake | pypga/modules/migen/spimachine.py:40-43 | after every input sequence: `start` is never high in two consecutive cycles and only while the clock generator rests and half-cycles remain; so its counter never wraps, which the source leaves to the caller |
| ArrayRegister.Register.Tick | pypga/core/register.py:59-95 | the register, memory port and copy-back pipeline after one edge with or without a bus write |
| ArrayRegister.Refines | pypga/core/register.py:64-92 | for every sequence of bus writes, back to back or not, draining the pipeline gives the plain array in which odd words set the index and even words store their upper bits |
| ArrayRegister.TwoCyclesDrain | pypga/core/register.py:84-92 | two cycles without a write suffice for memory and index to be the plain array's |
| ArrayRegister.OddSetsIndex | pypga/core/register.py:64-70 | the word 2i + 1 sets the index to i |
| ArrayRegister.EvenWrites | pypga/core/register.py:85-92 | the word 2v writes v at the index |
| ArrayRegister.AddressInRange | pypga/core/register.py:68-70 | which cell an index reaches: its own up to the width, else the one its low bits name |
| ArrayRegister.AddressOf | pypga/core/register.py:60-70 | any index leads to its low bits, as many as the width and then as many as the least power of two not below the depth |
| ArrayRegister.ReadBackGivesCell | pypga/core/register.py:71-77 | four or more idle cycles after any index write, whatever was in the pipeline, the register shows the indexed cell, and no cell has changed |
| ArrayRegister.TooEarly | pypga/core/register.py:71-76 | with fewer than four idle cycles a register at rest shows the index word instead |
| ArrayRegister.ReadsInitial | pypga/core/register.py:42-50 | before anything is written each cell reads as the list the memory starts with |
| ArrayAccess.WriteValues | pypga/core/interface/remote/server/server.c:324-346 | the write loop over the clocked register, for any idle gaps: the cells become those of writing each word at its index; a single word goes out raw |
| ArrayAccess.ReadValues | pypga/core/interface/remote/server/server.c:300-322 | the read loop, with at least four idle cycles before each read, fills the buffer with the indexed cells and nothing else, and changes no cell |
| ArrayAccess.WrittenInPlace | pypga/core/interface/remote/server/server.c:333-336 | written words land in the first cells in order and the others keep their contents |
| ArrayAccess.Assign | pypga/core/interface/remote/client.py:128-130 | writing a list of any length, up to the words the client passes on; one word goes out raw, and for none the word left in the server's buffer |
| ArrayAccess.Fetch | pypga/core/register.py:150-153 | reading the words of an array gives the cells in order, as far as the client reads, and changes none |
| ArrayAccess.RoundTrip | pypga/core/interface/remote/server/server.c:308-336 | a list of words comes back, each cut to the width of a cell, followed by the cells beyond it unchanged |
| ArrayAccess.AssignAndFetch | pypga/core/interface/remote/server/server.c:300-346 | the same end to end over the clocked register, for any gaps and anything still in its pipeline |
| ArrayAccess.FullListsReturnIff | pypga/core/register.py:59-70 | full lists of two words or more come back if and only if there are at most 65533 cells and at most 2^width |
| ArrayAccess.SingleWord | pypga/core/interface/remote/server/server.c:337 | exactly when a single-word list arrives in cell 0 |
| PythonArray.Set | pypga/core/register.py:160-174 | assigning a list of values: reversed if the register is, converted one by one, and written over the clocked register |
| PythonArray.Get | pypga/core/register.py:141-158 | reading the array: the cells in the order of the register, converted; it fails, after the accesses, for a reversed array that numpy converts |
| PythonArray.RoundTrip | pypga/core/register.py:149-174 | an array that is not reversed gives back each value as its cell holds it, followed by the cells beyond the list unchanged |
| PythonArray.ReversedRoundTrip | pypga/core/register.py:149-174 | a reversed plain or boolean array gives them back at its end, both reversals cancelling |
| PythonArray.PlainStored | pypga/core/register.py:119-136 | a plain value comes back as long as the offset leaves it within the width, else its cell holds zero |
| PythonArray.ReadsDefault | pypga/core/register.py:42-50 | before anything is written an array that can be read gives its default list, in both orders, and zeros without one |
| PythonArray.NumbersComeBack | pypga/core/register.py:248-293 | integers assigned to a number array without offset come back limited by max and min and clamped to the range of the width, element by element |
| PythonArray.FixedPointComesBack | pypga/core/register.py:301-320 | fixed-point numbers come back within 0.5/(2^decimals - 1) of what limits and width make of them |
| PythonArray.FullListsReturnIff | pypga/core/register.py:156-158 | full lists of values come back if and only if those of words do and the array is not a reversed one that numpy converts |
| PythonArray.PlainArraysReturnIff | pypga/core/register.py:119-136 | plain arrays: exactly up to 65533 and 2^width cells, reversed or not |
| PythonArray.NumberArraysReturnIff | pypga/core/register.py:262-271 | number arrays: exactly then and if not reversed |
| PythonArray.FixedPointArraysReturnIff | pypga/modules/awg.py:60-68 | fixed-point arrays: exactly then and if not reversed, which the waveform generator's array is |
| PulseGen.Generator.Tick | pypga/modules/migen/pulsegen.py:48-67 | the generator after one edge, counter and carry as one borrowing counter |
| PulseGen.PulseTrain | pypga/modules/migen/pulsegen.py:20-36 | for every sequence of on and off, registers and output are those of the ideal train of the time since switching on: a first pulse, then one every period + 2 cycles |
| PulseGen.Spacing | pypga/modules/migen/pulsegen.py:21 | after a pulse the next one comes exactly period + 2 cycles later, none in between |
| PulseGen.NeverAdjacent | pypga/modules/migen/pulsegen.py:34-35 | no on/off sequence gives two pulses in adjacent cycles |
| PulseGen.FirstPeriod | pypga/modules/migen/pulsegen.py:45-53 | the first pulse comes period - offset + 2 cycles after switching on exactly when that count fits the counter |
| BurstGen.Generator.Tick | pypga/modules/migen/pulsegen.py:98-142 | the burst generator with its pulse generator after one edge |
| BurstGen.Refines | pypga/modules/migen/pulsegen.py:109-142 | for every trigger and reset sequence its outputs are those of an ideal machine that only counts pulses left and cycles to wait |
| BurstGen.Burst | pypga/modules/migen/pulsegen.py:78-96 | a burst that is not reset shows exactly its waveform, whatever the trigger does, and a trigger in its last cycle starts the next one without a break |
| BurstGen.AcceptedTrigger | pypga/modules/migen/pulsegen.py:119-142 | every trigger accepted after any run from power-up, at rest or in the last cycle of a burst, is answered by exactly one waveform, and by rest or the next burst right after it |
| BurstGen.TriggerMatters | pypga/modules/migen/pulsegen.py:119-137 | exactly at rest and in the last cycle of a burst a trigger makes a difference |
| BurstGen.LastCycle | pypga/modules/migen/pulsegen.py:130-136 | the last cycle of every burst accepts the next trigger |
| BurstGen.GapAt | pypga/modules/migen/pulsegen.py:86-96 | pulse j carries count left - j and is followed by its gap, up to the next pulse |
| BurstGen.BurstNumbers | pypga/modules/migen/pulsegen.py:86-90 | left + 1 pulses, busy throughout, for exactly wait + 1 + left (period + 2) cycles |
| BurstGen.FirstGap | pypga/modules/migen/pulsegen.py:103-108 | from rest a burst lasts (pulses + 1)(period + 2) cycles exactly when the period is at least 1; for 0 the first gap is 2^width longer |
| BurstGen.ShortenedBurst | pypga/modules/migen/pulsegen.py:111 | a burst triggered in the one cycle after the last one, with the pulse generator still on, lasts one cycle less |
| Daq.Daq.Tick | pypga/modules/daq.py:144-203 | burst generator and accumulators together after one edge |
| Daq.Daq.Reduce | pypga/modules/daq.py:168-203 | all accumulator registers after one edge: restarted at a pulse, extended while busy, kept otherwise; average and value lag as in the code |
| Daq.Extends | pypga/modules/daq.py:182-193 | one more sample in a window extends sum, extremes, count and rising edges by exactly that sample |
| Daq.Decompose | pypga/modules/daq.py:144-149 | over any run the module is its burst generator and the accumulators fed with what that shows |
| Daq.Windows | pypga/modules/daq.py:168-193 | composed with the burst generator, in each cycle after pulse j up to the next pulse or the end the registers reduce exactly the samples since pulse j |
| Daq.WindowLength | pypga/modules/migen/pulsegen.py:81 | a complete window has period + 2 samples, the first one wait + 1 |
| Daq.NextBurst | pypga/modules/migen/pulsegen.py:133 | with the trigger high in its last cycle a burst is followed by the next one, to which all that is said of bursts applies, and so on |
| Daq.EveryTrigger | pypga/modules/migen/pulsegen.py:119-137 | all that is said of bursts applies to every trigger accepted after any run from power-up, for every period, number of pulses and inputs |
| Daq.NoOverflow | pypga/modules/daq.py:126-192 | sum and count are exact for windows up to 2^max_samples_in_bits samples, the edge count up to 0x400000 |
| Daq.RisingCounts | pypga/modules/daq.py:170-192 | the edges are the cycles in which the input goes from below the threshold to above it |
| Daq.MeanTwoCyclesLater | pypga/modules/daq.py:169-174 | two cycles after a window its mean is in the average register, within the width, less than 1 + 2^(w-1)(n-1)/2^16 off, and the exact floor when n divides 2^16 |
| Recording.WindowHeld | pypga/modules/daq.py:176-193 | in every cycle of every burst the accumulators hold the samples since the last pulse |
| Recording.ValueShown | pypga/modules/daq.py:194-202 | in every cycle of every burst the value register shows the selected reduction: of the window up to the cycle before (the mean: two cycles less), the sample or the offset of that cycle, or for mode 7 what it showed before; in the first cycles what the registers had collected by then |
| Recording.BusySeen | pypga/modules/daq.py:175 | Python sees busy one cycle late, for the whole burst, and beyond it only if another burst follows at once |
| Recording.FromRest | pypga/modules/daq.py:176-193 | after a trigger met at rest that is what the last burst left |
| Recording.LastWindow | pypga/modules/daq.py:176-193 | after a burst without a break it is the complete last window of that one, the mean lacking two samples |
| Recording.FirstValueOfNext | pypga/modules/daq.py:194-202 | one cycle earlier the value register shows that window without its last sample, the mean without three |
| Recording.WindowIsComplete | pypga/modules/daq.py:144-149 | so many cycles before a pulse the window is the complete one without as many samples |
| Recording.MeanNear | pypga/modules/daq.py:91-93 | with the inverse floor(2^16/n) that Python sets for n samples, a mean that lacks lag of them is in range, less than 1 + M(n-1)/2^16 from their sum over n, and at most lag M/n further from the mean of the window, M being 2^(w-1), or 2^w if unsigned |
| Recording.CompleteWindow | pypga/modules/daq.py:168-202 | extremes, count, edges and mean of a complete window seen with any lag |
| Average.MeanInRange | pypga/modules/daq.py:174 | multiply and shift never leaves the range of the samples |
| Average.MeanBound | pypga/modules/daq.py:91-93 | its distance from the true quotient over the reals |
| Average.MeanExact | pypga/modules/daq.py:91-93 | it is the floor of the true quotient when n divides 2^16 |
| Dma.AddressSplit | pypga/modules/daq.py:243-255 | the masked and or-ed address in terms of block and position, for every count |
| Dma.AddressInRegion | pypga/modules/daq.py:247-255 | no count leads out of the memory region reserved for the FPGA |
| Dma.AddressOfPosition | pypga/modules/daq.py:248-255 | below 2^20 a count has the eight bytes of its position in its port's own block, so that positions are distinct and ports disjoint |
| Dma.AddressIs | pypga/modules/daq.py:243-255 | every address in numbers: 0xA000000, the block by port and bits 20 and 21 of the count, eight bytes for each position |
| Dma.OwnBlockIff | pypga/modules/daq.py:243-245 | exactly which counts stay in the block of their port: those whose bits 20 and 21 are zero or the port's, and all for port 3 |
| Dma.Writer.Tick | pypga/modules/migen/axiwriter.py:52-99 | address, valid bits and memory after one edge |
| Dma.Aligned | pypga/modules/migen/axiwriter.py:55-99 | over any run and any readiness, what reaches memory is for each pulse the count of that cycle with the value of the next one, provided the memory was ready then |
| Dma.RecordedLast | pypga/modules/daq.py:248-262 | a position holds its last sample even when earlier counts were 2^20 or more |
| Dma.LowWordDecodes | pypga/core/register.py:248-259 | the low word of a sign-extended 64-bit sample decodes to the sample |
| Dma.ServedAt | pypga/core/interface/remote/server/server.c:256-264 | for every offset and length the server sends the words from 0xA000000 + offset mod 0x2000000 on |
| Dma.BothHalves | pypga/modules/migen/axiwriter.py:91-94 | the two words of a position are both halves of its last sample, extended with its sign to 64 bits |
| Dma.RoundTrip | pypga/core/register.py:155-158 | after any run position k of the port's array in Python is the last sample recorded for count k, or what it was; the arrays of the other ports do not change |
| DaqMemory.Decompose | pypga/modules/daq.py:237-262 | acquisition and writer run together as each does on what it sees |
| DaqMemory.AlwaysKept | pypga/modules/daq.py:136-139 | what goes to memory always fits the width of a sample |
| DaqMemory.BurstInMemory | pypga/modules/daq.py:248-262 | a full burst leaves at each position the value of the cycle after the pulse of that count |
| DaqMemory.ArrayAfterBurst | pypga/modules/daq.py:134-262 | from samples to Python by DMA: after any run and a trigger accepted at rest or at the end of a burst, for every period and number of pulses, each position k of the array up to the number of pulses holds what the value register shows in the cycle after the pulse of count k |
| DaqMemory.WindowInArray | pypga/modules/daq.py:168-202 | from the second pulse on that is the reduction of the complete window between the pulses of counts k + 1 and k; the mean lacks its last two samples |
| DaqMemory.FirstInArray | pypga/modules/daq.py:134-262 | when the burst follows another one without a break, its first position holds the reduction of the last window of that one |
| DaqArray.Recorder.Tick | pypga/modules/daq.py:224-234 | without DMA: the acquisition and the write port of its memory after one edge |
| DaqArray.ArrayAfterBurst | pypga/modules/daq.py:134-234 | from samples to Python without DMA: each position that the index reaches holds what the value register shows in the very cycle of the pulse of its count |
| DaqArray.WindowInArray | pypga/modules/daq.py:224-234 | so it reduces all but the last sample of the complete window, and the mean all but the last three |
| DaqArray.FirstInArray | pypga/modules/daq.py:134-234 | when the burst follows another one without a break, its first position holds the reduction of all but the last sample of the last window of that one |
| Acquisition.ReadData | pypga/core/register.py:155-158 | reading over the connection gives the port's array in the memory of the board: every second word of its block, decoded |
| Acquisition.ReadBurst | pypga/modules/daq.py:207-216 | after a burst each position of what is read over the connection is what the value register showed in the cycle after its pulse |
| Stream.AllBytesRoundTrip | pypga/core/interface/remote/client.py:83 | words survive their little-endian bytes |
| Stream.HeaderBytes | pypga/core/interface/remote/client.py:55-143 | each header byte by byte: the letters r, d and w, the length, and the address, lowest byte first |
| Stream.WordBytes | pypga/core/interface/remote/client.py:146 | each word of a write, lowest byte first |
| Stream.Limits | pypga/core/interface/remote/client.py:51-129 | up to 65533 words are written and up to 65535 read whole, longer lists cut to that, and reads from memory of 2^23 words or more refused |
| Stream.FrameParses | pypga/core/interface/remote/server/server.c:227-280 | whatever follows in the stream, the server takes exactly the bytes of a command's frame and understands exactly that command |
| Stream.StreamParses | pypga/core/interface/remote/server/server.c:227-280 | so it understands exactly the sent commands, for any sequence of them |
| Stream.OtherLetters | pypga/core/interface/remote/server/server.c:278-279 | the letter c closes, any letter but the four is an error |
| Session.Connection.Recv | pypga/core/interface/remote/client.py:71 | receives some of the bytes under way, in order, at least one if there are any |
| Session.Server.Receive | pypga/core/interface/remote/server/server.c:230-279 | takes exactly one frame off the stream, through the buffer, and makes out its request |
| Session.Server.Serve | pypga/core/interface/remote/server/server.c:227-280 | one turn of the service loop takes one frame, performs exactly its request on the clocked register or the memory, and sends exactly header and words |
| Fpga.Board.Access | pypga/core/interface/remote/server/server.c:246-276 | what each request does to the register behind the address, and the words that registers or memory give for it, for any offset into the memory |
| Session.Client.Receive | pypga/core/interface/remote/client.py:70-82 | collects exactly the expected bytes in however many pieces, or reports that they are not all there |
| Session.Client.ClearSocket | pypga/core/interface/remote/client.py:158-165 | throws away the beginning of what is under way, in at most 100 pieces, so all of it when it is no more than 100 bytes |
| Session.Client.CheckAcknowledgement | pypga/core/interface/remote/client.py:149-165 | success exactly for the same header; otherwise what is under way is thrown away |
| Session.Client.Send | pypga/core/interface/remote/client.py:144-146 | after sending a command the server has performed it and only its reply is under way |
| Session.Client.Collect | pypga/core/interface/remote/client.py:70-83 | takes a reply in however many pieces, leaves nothing, and returns exactly its words |
| Session.Client.Fetch | pypga/core/interface/remote/client.py:51-126 | a read returns exactly the words that the board gave for it and leaves both directions empty, for every cutting into pieces |
| Session.Client.Writes | pypga/core/interface/remote/client.py:128-147 | the server has done the write; the client reports success exactly when the acknowledgement came in one piece; nothing is left over |
| Session.Client.Execute | pypga/core/interface/remote/client.py:95-97 | a memory read that is too long is refused without touching connection or board |
| Session.Client.Play | pypga/core/interface/remote/client.py:51-156 | for every sequence of commands the server receives and performs exactly these, each on the register as the one before left it; each read gets exactly its words, and nothing is left in either direction |
| Session.Client.WriteAndRead | pypga/core/interface/remote/client.py:51-147 | a list written to an array register and read back, as bytes over the connection and words over the bus to the clocked register, comes back, followed by the cells beyond it |
| Counter.Counter.Tick | pypga/modules/migen/counter.py:42-54 | count and carry after one edge: reset, else one step if enabled and not done |
| Counter.Conservation | pypga/modules/migen/counter.py:46-54 | for every sequence of resets and enables, count + 2^width wraps is start plus or minus step times the steps taken, and done marks the stop value |
| Counter.TakenIsLeast | pypga/modules/migen/counter.py:44-50 | the steps taken are all enabled ones, or the least number that leads to the stop value |
| Counter.CarryMarksWraps | pypga/modules/migen/counter.py:24-26 | the carry marks exactly the steps that wrap around |
| Counter.EveryCycle | pypga/modules/migen/counter.py:46-54 | a reset shows start without a carry, a disabled or done counter keeps count and carry, an enabled step has a carry exactly when the count leaves its range |
| Counter.DoneFreezes | pypga/modules/migen/counter.py:47-50 | once done the counter does not move until it is reset |
| Counter.EverStopsIff | pypga/modules/migen/counter.py:18-20 | the counter stops at some time exactly when its stop value fits the count and lies a multiple of the common power of two of step and 2^width away |
| Counter.NotBeyond | pypga/modules/migen/counter.py:27 | an upward counter with step 2 passes an odd stop value for ever |
| Pid.Controller.Tick | pypga/modules/migen/pid.py:51-60 | the six pipeline registers after one edge |
| Pid.RefinesLaw | pypga/modules/migen/pid.py:30-60 | four cycles later the output is the unbounded proportional-integral law modulo 2^width for every input sequence, although the integral wraps; error and products are exact |
| Pid.LawIs | pypga/modules/migen/pid.py:51-56 | that law is k_p times (input - setpoint) plus k_i times the sum of all such differences before |
| Pid.ExactIff | pypga/modules/migen/pid.py:57-59 | it is the law itself exactly when the law fits the output |
| Codec.DecodeArray | pypga/core/register.py:262-271 | the array conversion agrees with the conversion of a single number, element by element |
| Codec.RoundTripIff | pypga/core/register.py:119-136 | for every offset, a number reads back as limited and saturated exactly when the offset leaves its code within the width, up to two wrap-around cases |
| Codec.RoundTrip | pypga/core/register.py:248-293 | without an offset every integer reads back limited by max and min, and then clamped to the range of its width |
| Codec.PeriodRoundTrip | pypga/modules/daq.py:60-65 | the period registers read back max(2, v), clamped at the top |
| Codec.CodeRoundTrip | pypga/core/register.py:248-293 | every word is the encoding of its decoding |
| Codec.PlainSaturation | pypga/core/register.py:127-136 | a plain register holds the clamped number below 2^width and zero from there on |
| Codec.FixedWorksIff | pypga/core/register.py:296-320 | every raw word within the limits can be read and written back exactly when there is at least one decimal |
| Codec.ReadScale | pypga/core/register.py:301-304 | what is read for a word, times 2^decimals - 1, is the number it stands for |
| Codec.FullScale | pypga/core/register.py:301-320 | the word 2^decimals - 1 reads as 1.0, and 1.0 and -1.0 are stored as plus and minus that |
| Codec.RoundNear | pypga/core/register.py:317 | rounding to the nearest, and to the even one of two equally near |
| Codec.FixedCodeRoundTrip | pypga/core/register.py:301-320 | encoding the decoded number gives back every raw word within the limits |
| Codec.FixedError | pypga/core/register.py:315-320 | every number reads back within 0.5/(2^decimals - 1) of what its limits and the range of the width make of it |
| Codec.FixedMonotone | pypga/core/register.py:273-320 | writing keeps the order of all numbers, also beyond limits (a minimum not above the maximum) and where it saturates |

## Left out

- Sockets, authentication, timeouts, fork, mmap and the SSH side: only the order of bytes and register accesses is modelled.
- Dma.Writer.Tick: one ready signal stands for those of the address and the data channel, so a memory that takes only one half of a write is not modelled; nor is back-pressure, since the writer lowers valid after one cycle whatever ready does, and a sample met by a memory that is not ready is lost in the model as in the code. All clocks are one.
- IEEE floating point: reals are exact and rounding is half to even; the array conversions of numpy are exact only up to 53 bits, and plain arrays have no offset that numpy's unsigned words would wrap around at.
- Changing parameters during a run: periods, pulse counts, gains, threshold and the SPI mode wires are constant in each run.
- PulseGen: the `restart` signal, which nothing drives, and `on` or `period` given as constants.
- SpiMachine: a system reset in the middle of a transfer, after which `sdo` keeps its level; half-cycle counts given as signals.
- Daq: the `length` register's offset and the `reversed` keyword, which the rest of the code does not agree with; the raw number of pulses is used. Reading the array while a burst is recorded is not modelled.
- Fpga.Board.Access: the board has one array register and the memory, and nothing writes them during a session. A memory read that starts inside the region and runs beyond its end is served like any other.
- Session.Client.CheckAcknowledgement: a receive with nothing under way returns at once, where a socket waits for more or for its timeout.
- Boolean, trigger and string registers, registers of a single word, multiplexers, GPIO, LEDs, converters, module building, simulation and plotting: little beyond single expressions or wiring around libraries that are not part of this model.
