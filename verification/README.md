# SHA-256 core, AXI front ends and DMA driver: a verified model

This project models the three parts of the repository that compute something over unbounded runs, and proves what
they compute.

- **The SHA-256 core** (`sha256.v`, `sha256_chunk_process.v`, `sha256_chunk_compress.v`, `sha256_k.v`). Every module
  is a class whose `Tick` method is one clock edge; the combinational nets are functions. The core is proved to refine
  the hash computation of FIPS 180-4, section 6.2.2, for every sequence of input pins, with stalls, resets and
  arbitrary data on the pins of a busy core. The standard is written down separately (`Fips180.dfy`), and the 64 ROM
  words and 8 initial words are proved to be the cube and square roots that sections 4.2.2 and 5.3.3 ask for. Around
  it: exact latency, the interrupt, non-interference of busy inputs, and the whole way from a byte message through
  `make_chunk` and the little-endian bus to the bytes of its digest.
- **The AXI front ends**: the AXI4 burst slave, the AXI4-Lite slave and the stream input. Which beats reach the core,
  where burst addresses go, how many beats a read has, how writes are answered, what the soft reset does.
- **The DMA path of the PCIe driver** (`hsha256.c`, `libxdma.c`): page pieces, software descriptors, descriptor chains
  in a ring, the walk that the hardware makes through them, and the bookkeeping of submitted and finished transfers,
  over any interleaving of submit loops and service calls.

| file | contents |
|---|---|
| `Division.dfy`, `Words.dfy` | arithmetic; registers as rows of bits, the adder, byte orders |
| `Fips180.dfy`, `RoundConstants.dfy`, `Primes.dfy`, `ConstantDerivation.dfy` | the standard; the constant ROM, the first primes, and how the words come from them |
| `ChunkProcess.dfy`, `ChunkCompress.dfy`, `Sha256Core.dfy` | the core, module by module |
| `CoreRefinement.dfy`, `CoreTiming.dfy`, `NonInterference.dfy` | what the core does over whole runs |
| `PaddingBits.dfy`, `MakeChunk.dfy`, `EndToEnd.dfy` | the standard's padding in bits; padding in the driver program; from message bytes to digest bytes |
| `RegisterMap.dfy`, `AxiBurst.dfy`, `AxiFull.dfy` | the shared register map; burst addresses; the burst slave |
| `AxiFullWrite.dfy`, `AxiFullBursts.dfy`, `AxiFullProgress.dfy` | its write channels, bursts and responses, the end of back-pressure |
| `AxiFullRead.dfy`, `AxiFullRegisters.dfy`, `AxiFullStall.dfy` | its read channels; what its registers hold and show, seen from the pins; stalled beats |
| `AxiFullDriver.dfy` | a master that writes a message and reads the digest |
| `AxiLite.dfy`, `AxiStream.dfy` | the other two front ends |
| `PageMap.dfy`, `SwDesc.dfy` | user buffer to page pieces; page pieces to software descriptors |
| `DescControl.dfy`, `DescRing.dfy`, `RingWindows.dfy` | control words; chains in the ring; which windows they get, and when windows overlap |
| `ChainWalk.dfy`, `DmaPath.dfy` | the hardware's walk; the whole path from buffer to moved bytes |
| `EngineService.dfy`, `EngineRing.dfy` | queueing, starting and servicing an engine; ring, queue, engine and submit loops together |
| `EngineRuns.dfy`, `RingHazards.dfy` | what the engine executes over whole runs; runs in which it executes the wrong thing |

A register word is a sequence of 32 bits and addition is the ripple-carry adder, proved to be addition modulo 2^32, so
that no arithmetic fact about words is taken for granted.

## What the code does that its comments or its promises do not say

- `make_chunk` pads as FIPS 180-4, section 5.1.1, except when the message length is 55 modulo 64 (it then adds a block
  of zeros too many) or when the bit count overflows `usize`, which is 32 bits on the configured target.
  `MakeChunkIsFipsPadding` proves exactly that condition. Neither case loses information: `MessageRecoverable` reads
  every message back. A reader that takes the length field at face value fails exactly on overflow (`FieldSuffices`).
- The burst slave's comment gives the data addresses as 0x10 to 0x1f. These are word indices: the byte addresses are
  0x40 to 0x7f, and the model follows the code.
- A burst of the reserved type counts in words but stores the word number as a byte address, so from its sixth beat on it
  is at address 1 and writes the status register (`ReservedSettles`). Every burst of a defined type follows the
  protocol (`BurstFollowsAxi`).
- The read channel of the burst slave keeps sampling the addressed register while a beat is stalled, so RDATA can change
  under RVALID. `StalledDataCanChange` gives a run. `StallIsStableExactly` says for each address, and for stalls of any
  length, exactly when it stays: always where there is no register, for a hash word while no block ends, for the status
  register while there is no write and busy does not change. `BeatOnBus` states the sampling as it is.
- An interrupt that stops an idle engine and then reads a descriptor count of zero leaves the queue stranded until the
  next submission (`StrandedQueue`); `EngineRunsIffQueued` proves over whole runs that this is the only case.
- `xdma_init_request` counts the descriptors it sets aside in 32 bits, and computes the size of the allocation in
  32 bits. When either wraps, its second loop writes past the memory it was given. `EnoughSetAside` and `FitsExactly`
  say for which tables that happens. `desc_blen_max` may be set as low as 1, and then 256 MiB in single pages are enough
  (`SizeWraps`), or a single entry of 4 GiB less one byte (`CountWraps`).
- A request has room for two transfers. The loop of `xdma_xfer_submit_nowait` holds no lock from one `transfer_init` to
  the next, so the calls of other submit loops can fall between its own. Two transfers then always suffice exactly for
  requests that leave at most one descriptor over at the end of the ring (`TwoSufficeInterrupted`), and the chains of a
  request always keep apart exactly if there is only one (`ApartInterrupted`). `InterruptedRun` is a request of three
  descriptors that gets three transfers, two of them in the same slot. A loop that nobody interrupts does better:
  `TwoTransfersSuffice` and `ChainsApartExactly` give its bounds. A request with more descriptors than the ring (2048 of
  them, or 8 MiB in single pages) gets overlapping chains in any case (`LongRequestsOverlap`), and after an
  uninterrupted loop its first chain no longer stands (`AllStandAtTheEnd`).
- Only the `nowait` loop builds a chain over one that is still queued. The blocking `xdma_xfer_submit` holds `desc_lock`,
  waits for each transfer and clears its slots before it builds the next. `BufferIsMovedChainByChain` and `SubmitBuffer`
  are theorems about that loop, on an engine that is not also used by `nowait` loops.
- `desc_used` counts the descriptors that are handed out, but nothing ever waits for room: a request can be built over
  another one that is still queued, and the engine then moves the wrong bytes (`WithoutRoom`).
- The slots of a finished transfer are not free. When the last transfer of a `nowait` request finishes, `io_done` runs
  `xdma_xfer_completion` inside the service call, and that zeroes the slots of all its transfers (up to the first failed
  one) before the engine is started again. A chain that was built over one of them in the meantime is damaged:
  `FinishedIsNotFree` is such a run, for every ring size. The blocking loop zeroes its slots without the engine lock.
- Where every new chain finds room next to all chains whose slots have still to be cleared, each chain that the engine
  is started on is the one that was built for it, whatever the interleaving (`EngineStartsOnItsChain`), and by the time
  a request is over all its bytes have been moved in order (`BufferIsMovedAmongOthers`). `RoomIsExact` says what room is.

## Model

| member | source | states |
|---|---|---|
| Words.AddIsModular | sha256_chunk_compress.v:96-107 | the 32-bit adder of the nets adds modulo 2^32, carry out of bit 31 lost |
| Words.AddAssociates | sha256_chunk_compress.v:96-107 | sums may be split over pipeline stages in any grouping |
| Words.SwapTurnsOrder | sha256.v:77 | the byte swap turns little-endian words into the big-endian words of FIPS 180-4, and back on the way out |
| Words.ValueOfBits | sha256_k.v:13-76 | a constant written as a number has that value as a row of bits, modulo the width |
| Primes.TableOfPrimes | sha256_k.v:13-76 | entry t of the table of 64 numbers is prime, and exactly t primes are smaller |
| ConstantDerivation.RomFromCubeRoots | sha256_k.v:13-79 | all 64 ROM words are the first 32 fraction bits of the cube roots of the first 64 primes, which are proved to be that (FIPS 180-4, section 4.2.2) |
| ConstantDerivation.CubeRootIsUnique | sha256_k.v:13-79 | no other word would do: the fraction bits are determined by the number |
| ConstantDerivation.InitialHashFromSquareRoots | sha256_chunk_compress.v:163-185 | the reset values of H8 are the first 32 fraction bits of the square roots of the first 8 primes (section 5.3.3) |
| ChunkProcess.SigmaNets | sha256_chunk_process.v:59-84 | the rewired nets are the functions sigma0 and sigma1 of section 4.1.2 |
| ChunkProcess.SigmasStayCurrent | sha256_chunk_process.v:66-93 | every clock edge keeps s0 = sigma0(W[1]) and s1 = sigma1(W[14]), whatever is shifted in |
| ChunkProcess.NewWordIsNextSchedule | sha256_chunk_process.v:59-97 | with W_{n-16}..W_{n-1} in the window, w_new is W_n of the message schedule |
| ChunkProcess.Sha256ChunkProcess.Tick | sha256_chunk_process.v:66-122 | one edge of the shift register and of the early sigma registers, all sampled before the edge |
| ChunkProcess.Sha256ChunkProcess.Reset | sha256_chunk_process.v:68-122 | an asynchronous reset clears the window and the sigma registers |
| ChunkCompress.LogicNets | sha256_chunk_compress.v:84-94 | the rewired nets are Sigma0, Sigma1, Maj and Ch of section 4.1.2 |
| ChunkCompress.EdgeStagesRound | sha256_chunk_compress.v:123-161 | after a valid edge the stages hold the partial sums of the round for the word and constant just taken |
| ChunkCompress.StagedRoundFinishes | sha256_chunk_compress.v:96-107 | one cycle later the nets show the finished round of section 6.2.2 |
| ChunkCompress.Sha256ChunkCompress.Tick | sha256_chunk_compress.v:75-185 | one edge of H8, abcdefgh and stage, all sampled before the edge |
| ChunkCompress.Sha256ChunkCompress.Reset | sha256_chunk_compress.v:123-185 | reset loads the initial hash value and clears the pipeline |
| Sha256Core.BusyIgnoresData | sha256.v:75-77 | hash_busy_o depends on state, counter and reset, not on the data pins |
| Sha256Core.Sha256.TickPipelines | sha256.v:83-131 | both pipelines sample the pre-edge state of each other, so the order of the writes does not matter |
| Sha256Core.Sha256.ClockEdge | sha256.v:67-178 | one edge outside reset: state, counter, interrupt and both pipelines |
| Sha256Core.Sha256.Tick | sha256.v:67-178 | one cycle, with the asynchronous reset |
| CoreRefinement.NetsShowRound | sha256_chunk_compress.v:75-107 | with counter n in LOAD or PROC, abcdefgh_next equals the working variables after n rounds |
| CoreRefinement.WindowTakesWord | sha256_chunk_process.v:97-122 | while loading, the window collects the words of the block |
| CoreRefinement.RoundTakesWord | sha256_chunk_compress.v:123-161 | while loading, each word taken stages its round |
| CoreRefinement.ProcessesWord | sha256.v:132-170 | rounds 17 to 64 run on schedule words, and whatever is on the data pins is ignored |
| CoreRefinement.FoldsBlock | sha256.v:69-76 | the edge that enters FINISH adds the 64 rounds to the hash value |
| CoreRefinement.Rests | sha256.v:132-170 | an idle or stalled cycle, and the cycle after a fold, change nothing that matters |
| CoreRefinement.StepRefines | sha256.v:67-178 | every clock edge outside reset keeps the refinement relation, with the word appended exactly if it was taken |
| CoreRefinement.CoreRefinesFips | sha256.v:67-178 | in every reachable state the core is where FIPS 180-4 says: counter bands, schedule window, staged round and hash value |
| CoreRefinement.HashValueInEveryState | sha256.v:67-178 | H8 is the hash of all complete blocks taken since reset, except the newest one in LOAD at 16 and in PROC |
| CoreTiming.ControllerAfterLoad | sha256.v:78-178 | state, counter and interrupt in each of the 50 cycles after a block is loaded |
| CoreTiming.BusyStates | sha256.v:76 | outside reset, busy means a loaded block, PROC or FINISH |
| CoreTiming.BusyRunsLastFiftyCycles | sha256.v:75-178 | every busy run without reset lasts exactly 50 cycles whatever the inputs, and the interrupt rises in the cycle after |
| CoreTiming.OnePulsePerBlock | sha256.v:172-178 | the interrupt pulses since reset equal the blocks folded in |
| NonInterference.AlikeStep | sha256_chunk_process.v:56-122 | states that differ only in leftovers stay so, and agree on busy and on what they take |
| NonInterference.BusyInputsDoNotMatter | sha256_chunk_process.v:95-122 | two runs that differ only in data and valid during busy cycles agree in every cycle on hash outputs and words taken |
| NonInterference.StallsDoNotMatter | sha256.v:67-178 | two runs that took the same words agree on the hash after each block, whatever their stalls |
| MakeChunk.Buffer.MakeChunk | bench/test_driver/src/main.rs:29-39 | the byte vector after push, resize and append, in place |
| MakeChunk.Buffer.Resize | bench/test_driver/src/main.rs:33-37 | Vec::resize appends zeros |
| MakeChunk.WholeBlocks | bench/test_driver/src/main.rs:29-39 | the padded length is always a multiple of 64 |
| PaddingBits.PaddingInBits | bench/test_driver/src/main.rs:29-39 | the padding that the messages below are compared with is section 5.1.1 in bits: the message, a 1 bit, the least number of 0 bits that fits, and the bit length in 64 bits |
| MakeChunk.MakeChunkIsFipsPadding | bench/test_driver/src/main.rs:29-39 | it is the padding of FIPS 180-4, section 5.1.1, if and only if the length is not 55 modulo 64 and the bit count fits usize |
| MakeChunk.OneBlockTooMany | bench/test_driver/src/main.rs:32-37 | for lengths 55 modulo 64 the result is one block longer |
| MakeChunk.NumberRoundTrip | bench/test_driver/src/main.rs:38 | the big-endian length field can be read back |
| MakeChunk.MessageRecoverable | bench/test_driver/src/main.rs:29-39 | every message can be read back from the length field together with the padded length, those whose bit count overflows included |
| MakeChunk.PaddingIsInjective | bench/test_driver/src/main.rs:29-39 | different messages are padded differently, with no bound on their length |
| MakeChunk.FieldSuffices | bench/test_driver/src/main.rs:30-38 | a reader that takes the length field at face value gets the message if and only if the bit count fits usize |
| EndToEnd.SwapParses | sha256.v:77 | swapping little-endian bus words gives the big-endian parsing of section 5.2.1 |
| EndToEnd.SwapPrints | sha256_chunk_compress.v:109-121 | reading the eight swapped hash registers as little-endian words gives the digest bytes |
| EndToEnd.BytesAreHashed | sha256.v:27-181 | any whole blocks of bytes sent, with any stalls, are hashed |
| EndToEnd.DigestOfMessage | bench/test_driver/src/main.rs:29-39 | a message padded by make_chunk, sent and read back little-endian, gives exactly its SHA-256 digest |
| EndToEnd.SendDelivers | sha256.v:132-170 | a driver that waits out the busy cycles delivers every word, and the core is ready again after each block |
| EndToEnd.DriverHashesMessage | sha256.v:27-181 | such a driver obtains the digest in 66 cycles a block |
| AxiBurst.CursorAtBeat | sha256_full_v1_0_S00_AXI.v:269-320 | beat k has the k-th iterate of the address logic, and the counter names the last beat, for every length up to 256; BurstFollowsAxi says what that address is |
| AxiBurst.BurstFollowsAxi | sha256_full_v1_0_S00_AXI.v:285-318 | for every start, length and beat: FIXED stays at the start, INCR is at the aligned start plus four bytes a beat, a legal WRAP is where section A3.4.1 of ARM IHI 0022 puts it |
| AxiBurst.FixedStays | sha256_full_v1_0_S00_AXI.v:290-295 | a FIXED burst never leaves its start address |
| AxiBurst.IncrCounts | sha256_full_v1_0_S00_AXI.v:296-303 | after its first beat an INCR burst is at the word of its start plus the beat number, for every length |
| AxiBurst.ReservedSettles | sha256_full_v1_0_S00_AXI.v:313-317 | a burst of the reserved type goes down by quarters and is at address 1 from its sixth beat on |
| AxiBurst.WrapFollowsAxi | sha256_full_v1_0_S00_AXI.v:230-233 | the mask of four times the length field gives the wrapping addresses of section A3.4.1 of ARM IHI 0022, at every beat |
| AxiBurst.WrapVisitsEachWordOnce | sha256_full_v1_0_S00_AXI.v:285-318 | the beat addresses of the slave stay in the aligned window, and each word of it is visited by exactly one beat |
| AxiFull.WriteSide.Tick | sha256_full_v1_0_S00_AXI.v:241-371 | one edge of the write channels, all blocks sampled before it |
| AxiFull.ReadSide.Tick | sha256_full_v1_0_S00_AXI.v:380-493 | one edge of the read channels |
| AxiFull.Slave.Tick | sha256_full_v1_0_S00_AXI.v:217-608 | one cycle of the whole slave with the core inside, all nets taken before the edge |
| AxiFullWrite.FeedbackHasOneSolution | sha256_full_v1_0_S00_AXI.v:513-521 | the loop busy, WREADY, data valid, core has exactly one consistent value |
| AxiFullWrite.CoreAbsorbsDataBeats | sha256_full_v1_0_S00_AXI.v:513-547 | over every run the words the core absorbs are the accepted beats at 0x40 to 0x7f since its last reset, in order, once each |
| AxiFullWrite.AfterStatusBeat | sha256_full_v1_0_S00_AXI.v:285-318 | no burst mode leads from the status register into the data window in one beat |
| AxiFullWrite.WriteInvAlways | sha256_full_v1_0_S00_AXI.v:241-342 | in every reachable state WREADY implies an open burst, and a soft reset excludes an open data beat |
| AxiFullWrite.EveryDataBeatIsTaken | sha256_full_v1_0_S00_AXI.v:513-547 | outside bus reset every accepted data beat is taken by the core: none falls into a soft-reset cycle |
| AxiFullWrite.HashOfDataBeats | sha256_full_v1_0_S00_AXI.v:513-547 | the hash value in every reachable state, as a function of the data beats |
| AxiFullWrite.DigestOverBursts | sha256_full_v1_0_S00_AXI.v:513-579 | a padded message written in bursts of any kind is hashed |
| AxiFullBursts.BurstOpens | sha256_full_v1_0_S00_AXI.v:241-285 | taking over the write address opens the burst at beat 0 |
| AxiFullBursts.BurstBeats | sha256_full_v1_0_S00_AXI.v:241-342 | for any stalls, beat k of a write burst goes to its k-th address (WriteFollowsAxi says which), the burst stays open until its last beat and is closed by it |
| AxiFullBursts.SixteenBeatsStayExactly | sha256_full_v1_0_S00_AXI.v:285-318 | a burst of sixteen beats stays in the data window if and only if it is FIXED or WRAP from an address of the window, or INCR from its first word |
| AxiFullBursts.BurstIsAbsorbed | sha256_full_v1_0_S00_AXI.v:241-342 | once any burst whose beats all lie in the data window is open, of any length and type, the core absorbs the words of its beats one by one and in order |
| AxiFullBursts.ResponsesBalance | sha256_full_v1_0_S00_AXI.v:350-371 | finished bursts = responses taken + one waiting + those that met a waiting response, for every run |
| AxiFullBursts.SoftReset | sha256_full_v1_0_S00_AXI.v:513-547 | the soft reset returns the core to its initial state from any state, and lasts one cycle unless it is written again |
| AxiFullProgress.RemainingCounts | sha256.v:75-170 | without new words the busy cycles ahead of the core, at most 50, count down one by one, and the core is not busy at zero |
| AxiFullProgress.BackPressureEnds | sha256_full_v1_0_S00_AXI.v:217-342 | a beat offered to an open burst is accepted within two cycles after the core has finished |
| AxiFullProgress.BeatWaitsAtMost52Cycles | sha256_full_v1_0_S00_AXI.v:217-342 | in every reachable state with an open burst, a beat offered for 52 cycles is accepted |
| AxiFullRead.ReadInvAlways | sha256_full_v1_0_S00_AXI.v:404-493 | in every reachable state RVALID implies an open burst, and RLAST is high exactly with the last beat |
| AxiFullRead.BurstLength | sha256_full_v1_0_S00_AXI.v:380-493 | for every burst type, length and RREADY pattern exactly ARLEN + 1 beats are handed over, and none after them without a new address |
| AxiFullRead.BeatOnBus | sha256_full_v1_0_S00_AXI.v:404-589 | beat k is the register at the k-th burst address (ReadFollowsAxi says which) as sampled one cycle earlier, and RLAST marks exactly the last beat |
| AxiFullRead.SampledOneCycleBefore | sha256_full_v1_0_S00_AXI.v:549-589 | valid read data is what the register file held in the cycle before |
| AxiFullRead.BeatEveryOtherCycle | sha256_full_v1_0_S00_AXI.v:478-493 | with RREADY held high a beat takes two cycles |
| AxiFullRead.HashBurst | sha256_full_v1_0_S00_AXI.v:404-589 | an eight-beat burst from 0x20 reads the eight hash words in order |
| AxiFullDriver.DriveDelivers | sha256_full_v1_0_S00_AXI.v:217-342 | a master that opens sixteen-beat bursts at 0x40, holds each address until AWREADY and each word until WREADY, delivers any words, in at most 54 cycles a word; every valid and what goes with it stays until its handshake |
| AxiFullDriver.HashIsRead | sha256_full_v1_0_S00_AXI.v:380-589 | an open read of 0x20 with an idle core delivers its eight hash words in 16 cycles, with RLAST on the eighth |
| AxiFullDriver.BurstDriverReadsDigest | sha256_full_v1_0_S00_AXI.v:217-608 | from bus reset: the message padded and written in bursts, the eight beats read back are the bytes of its SHA-256 digest, and the master holds each of its offers until it is taken |
| AxiFullRegisters.WriteFollowsAxi | sha256_full_v1_0_S00_AXI.v:269-320 | beat k of a write burst of a defined type goes to the address that the protocol gives it |
| AxiFullRegisters.ReadFollowsAxi | sha256_full_v1_0_S00_AXI.v:404-589 | beat k of a read burst of a defined type shows the register at the address that the protocol gives it: status, hash word or zeros |
| AxiFullRegisters.CoreAbsorbsAccepted | sha256_full_v1_0_S00_AXI.v:513-547 | the core absorbs exactly the words whose WVALID and WREADY met at byte addresses 0x40 to 0x7f since the last bus or soft reset |
| AxiFullRegisters.OnlyDataWaits | sha256_full_v1_0_S00_AXI.v:515-520 | a beat outside the data window never waits for the core, one inside it waits exactly while the core is busy |
| AxiFullRegisters.BusReset | sha256_full_v1_0_S00_AXI.v:241-608 | the bus reset clears every register; the bus reset and the soft reset each take the core back to its initial state; without them it runs on the accepted words |
| AxiFullRegisters.StatusInEveryState | sha256_full_v1_0_S00_AXI.v:523-547 | in every reachable state bit 1 is what was last written to it; bit 8 shows whether the core was busy in the cycle before, and all other bits last one cycle |
| AxiFullRegisters.ReadyPulses | sha256_full_v1_0_S00_AXI.v:241-285 | in every run AWREADY and ARREADY are one-cycle answers to an address that is on the bus while no burst is open, and load that address |
| AxiFullRegisters.OneBurstAtATime | sha256_full_v1_0_S00_AXI.v:247-251 | a write and a read burst are open together only if both opened in the same cycle |
| RegisterMap.StatusBit | sha256_full_v1_0_S00_AXI.v:523-547 | bit n of the status register after a cycle, for any write |
| RegisterMap.MuxReads | sha256_full_v1_0_S00_AXI.v:553-579 | bytes 0 to 3 read the status register, 0x20 to 0x3f the hash words in order, all others zero |
| AxiFullStall.StallIsStableExactly | sha256_full_v1_0_S00_AXI.v:549-589 | RDATA is stable over a stall of any length if and only if no cycle of it disturbs the register at the address: for a hash word, a block that ends with a nonzero working variable or the start of a soft reset over another value; for the status register, a write that brings something new, a change of busy or a bit that clears itself; elsewhere nothing |
| AxiFullStall.HashKeptExactly | sha256_full_v1_0_S00_AXI.v:549-589 | one cycle leaves a hash word as it was exactly under that condition on the cycle |
| AxiFullStall.StatusKeptExactly | sha256_full_v1_0_S00_AXI.v:523-547 | one cycle leaves the status register as it was exactly under that condition on the cycle |
| AxiFullStall.HashStaysWhileNoBlockEnds | sha256_full_v1_0_S00_AXI.v:549-589 | a hash word is stable over any stall in which no block ends and no soft reset is written |
| AxiFullStall.UnmappedStays | sha256_full_v1_0_S00_AXI.v:549-589 | an address without a register reads the same throughout any stall |
| AxiFullRead.StalledDataCanChange | sha256_full_v1_0_S00_AXI.v:549-589 | a reachable run in which RDATA changes under RVALID |
| AxiLite.WriteSide.Tick | sha256_axi_v1_0_S00_AXI.v:150-303 | one edge of the write handshake registers |
| AxiLite.Slave.Tick | sha256_axi_v1_0_S00_AXI.v:150-434 | one cycle of the write side with the status register and the core |
| AxiLite.HandshakeAlways | sha256_axi_v1_0_S00_AXI.v:150-303 | awready = wready always, and aw_en excludes both a grant and a waiting response, for every master |
| AxiLite.WritesAreAnswered | sha256_axi_v1_0_S00_AXI.v:220-303 | register writes = responses taken + one waiting, for every master and every run |
| AxiLite.EnabledExactly | sha256_axi_v1_0_S00_AXI.v:150-172 | aw_en holds if and only if nothing is under way and no master ever let go of a valid in the grant cycle; otherwise the slave is blocked until reset |
| AxiLite.HoldingIsEnough | sha256_axi_v1_0_S00_AXI.v:150-211 | a master that holds its valids never blocks the slave |
| AxiLite.SoftResetOnce | sha256_axi_v1_0_S00_AXI.v:222-415 | a soft reset returns the core to its initial state, lasts exactly one cycle, and no write falls into it |
| AxiLite.CoreRuns | sha256_axi_v1_0_S00_AXI.v:409-415 | the core inside the slave runs as the core alone on the pins it is given |
| AxiLite.BusyWritesAreDropped | sha256_axi_v1_0_S00_AXI.v:409-415 | words absorbed + writes to a busy core = words written; nothing is lost if and only if no write met a busy core |
| AxiLite.LatchedAddress | sha256_axi_v1_0_S00_AXI.v:174-188 | for a master that holds its address, a write goes to the AWADDR of its handshake |
| AxiLite.WritesGoWhereAddressed | sha256_axi_v1_0_S00_AXI.v:409-415 | from the pins of such a master: the words written are those whose AWADDR lay in 0x40 to 0x7f, and the core absorbs exactly those of them that found it ready, in order |
| AxiLite.BusReset | sha256_axi_v1_0_S00_AXI.v:151-216 | the bus reset takes every register and the core back to its initial state |
| AxiLite.EnableIsKept | sha256_axi_v1_0_S00_AXI.v:231-271 | in every reachable state bit 1 of the status register is what was last written to it |
| AxiStream.CoreAbsorbsTransfers | sha256_stream_v1_0.v:127-149 | the words absorbed are the TVALID and TREADY transfers since the last soft reset, register bus reset or stream reset, in order, once each |
| AxiStream.ResetCycleLosesBeat | sha256_stream_v1_0_S00_AXIS.v:40-42 | the core takes a transfer if and only if none of the three resets is active; in a reset cycle TREADY is high all the same |
| AxiStream.AnyResetResetsCore | sha256_stream_v1_0.v:128-129 | the soft reset and both bus resets each take the core back to its initial state from any state; without them it runs on the beat |
| AxiStream.SoftReset | sha256_stream_v1_0.v:128-130 | the soft reset lasts one cycle unless it is written again, and only the register bus reset clears the register |
| AxiStream.EnableIsKept | sha256_stream_v1_0.v:130 | in every reachable state bit 1 of the status register is what was last written to it, and bit 8 shows that TREADY was low |
| AxiStream.DigestOverStream | sha256_stream_v1_0.v:127-149 | a padded message sent as stream beats is hashed |
| AxiStream.WaitingBeatsDoNotMatter | sha256_stream_v1_0_S00_AXIS.v:40-42 | what waits on the stream while TREADY is low cannot be observed, although valid is not gated |
| PageMap.FindTwins | bench/pcie_linux_driver/hsha256.c:208-215 | finds neighbouring pages that are the same page |
| PageMap.FillTable | bench/pcie_linux_driver/hsha256.c:217-232 | the mapping loop covers the buffer byte for byte if its length fits 32 bits, and leaves a rest otherwise |
| PageMap.MapUserBuf | bench/pcie_linux_driver/hsha256.c:165-240 | succeeds if and only if there is a page, the kernel pinned all of them without neighbouring twins, and the length fits 32 bits; the errno otherwise |
| PageMap.NoPages | bench/pcie_linux_driver/hsha256.c:171-178 | the page count is zero exactly for an empty buffer at a page boundary |
| SwDesc.CutsKeepBytes | bench/pcie_linux_driver/libxdma.c:3112-3131 | cutting into bounded descriptors neither loses, repeats nor reorders a byte |
| SwDesc.EnoughSetAside | bench/pcie_linux_driver/libxdma.c:3067-3136 | the second loop stays inside the memory asked for if and only if the surplus of the first loop pays for the entries whose 32-bit sum wraps and for every wrap of the 32-bit size |
| SwDesc.FitsExactly | bench/pcie_linux_driver/libxdma.c:3067-3136 | without empty entries: if and only if the surplus pays for the wrapped sums and neither count nor size wraps; the error return after the loop is then never taken |
| SwDesc.OneEntryEnough | bench/pcie_linux_driver/libxdma.c:3067-3106 | a single entry fits exactly when neither its 32-bit sum nor the size wraps |
| SwDesc.CountWraps | bench/pcie_linux_driver/libxdma.c:3094-3107 | limit 1, one entry of 2^32 - 1 bytes: no sum wraps, the 32-bit count is 0 |
| SwDesc.SizeWraps | bench/pcie_linux_driver/libxdma.c:3067-3076 | limit 1, 65536 single pages: the size of the allocation wraps |
| SwDesc.CountSpans | bench/pcie_linux_driver/libxdma.c:3094-3107 | the counting loop, modulo 2^32 |
| SwDesc.CutEntry | bench/pcie_linux_driver/libxdma.c:3118-3130 | the inner loop writes the pieces of one entry, never past the end of the array |
| SwDesc.InitRequest | bench/pcie_linux_driver/libxdma.c:3067-3144 | whenever the second loop stays inside its memory, the request holds the same bytes in order and the sum of the lengths modulo 2^32; the error return is taken exactly when the count exceeds the 32-bit signed max |
| DescControl.ControlFields | bench/pcie_linux_driver/libxdma.c:2324-2350 | magic number, adjacent count and stop bit of a finished control word can be read back |
| DescControl.FinishedWord | bench/pcie_linux_driver/libxdma.c:2324-2350 | the whole control word: magic number, adjacent count, and 0x13 in the low byte of the last one |
| DescRing.Engine.DescInit | bench/pcie_linux_driver/libxdma.c:2258-2285 | the window becomes a terminated linked list and nothing else in the ring changes |
| DescRing.Engine.Build | bench/pcie_linux_driver/libxdma.c:2915-2950 | addresses, lengths and endpoint addresses, consecutive or constant by mode |
| DescRing.Engine.FillAdjacent | bench/pcie_linux_driver/libxdma.c:3018-3025 | the adjacent count of every descriptor |
| DescRing.Engine.TransferInit | bench/pcie_linux_driver/libxdma.c:2952-3029 | the next window holds the chain for the next software descriptors, is not empty, does not cross the ring end, and nothing else changes |
| DescRing.Engine.Submit | bench/pcie_linux_driver/libxdma.c:3885-3943 | with any calls of other loops in between, the transfers take the request in order, only the last one is marked, and each chain is in the ring when it has been built; without such calls the transfers also follow each other in the ring |
| DescRing.Engine.TransferDestroy | bench/pcie_linux_driver/libxdma.c:2898-2902 | the slots of the transfer are zeroed, all others stay |
| DescRing.Engine.XferCompletion | bench/pcie_linux_driver/libxdma.c:3719-3783 | the callback zeroes the slots of the transfers of a request in order, up to and including the first failed one, and gives their descriptors back |
| DescRing.Engine.SubmitAndWait | bench/pcie_linux_driver/libxdma.c:3533-3662 | the blocking loop, with any calls of other loops in between: each chain is in the ring when it has been built, the request is taken in order up to the first failure, the bytes of the completed transfers are counted, and without such calls the ring is then as before but for the zeroed windows, with desc_used as before |
| DescRing.ChainSurvivesClearing | bench/pcie_linux_driver/libxdma.c:2359-2362 | a chain survives the clearing of windows that have no slot in common with it |
| DescRing.EpContinues | bench/pcie_linux_driver/libxdma.c:2934-2936 | the endpoint address carries over from one transfer to the next |
| DescRing.ChainSurvives | bench/pcie_linux_driver/libxdma.c:2970-3016 | a chain survives writes to a window that has no slot in common with it |
| ChainWalk.BlockStaysInWindow | bench/pcie_linux_driver/libxdma.c:642-658 | the adjacent count never leads a block out of its aligned window of 64 descriptors |
| ChainWalk.ChainSlot | bench/pcie_linux_driver/libxdma.c:2987-3025 | what the engine finds in each slot of a chain: only the last one stops it, the others lead on |
| ChainWalk.ChainFlags | bench/pcie_linux_driver/libxdma.c:3001-3004 | in the low byte of the control words of a chain, bits 0, 1 and 4 (STOPPED, COMPLETED, EOP) are set in the last one and no bit in the others |
| ChainWalk.NextAdjIsLargest | bench/pcie_linux_driver/libxdma.c:642-658 | the adjacent count is the largest that keeps the block among the remaining descriptors and within its aligned window |
| ChainWalk.WalkFollowsChain | bench/pcie_linux_driver/libxdma.c:642-658 | from the address and count written by engine_start the engine fetches every descriptor once, in order, within windows, and stops after the last |
| RingWindows.TwoTransfersSuffice | bench/pcie_linux_driver/libxdma.h:479-480 | a submit loop that no other one interrupts makes at most two transfers if and only if the request has at most twice the ring size less the ring index |
| RingWindows.TwoSufficeInterrupted | bench/pcie_linux_driver/libxdma.h:479-480 | whatever calls of other loops fall between its own, it makes at most two if and only if the request leaves at most one descriptor over at the end of the ring |
| RingWindows.ChainsApartExactly | bench/pcie_linux_driver/libxdma.c:2985-3016 | an uninterrupted loop keeps the chains of a request apart if and only if the request has no more descriptors than the ring |
| RingWindows.ApartInterrupted | bench/pcie_linux_driver/libxdma.c:2985-3016 | whatever calls of other loops fall in between, the chains lie apart if and only if the request fits the end of the ring |
| RingWindows.LongRequestsOverlap | bench/pcie_linux_driver/libxdma.c:2985-3016 | a request longer than the ring has two chains that share a slot, wherever its transfers lie |
| RingWindows.SomeRunGives | bench/pcie_linux_driver/libxdma.c:3885-3943 | every sequence of transfers that takes the request, at whatever ring indices, comes from some interleaving of transfer_init calls |
| RingWindows.RunTakesAll | bench/pcie_linux_driver/libxdma.c:3885-3943 | and every interleaving gives such a sequence |
| RingWindows.InterruptedRun | bench/pcie_linux_driver/libxdma.c:3885-3943 | the run in which a request of three descriptors gets three transfers on a ring of 2048, the first two in the same slot |
| RingWindows.RingAllocation | bench/pcie_linux_driver/libxdma.c:2956-3016 | over any run of allocations windows are not empty and do not cross the end, and two have no slot in common while what was handed out between them fits the ring |
| RingWindows.LiveChainStands | bench/pcie_linux_driver/libxdma.c:2956-3016 | transfer_init alone leaves a chain as built until the ring has been handed out once around; clearing is not part of this statement |
| DmaPath.EngineRunsChain | bench/pcie_linux_driver/libxdma.c:738-748 | started on a transfer, the engine executes exactly its chain |
| DmaPath.RequestMoves | bench/pcie_linux_driver/libxdma.c:3885-3943 | for requests of any length and transfers anywhere in the ring: each chain standing when its turn comes, the engine works off the software descriptors in order, once each |
| DmaPath.EndpointAddresses | bench/pcie_linux_driver/libxdma.c:2934-2936 | endpoint bytes are consecutive in incremental mode; in the other mode every descriptor starts at the first address |
| DmaPath.EndpointsTellApart | bench/pcie_linux_driver/libxdma.c:2934-2936 | in incremental mode no later descriptor reads like the first one |
| DmaPath.AllStandAtTheEnd | bench/pcie_linux_driver/libxdma.c:3885-3943 | after an uninterrupted loop over a request whose later descriptors differ from the first, all its chains stand if and only if the request fits the ring |
| DmaPath.BufferIsMoved | bench/pcie_linux_driver/hsha256.c:165-240 | from user buffer to executed descriptors: every byte once and in order, if each chain stands when its turn comes |
| DmaPath.BufferIsMovedChainByChain | bench/pcie_linux_driver/libxdma.c:3520-3662 | for any buffer under 4 GiB: chains that are built and executed one by one, whatever happens to the ring between one execution and the next build, move every byte once and in order |
| DmaPath.SubmitBuffer | bench/pcie_linux_driver/libxdma.c:3520-3675 | the blocking path in order, from the user buffer to the cleared ring, given a DMA mapping that keeps the bytes and fits a request: if the pages cannot be mapped, the error of MapUserBuf; if no transfer fails, len, with every byte moved once and in order; otherwise the count n > 0 of the bytes that were moved before the failure, which are the first n of the buffer, or EIO if none were |
| EngineService.Engine.StartEngine | bench/pcie_linux_driver/libxdma.c:676-772 | an idle engine with work starts and resets its dequeued count |
| EngineService.Engine.TransferQueue | bench/pcie_linux_driver/libxdma.c:2444-2521 | the transfer is marked submitted, goes to the tail, and starts an idle engine |
| EngineService.Engine.Complete | bench/pcie_linux_driver/libxdma.c:798-821 | the head leaves the queue with its state, and a last transfer calls back |
| EngineService.Engine.ServiceTransferList | bench/pcie_linux_driver/libxdma.c:823-880 | the loop over completed transfers, on the transfer objects |
| EngineService.Engine.ServiceFinalTransfer | bench/pcie_linux_driver/libxdma.c:913-1019 | the transfer the engine stopped on: error, half-way or completed |
| EngineService.Engine.ServiceResume | bench/pcie_linux_driver/libxdma.c:1051-1085 | restart with work left, stop without |
| EngineService.Engine.ServiceEngine | bench/pcie_linux_driver/libxdma.c:1095-1201 | the whole service call |
| EngineService.ServeFinishesPrefix | bench/pcie_linux_driver/libxdma.c:823-1019 | without an error, exactly the shortest prefix with enough descriptors is finished; all but the last COMPLETED, the last FAILED with the remainder if the engine stopped within it; desc_dequeued grows by its total |
| EngineService.ServiceFinishes | bench/pcie_linux_driver/libxdma.c:1095-1201 | a call on a running engine with a nonzero count, from its inputs to the whole new state: which count is used, what is new modulo 2^32, how many transfers are finished and how each ends, status errors included, which requests are called back, what is counted as dequeued, and when the engine runs on |
| EngineService.ServiceFinishesNone | bench/pcie_linux_driver/libxdma.c:1095-1160 | without a count, or on a stopped engine, nothing is finished; an engine that is not busy stops |
| EngineService.ErrorFailsOne | bench/pcie_linux_driver/libxdma.c:882-944 | a status error: the transfers before the one that the engine stopped on are COMPLETED, that one is FAILED and not counted as dequeued |
| EngineService.RetireKeepsBooks | bench/pcie_linux_driver/libxdma.c:798-821 | the books balance at every callback, not only between calls |
| EngineService.FirstInFirstOut | bench/pcie_linux_driver/libxdma.c:823-1019 | over any interleaving of queueing and servicing, errors included, submitted = finished then queued, in order, and callbacks match finished last transfers |
| EngineService.SubmitLoopsMarkTheLast | bench/pcie_linux_driver/libxdma.c:3915-3920 | in any interleaving of submit loops no transfer of a request is handed in after its last one |
| EngineService.CallbackMeansFinished | bench/pcie_linux_driver/libxdma.c:798-821 | once io_done fired for a request, none of its transfers is still submitted |
| EngineService.ServiceRunsIffQueued | bench/pcie_linux_driver/libxdma.c:1095-1201 | a service call keeps running-iff-queued if and only if it did not stop an idle engine and read a count of zero |
| EngineService.EngineRunsIffQueued | bench/pcie_linux_driver/libxdma.c:2495-2514 | over any interleaving the engine runs if and only if its queue is not empty, but exactly when some service call stopped it and read a count of zero and nothing was handed in since |
| EngineService.StrandedQueue | bench/pcie_linux_driver/libxdma.c:1124-1160 | the run in which the queue is stranded |
| EngineService.ServiceOnlyAdds | bench/pcie_linux_driver/libxdma.c:1095-1201 | a service call takes back nothing that is finished or called back |
| EngineService.OnlyHeadFinishes | bench/pcie_linux_driver/libxdma.c:849-850 | if the hardware counts only the descriptors of the transfer it was started on, no other one is finished |
| EngineRing.AddsIsWritten | bench/pcie_linux_driver/libxdma.c:2952-3029 | one event of the runs below does to the ring what transfer_init does |
| EngineRing.OrderAlways | bench/pcie_linux_driver/libxdma.c:3915-3943 | over any interleaving of submit loops of both kinds, transfer_init, transfer_queue, engine_service and transfer_destroy: the transfers of each request take its descriptors in order and are queued in that order, and what was queued is what is finished followed by the queue |
| EngineRuns.CalledBackIsDone | bench/pcie_linux_driver/libxdma.c:816-818 | in such a run a request is called back only when all its transfers are finished, so the callback clears no transfer that is still submitted |
| EngineRuns.RoomIsExact | bench/pcie_linux_driver/libxdma.c:2979-3016 | a new chain has no slot in common with any chain whose slots the driver has still to clear if and only if, from the oldest of those to its own end, no more than the ring is handed out |
| EngineRuns.UnfinishedStand | bench/pcie_linux_driver/libxdma.c:2898-3029 | over any interleaving in which every new chain finds room, the clearing by callbacks and by blocking loops included, every unfinished chain stands as built |
| EngineRuns.EngineStartsOnItsChain | bench/pcie_linux_driver/libxdma.c:676-772 | in every such run, whenever there is work the engine executes for the head of the queue exactly the chain that was built for it |
| EngineRuns.RequestIsWorkedOff | bench/pcie_linux_driver/libxdma.c:823-1019 | in every such run and for every request without a failed transfer, what was executed for it is its software descriptors in order, once each, as far as its transfers are finished |
| EngineRuns.ErrorFailsRequest | bench/pcie_linux_driver/libxdma.c:906-944 | a service call that finds a status error makes the request of an unfinished transfer count as failed for the rest of the run |
| EngineRuns.CallbackClearsToFailure | bench/pcie_linux_driver/libxdma.c:3719-3783 | in such a run a callback clears the transfers of its request up to and including the first one that failed, and no others |
| EngineRuns.FailureEndsLoop | bench/pcie_linux_driver/libxdma.c:3533-3662 | in every run, once a chain of a blocking request has failed nothing more is built or queued for it and its loop ends with destroying that chain; a blocking loop is broken off in no other case |
| EngineRuns.BufferIsMovedAmongOthers | bench/pcie_linux_driver/libxdma.c:3885-3943 | in every such run, when the request of a buffer is over and none of its transfers failed, every byte of the buffer has been moved once and in order |
| RingHazards.WithoutRoom | bench/pcie_linux_driver/libxdma.c:3885-3943 | the run, for every ring size, in which the engine moves the second of two requests when it should move the first |
| RingHazards.FinishedIsNotFree | bench/pcie_linux_driver/libxdma.c:3719-3783 | the run, for every ring size from 2 on, in which every new chain finds room next to the unfinished ones and yet the callback of an earlier request zeroes part of the chain on which the engine is then started |

## Left out

- MakeChunk.Buffer.MakeChunk: models the build that lets `usize` wrap; a build with overflow checks stops on messages of 512 MiB and more.
- EndToEnd.DigestOfMessage: claims nothing for messages outside `Conforms`, where another byte string is hashed.
- AxiFullBursts.BurstBeats: assumes that the master raises WLAST with the last beat and with no other; a WLAST without WVALID closes the burst early in the code, which the model of the slave shows but no theorem covers.
- AxiFullRead.BeatOnBus: gives the sampling one cycle before the beat, not at the rise of RVALID, because the code keeps sampling.
- AxiBurst.BurstFollowsAxi: claims nothing of WRAP bursts that the protocol does not allow (other lengths than 2, 4, 8 or 16 beats, or an unaligned start), but for SixteenBeatsStayExactly.
- AxiStream.ResetCycleLosesBeat: the register slave of the stream front (`sha256_stream_v1_0_S00_AXI.v`) contributes only the writes it accepts, as inputs.
- PageMap.MapUserBuf: memory allocation and page pinning are inputs, pages have 4 KiB; unmapping after an error is not modelled.
- SwDesc.InitRequest: where the table does not fit, the second loop of the code writes outside its memory, which has no meaning in the model; the allocation succeeds, `desc_blen_max` is from 1 to 2^28 - 1, and the number of entries is a non-negative int.
- DmaPath.BufferIsMoved: DMA mapping is any mapping that keeps the bytes of every page together; merging of neighbouring entries is allowed. Nothing is claimed of a chain that is overwritten before the engine has executed it.
- RingWindows.TwoTransfersSuffice: for a loop that no other one interrupts, as are ChainsApartExactly and DmaPath.AllStandAtTheEnd; the results without that are TwoSufficeInterrupted, ApartInterrupted, LongRequestsOverlap and EngineRuns.UnfinishedStand.
- RingWindows.LiveChainStands: knows the writes of transfer_init only; EngineRuns.UnfinishedStand is the result with clearing.
- DmaPath.SubmitBuffer: each chain is executed in the ring that it leaves when it has been built; what the wait finds, completed or failed, is an input. Time-outs, which abort the engine, are left out.
- EngineRuns.EngineStartsOnItsChain: assumes room for every new chain, which the code does not check; a shut-down or offline device, which refuses transfers, and time-outs are left out. Zeroing a window is one step. More blocking loops may be under way at once than desc_lock allows.
- EngineRuns.RequestIsWorkedOff: a transfer that the service call marks COMPLETED was executed by the hardware; one that FAILED counts as not executed, so nothing is claimed of its request.
- DmaPath.EndpointAddresses: for endpoint ranges below 2^64.
- EngineService.ServeFinishesPrefix: for at least one newly completed descriptor and no status error; ServiceFinishes has neither limit. eop_flush and cyclic transfers are not modelled.
- The resets of the pipelines are asynchronous in the source. The model shows the reset values during the whole reset cycle, which is what the clocked logic and the outputs see.
- AXI identifiers, response codes, user signals and protection bits: constants or copies.
- The read channel of the AXI4-Lite slave, and the interrupt gate `irq_hash_finish`.
- `xdma_xfer_aperture`, performance and cyclic transfers, C2H streaming results, poll-mode threads, abort and shutdown requests.
- PCI probing, BARs, interrupts set-up, character devices, the Zynq driver, test benches.
- Clock domains, unknown values and timing.
