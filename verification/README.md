# The ChibiChip audio bootloader, modelled and verified in Dafny

The bootloader of the Love to Code ChibiChip receives programs as sound.  ADC samples are double-buffered
by an interrupt, correlated and sliced, clocked into bits by a phase-locked loop, framed by a MAC layer, and
handed one packet at a time to an updater that programs flash.  Power may fail at any moment, packets may be
repeated, reordered or corrupted, and the updater must always be able to pick up where it was.

The project models that whole pipeline and proves what it is for.

| file | what it models |
|---|---|
| `Bytes.dfy` | bytes, little-endian words, erased ranges |
| `Murmur3.dfy` | MurmurHash3 x86_32, its published values, its rounds as bijections, the corruption it always detects |
| `Flash.dfy` | the flash controller commands and the two routines that issue them |
| `Protocol.dfy` | packets, the storage header, what one packet makes the updater do, and runs of packets, power cuts and resets |
| `Updater.dfy` | the updater object, proved against `Protocol` |
| `Cuts.dfy` | byte for byte, the flash left by a power cut after any prefix of the commands for one packet |
| `Safety.dfy` | invariants of the flash over all runs |
| `Wear.dfy` | how the flash is treated over all runs: no command leaves storage or programs over a cleared bit; when a byte is programmed once per erase |
| `Convergence.dfy` | where a transmission ends, exactly when it settles, order independence, progress, rejected corruption |
| `Sender.dfy` | the packets a sender makes for an image, accepted and read back by the receiver |
| `RogueBlocks.dfy` | the runs on which an unchecked block number breaks two of the invariants, and the exact condition |
| `Rejections.dfy` | what the updater turns away, what stops it, and what its error codes mean |
| `Mac.dfy`, `Frame.dfy` | the bit-level framing machine; striping, framing and the round trip through the machine |
| `Correlator.dfy`, `Pll.dfy`, `Demod.dfy` | fixed-point correlators, the baud PLL and its lock theorem, the demodulator object with its sliding window |
| `Reception.dfy` | the framer's rejections: nothing but a whole frame is ever reported |
| `BitRate.dfy` | the pilot-tone counter and timer that switch between the two bit rates |
| `Analog.dfy` | the double-buffered sample line and its consumer, interleaved: what is delivered, in time or not |
| `Pipeline.dfy` | the main loop over all of them, and the safety of its one-packet mailbox |
| `EndToEnd.dfy` | the layers composed: interrupt, main loop, clock, framing and updater, from samples to flash |
| `LoopRuns.dfy` | the main loop over time: the bit-rate switch over many halves, and polling |
| `Random.dfy` | the bounded random numbers of the Arduino layer |

Code that works in place is modelled by classes with arrays, fields and loops (`Flash.Controller`,
`Updater.Updater`, `Mac.MacFramer`, `Demod.Demodulator`, `Pipeline.Bootloader`, `Analog.Sampler`,
`Random.Generator`).  Each method is proved equal to a specification function, and the results are lemmas
about those functions over every input and every run.

## Assumptions

- A flash command (one sector erase, one word program) is atomic and succeeds, or power dies before it.  Both
  verification loops of `flashProgram` overwrite `ret` on every turn (orchard/flash.c:171-189), so earlier
  failures are lost in the code itself; low-level and margin errors are therefore not modelled.
- Storage is the ten sectors from 0x5800 to the end of flash, with the application header 0x100 bytes in
  (os/common/ports/ARMCMx/compilers/GCC/ld/KL02P20.ld:23-42).
- A load past the end of flash faults, and the fault handler never returns (orchard/esplanade_app.h:12).  With
  that, the safety results need no assumption on the block number or length a packet carries: block numbers and
  lengths that make the updater read past the end of flash are part of the model.
- `chThdExit` and `errorCondition` do not return: the machine is then booted or halted.
- Every buffer passed to `flashProgram` is word-aligned, as the compiler lays them out.

Two results hold over runs whose valid data packets name safe blocks: those whose map entry lies in the header
page, and those so far out that loading the entry faults.  They are that map and region stay in step, and that
each byte is programmed at most once per erase.  The code checks no range, and for every other block number both
fail: `RogueBlocks.CouplingKeptExactly` and `RogueBlocks.OncePerEraseExactly` give the failing runs and prove the
condition exact, packet by packet.  Convergence needs no such assumption, but the updater tells programs apart by
guid alone: `Convergence.EveryTransmissionSettles` states exactly when a transmission settles, and
`Sender.ReusedGuidWaitsForEver` is a run on which it does not.

Where code and comments disagree the code is followed: packet types, header sizes and block numbering are those
of the structures and of the MAC, not those of the updater's opening comment
(orchard/esplanade_updater.c:44-57 against orchard/esplanade_mac.h:9-72).  The comment that the low bit rate is
selected "exactly once per proper preamble" (orchard/esplanade_demod.c:196-197) is not true of the code;
`BitRate.OncePerPilotExactly` says when it is.

## Model

| member | source | states |
|---|---|---|
| `Safety.CompleteImpliesHash` | orchard/esplanade_updater.c:282-302 | crash-safe completion: after every run of arbitrary packets, resets and power cuts between any two flash commands, a `complete` word that is not blank vouches for a stored program that hashes to the stored hash |
| `Safety.GuidIsCommitRecord` | orchard/esplanade_updater.c:115-130 | after every run, a stored guid that is not all 0xFF proves that magic, hash and length were all written whole from one valid control packet of that run, and that the guid is that packet's up to the word where power failed |
| `Safety.BlankEntryMeansBlankBlock` | orchard/esplanade_updater.c:240-271 | after every run over safe blocks, with a valid magic, a blank block map entry means that none of its block has been written |
| `Safety.BootedImpliesComplete` | orchard/esplanade_updater.c:282-312 | after every run, the updater has handed over to the application only if the program in flash is complete, matches its hash and has a valid application header |
| `RogueBlocks.CouplingKeptExactly` | orchard/esplanade_updater.c:240-263 | block numbers are not range-checked: a valid data packet can be added to any run over safe blocks, on any fresh device, without map and region getting out of step, if and only if its map entry lies in the header page or reading it faults |
| `RogueBlocks.OncePerEraseExactly` | orchard/esplanade_updater.c:240-263 | the same packets, and no others, can be added to every such run without any byte being programmed twice between two erases; for the rest a three-packet run programs one word twice |
| `Safety.BootloaderUntouched` | orchard/flash.c:87-98 | no run changes a byte below the storage area |
| `Safety.StepKeepsInv` | orchard/esplanade_updater.c:135-345 | one event of any kind keeps all of the above together, with a blank `complete` word while updating, a set one once updated, and a bootable program once booted |
| `Wear.EveryCommandGentle` | orchard/flash.c:151-175 | over every run, every command issued stays inside storage on a word boundary, and every program command finds its target bytes fully erased |
| `Wear.ProgrammedOncePerErase` | orchard/esplanade_updater.c:242-263 | over every run over safe blocks, across duplicates and power cuts, two programmings of the same byte have an erase of its sector between them |
| `Cuts.CutIdle` | orchard/esplanade_updater.c:164-191 | a power cut during a control packet leaves flash untouched, partly erased from the header's sector up, or erased with a prefix of that packet's header |
| `Cuts.CutUpdating` | orchard/esplanade_updater.c:207-323 | a power cut during a data packet leaves a marked block with a prefix of its payload, then at most the seal of a matching program or part of an erase |
| `Cuts.ProgramStoresOrRefuses` | orchard/flash.c:141-197 | although programming can only clear bits, a successful call leaves exactly the source at the destination and everything else alone; a refused call changes nothing |
| `Convergence.EveryTransmissionSettles` | orchard/esplanade_updater.c:147-340 | from the flash left by any run whatever, a reset and one clean transmission end booted from a region that matches its hash, with a matching program whose application header is invalid, or failed with storage erased, if and only if the flash does not hold an unfinished program of the same guid whose header asks for a block that is neither marked nor transmitted, or for more blocks than fit |
| `Convergence.NewProgramIsStoredExactly` | orchard/esplanade_updater.c:181-306 | from erased storage or any other program, a clean transmission stores exactly the sent image, seals it, and boots when the image has a valid application header |
| `Convergence.CleanStreamConcludes` | orchard/esplanade_updater.c:194-323 | on any flash under update the final contents are a function of the starting contents and the image alone: unmarked blank blocks hold the image, all others keep their content, and the result is sealed or erased according to its hash |
| `Convergence.OrderDoesNotMatter` | orchard/esplanade_updater.c:236-281 | on any flash under update, two clean streams for the same image, in any order and with any repeats and corrupt packets, leave the same flash and the same verdict |
| `Convergence.FillStep` | orchard/esplanade_updater.c:240-271 | from any filled state of any flash a genuine packet adds its block to the set already received, whether or not it was there; a block that is unmarked but not blank is marked and left alone |
| `Convergence.ProgressMeasure` | orchard/esplanade_updater.c:273-290 | while the update goes on, a valid packet of any block number removes exactly its own block from the outstanding set and nothing is ever added |
| `Convergence.OneWordCorruptionIsRejected` | orchard/esplanade_updater.c:219-234 | a valid data packet in which one aligned word is corrupted, the hash field included, is never accepted |
| `Rejections.ControlCorruptionIsRejected` | orchard/esplanade_updater.c:153-162 | a valid control packet in which one aligned word is corrupted, the hash field included, is never accepted |
| `Rejections.CorruptControlIgnored` | orchard/esplanade_updater.c:153-162 | an idle updater that receives a sent control packet with one word corrupted issues no flash command and stays idle |
| `Rejections.CorruptDataIgnored` | orchard/esplanade_updater.c:207-234 | under a valid header, a sent data packet with one word corrupted leaves flash and state alone |
| `Rejections.OtherTypesIgnored` | orchard/esplanade_updater.c:153-217 | idle ignores everything but control packets, updating everything but data packets |
| `Rejections.LostHeaderStartsOver` | orchard/esplanade_updater.c:194-206 | without the magic in flash, the next packet of an update erases storage and the updater is idle again |
| `Rejections.HaltsExactly` | orchard/esplanade_updater.c:236-340 | the machine stops on any packet after a failure, and on a valid data packet that takes it past the end of flash, and on nothing else |
| `Rejections.FailureIsFinal` | orchard/esplanade_updater.c:335-340 | after a failure no packets, however many, change the flash or the state |
| `Rejections.StatusTellsStored` | orchard/esplanade_updater.c:240-271 | for an unmarked block the status is success exactly when mark and payload have both been stored, and otherwise only the mark has |
| `Rejections.ErrorMeansNotStored` | orchard/esplanade_updater.c:240-345 | an error is reported only for a valid data packet whose payload could not be stored |
| `Rejections.BlocksCoverLength` | orchard/esplanade_updater.c:282-286 | the number of map entries scanned is the length divided by the block size, rounded up, and 2^24 for a length of zero |
| `Sender.DataPacketReads` | orchard/esplanade_mac.h:18-29 | a sent data packet passes the receiver's checks and gives back its block number and payload |
| `Bytes.LE16Value` | orchard/esplanade_mac.h:18-29 | the two bytes of a block number weigh 1 and 256 |
| `Sender.CtrlPacketReads` | orchard/esplanade_mac.h:32-52 | a sent control packet passes the receiver's checks and gives back length, program hash and guid |
| `Sender.EveryImageCanBeSent` | orchard/esplanade_mac.h:18-52 | every image that fits storage has packets that meet all that convergence asks of a transmission |
| `Sender.SentImageArrives` | orchard/esplanade_updater.c:147-306 | announcing an image under a new guid and sending its blocks once leaves exactly that image and guid in flash, sealed, and booted exactly when bytes 24 to 31 of the image are an application's signature |
| `Sender.SignatureIsValidity` | orchard/esplanade_app.c:134-139 | the application header is valid exactly when eight given bytes stand at offset 24 of the program |
| `Sender.ReusedGuidWaitsForEver` | orchard/esplanade_updater.c:167-179 | a fresh device that has seen a longer program announced under a guid never settles a clean transmission of a shorter one under the same guid |
| `Updater.Updater.PacketProcess` | orchard/esplanade_updater.c:135-345 | the in-place switch issues exactly the commands of the protocol function, in order, and reaches its state, power and error code |
| `Updater.Updater.CheckBlockMap` | orchard/esplanade_updater.c:282-286 | the scan tells whether all of the first n map entries are marked, and faults exactly when the n entries run past the end of flash |
| `Updater.Updater.ProgramBlock` | orchard/esplanade_updater.c:240-271 | mark before payload: the commands for a block are the map entry's word first, then the payload's words |
| `Flash.Controller.EraseSectors` | orchard/flash.c:77-128 | sectors are erased one by one from the lowest, or none at all when the range is refused |
| `Flash.ErasesExactly` | orchard/flash.c:77-128 | exactly the requested sectors are blank afterwards when all of them lie in storage, and nothing changes otherwise, wrapping sums included |
| `Flash.Controller.Program` | orchard/flash.c:141-197 | range, alignment and blank checks in that order, the range check on a 32-bit sum that may wrap around, then one word command after another upwards |
| `Flash.ProgramAcceptsExactly` | orchard/flash.c:153-169 | a call succeeds exactly when source, destination and count are word-aligned and the destination is erased and within storage, although the range is checked on a sum that wraps; every refusal has its reason |
| `Protocol.NeverFaulted` | orchard/esplanade_updater.c:254-300 | no address the updater passes to the flash routine makes that sum wrap |
| `Flash.Controller.BlankCheck` | orchard/flash.c:166-169 | the byte loop succeeds exactly on fully erased destinations |
| `Flash.WordRunEffect` | orchard/flash.c:171-175 | a word loop over erased cells cut after any number of words has stored exactly those words |
| `Flash.ProgrammingOnlyClears` | orchard/flash.c:164-175 | a programmed cell keeps only bits that were set before and are set in the data |
| `Flash.EraseRunEffect` | orchard/flash.c:102-123 | an erase loop cut after any number of sectors has blanked exactly those sectors |
| `Murmur3.MurmurHash3` | orchard/murmur3.c:74-126 | the negative-index word loop and the fall-through tail compute the little-endian fold of the whole input |
| `Murmur3.PublishedValues` | orchard/murmur3.c:74-126 | the function is MurmurHash3 x86_32: published values for one, two, three and four bytes |
| `Murmur3.PublishedGreeting` | orchard/murmur3.c:74-126 | the published value for "Hello, world!" under a seed: three words and a leftover byte |
| `Murmur3.TrailingZeroIsCaught` | orchard/murmur3.c:106-121 | the length counts: a zero byte added at the end always changes the hash, unless it completes a word |
| `Murmur3.TailBytes` | orchard/murmur3.c:106-116 | falling through the switch reads the leftover bytes as a little-endian number |
| `Murmur3.OneWordCorruptionIsCaught` | orchard/murmur3.c:90-126 | equal-length inputs that differ in at most one aligned word, or only in the leftover bytes, have equal hashes if and only if they are equal |
| `Murmur3.FoldSeparates` | orchard/murmur3.c:90-116 | one differing word separates the running state for good |
| `Murmur3.FMix32Bijective` | orchard/murmur3.c:48-57 | the finaliser has an inverse on 32 bits |
| `Murmur3.RoundInjective` | orchard/murmur3.c:92-100 | a round loses nothing: it is injective in the state and in the word absorbed |
| `Mac.MacFramer.PutBit` | orchard/esplanade_mac.c:41-171 | the in-place machine follows the step function, sync and packet buffers included; `Frame.ShortFrameReceived` and `Reception.ReportedWasFramed` say what that function accepts and what it does not |
| `Mac.MacStep` | orchard/esplanade_mac.c:41-171 | every step over every bit keeps bit position, sync count, packet length and read count in range, so no buffer index leaves its bounds; outside packets the buffer and its flag do not change |
| `Mac.Resynchronises` | orchard/esplanade_mac.c:67-171 | from every valid state, every stream of 22 + 264*8 bits has brought the machine back to idle |
| `Reception.ReportedWasFramed` | orchard/esplanade_mac.c:44-158 | nothing but a whole frame is reported: when the last of any bits makes the machine report a packet, the packet is of a known version and type and the bits just heard are exactly its frame, preamble and sync word included |
| `Reception.ForeignPacketDropped` | orchard/esplanade_mac.c:121-138 | a packet of another version or type is dropped with the first bit after its third byte |
| `Reception.FalseStartCounts` | orchard/esplanade_mac.c:80-87 | the eight zeros of a sync byte that turns out to be idle line count towards the next preamble |
| `Frame.ShortFrameReceived` | orchard/esplanade_mac.c:44-158 | a frame is received as soon as its zeros and those heard just before make 32 |
| `Frame.FrameRoundTrip` | orchard/esplanade_mac.c:44-158 | from any idle state, 32 zeros, the sync word and a striped packet of either version and type are received, the packet is reported on the very last bit and not before, and unstriping gives back every byte sent |
| `Frame.FeedFirstSync` | orchard/esplanade_mac.c:44-53 | the seeded byte register makes the frame's 33rd zero count as the low bit of the first sync byte |
| `Frame.ReceivedPacketActsAsSent` | orchard/main.c:112-177 | whatever stale bytes the buffer holds, the updater treats the received frame as it would the packet sent |
| `Frame.Unstripe` | orchard/main.c:112-135 | the in-place loop applies the stripe pattern to the data packet's body and to nothing else |
| `Frame.WireFormat` | orchard/main.c:112-135 | the wire format byte by byte: the xor constants of version 1 at positions 7 and 15 of every 16, those of version 2 by position modulo 3, header, hash and control packets in the clear |
| `Frame.StripeInvolution` | orchard/main.c:115-133 | striping is its own inverse and keeps version and type readable |
| `Pll.BitRecovery` | orchard/esplanade_demod.c:234-249 | if every transition lies within d of an ideal bit grid with 2d + adj below half a bit and the loop starts less than a slip away, every emitted bit is the next transmitted bit, and each transition brings the loop adj closer until it stays within d + adj |
| `Pll.LockAcquired` | orchard/esplanade_demod.c:239-243 | enough transitions, counted from the initial offset, lock the loop within d + adj |
| `Pll.Ledger` | orchard/esplanade_demod.c:234-249 | after any samples, phase and emitted bits together account for every increment and every correction, up and down |
| `Pll.BitCountBounds` | orchard/esplanade_demod.c:234-249 | upper and lower bounds on the number of bits, for any signal |
| `Pll.SteadySignal` | orchard/esplanade_demod.c:245-249 | on a constant signal the loop emits exactly the whole periods elapsed, all of that value |
| `Correlator.FskCore` | orchard/esplanade_demod.c:24-55 | the fused loop computes the difference of tone energies, above zero when only the high tone is heard and below when only the low one is |
| `Correlator.FskCoreSeparate` | orchard/esplanade_demod.c:57-105 | the four separate passes compute the same value, with the same sign |
| `Correlator.ToneDecides` | orchard/esplanade_demod.c:44-54 | the sign of the sum: one tone heard without the other decides it, and with neither it is zero |
| `Correlator.HighToneHeard` | orchard/dsptable_gen.c:32-40 | with the tables for the shipped tones, a window of the high tone gives 761412 |
| `Correlator.LowToneHeard` | orchard/dsptable_gen.c:32-40 | with the same tables, a window of the low tone gives -515715 |
| `Correlator.ComputeShift` | orchard/esplanade_demod.c:266-271 | the shift is the one with 2^(shift+1) <= size < 2^(shift+2) |
| `Correlator.PartialSumsFit` | orchard/esplanade_demod.c:37-42 | for every window size below 2^13, scaled 12-bit samples and coefficients up to 2^14, no partial correlation exceeds 2^27 |
| `Correlator.DiscriminantFits` | orchard/esplanade_demod.c:44-54 | every square and every partial sum of squares fits a signed 32-bit integer |
| `Demod.EveryDecisionFits` | orchard/esplanade_demod.c:157-169 | whatever 12-bit samples have been received, the discriminant of the current window fits 32 bits |
| `LoopRuns.ConverterFits` | orchard/main.c:101-104 | centring takes every 12-bit converter value to where no decision overflows 32 bits |
| `Demod.DecisionAt` | orchard/esplanade_demod.c:158-176 | every decision, of the slicer and of the bit-rate switch, is the sign of the discriminant of the newest window up to its own sample |
| `Demod.ToneIsBit` | orchard/esplanade_demod.c:171-180 | a high tone is a one to the slicer, a low tone a zero to both slicer and bit-rate switch, and silence neither a one nor a counted zero |
| `Demod.Demodulator.AddSample` | orchard/esplanade_demod.c:158-167 | after every sample the correlated window is exactly the last `size` scaled samples of a silent line followed by the history, across compactions |
| `Demod.Demodulator.Demodulate` | orchard/esplanade_demod.c:145-253 | the sample loop feeds the MAC exactly the bits the PLL emits on the sliced windows, and the bit-rate switch exactly the signs of their discriminants |
| `Demod.HeardConcat` | orchard/main.c:73-75 | demodulating in frames gives the bits and state of demodulating the whole |
| `BitRate.OncePerPilotExactly` | orchard/esplanade_demod.c:176-206 | one pilot tone, however noisy, selects the low rate at least once and at most 82 times, and exactly once if and only if the sample after the threshold is again a zero |
| `BitRate.FiresTwice` | orchard/esplanade_demod.c:196-206 | a pilot tone of 1500 zeros and a one on which the comment's "exactly once" fails |
| `BitRate.LowRateLasts` | orchard/esplanade_demod.c:208-220 | without another pilot the low rate ends with exactly the sample that takes the time spent idle past the holdout, however long updates take in between |
| `BitRate.LowRateLastsFromPilot` | orchard/esplanade_demod.c:196-215 | counted from the sample that selects it, the low rate lasts for fewer than 48000 idle samples |
| `BitRate.AfreshAfterTimeout` | orchard/esplanade_demod.c:208-220 | a pilot that outlasts the timeout selects the low rate again only after another 1500 zeros in a row, with nothing forgiven yet |
| `BitRate.ForgivesExactly` | orchard/esplanade_demod.c:180-194 | past the threshold a pilot survives exactly 81 samples that are no zeros |
| `BitRate.EveryPilotAlike` | orchard/esplanade_demod.c:176-206 | whatever was heard before, every later pilot selects the low rate as often as the first would |
| `LoopRuns.LowRateLastsInLoop` | orchard/esplanade_demod.c:207-220 | over whole runs of the main loop the timer advances by 256 for every half heard while the updater is idle, and stands still during updates |
| `BitRate.StaysConsistent` | orchard/esplanade_demod.c:176-220 | over any samples, the low rate is on exactly while the timer runs, and no counter leaves its range |
| `Pipeline.MailboxNeverOverwritten` | orchard/main.c:92-178 | in every run of the main loop, whatever is heard, the "packet buffer full" assertion holds at every bit and a reported packet stays unchanged until it is processed |
| `Pipeline.GuardStep` | orchard/esplanade_mac.c:44-106 | with a packet waiting, each bit brings the machine at most one bit closer to the assertion, which is 56 bits away when the packet is reported |
| `Pipeline.ShippedRateIsSlowEnough` | orchard/main.c:73-75 | at the shipped rates one half of the sample buffer yields at most 35 bits, for any signal |
| `Pipeline.MailboxEmptyBetweenHalves` | orchard/esplanade_updater.c:342 | whenever the loop goes back to listening, the mailbox is empty |
| `Pipeline.Bootloader.DemodLoop` | orchard/main.c:92-180 | polling the flag, copy, demodulation, unstriping in place and packet processing compose to the machine function, turn by turn, with samples arriving between turns; the halves found ready are what the loop function runs on |
| `Pipeline.LoopRunsOnConsumed` | orchard/main.c:99-110 | turns that find the flag clear make no difference: the state is that of the loop function on the halves consumed |
| `Pipeline.Bootloader.PhyDemodulate` | orchard/main.c:62-78 | 32 frames of 8 samples are one pass over the half, and the flag is clear afterwards |
| `EndToEnd.LoopHearsBits` | orchard/main.c:62-177 | however the halves cut up the incoming bits, the main loop leaves the flash, updater state and framer that handing over each packet on its very last bit would leave |
| `EndToEnd.LoopDeliversPackets` | orchard/main.c:92-178 | when the bits heard are the striped frames of some packets with any number of zeros around them, the loop leaves the flash and the verdict of delivering those packets one by one |
| `EndToEnd.SoundToFlash` | orchard/main.c:62-178 | when the sliced signal carries, with bounded jitter, the frames that announce and send an image, the main loop ends with exactly that image and guid in flash, marked complete, and booted exactly when the image carries an application's signature |
| `EndToEnd.LoopHearsDelivered` | orchard/main.c:99-107 | with samples arriving between any two steps of the copy, the halves the loop function consumes are, one for one, the halves the sample line has delivered |
| `EndToEnd.LoopHearsStream` | orchard/main.c:99-107 | with every publication in time, they are the consecutive halves of the ADC stream, centred |
| `LoopRuns.PolledLoopHearsStream` | orchard/main.c:98-110 | a polling loop between whose turns at most 256 samples arrive has heard the consecutive halves of the stream, centred, each once, and is less than a half behind |
| `Analog.EveryDelivery` | orchard/main.c:99-107 | over every interleaving, with no assumption on timing, the demodulator receives the ADC stream in order and centred, except that each half published late cuts 256 samples out of it at the consumer's next read, and 512 when the 8-bit flag wraps to zero under a polling consumer |
| `Analog.LosslessDelivery` | orchard/esplanade_analog.c:17-43 | over every interleaving in which the flag is clear again before the next half is published, the demodulator receives the ADC stream in order, centred, with nothing lost, repeated or torn |
| `Analog.LossExactlyWhenLate` | orchard/esplanade_analog.c:23-39 | samples are lost in a run if and only if some half in it is published late |
| `Analog.LateLoss` | orchard/esplanade_analog.c:23-39 | what the next delivery appends after a late publication: to a polling consumer the newer half instead of the waiting one, to one copying sample i the first i samples of the old half and the rest of the newer, to one demodulating nothing of the new half, whose flag is cleared away |
| `Analog.Sampler.FastIsr` | orchard/esplanade_analog.c:17-43 | the interrupt handler follows the line's step function |
| `Random.BinsAreEqual` | orchard/arduino-math.c:33-51 | for every max, every result in 0..max has exactly the same number of accepted raw values |
| `Random.InRangeExactlyWhenAccepted` | orchard/arduino-math.c:42-50 | the returned value is in 0..max if and only if the last raw value was accepted, so giving up promises nothing |
| `Random.Generator.RandomAtMost` | orchard/arduino-math.c:33-51 | the loop ends within 101 draws, all but the last of which were rejected, and returns the last one's bin |
| `Random.StateAccumulates` | orchard/arduino-math.c:12-29 | the state moves by the sum of all values drawn, modulo 2^64 |
| `Random.StateBytesTell` | orchard/arduino-math.c:22-23 | the hash is given every bit of the state, low word first |
| `Random.OutcomeIsLong` | orchard/arduino-math.c:49-50 | every outcome, accepted or not, is the unsigned quotient as a signed 32-bit number |

## Left out

- What the ADC does while it is restarted at another rate: the switch is modelled, the samples are taken as they come.
- Flash low-level and margin error codes: see the first assumption.
- The boot decision at reset, which looks at the application header alone and ignores `complete`: boot claims are made for the updater's path only.
- The running application, which may itself change flash.
- LEDs, printf, register access, ADC start and stop, locks, threads and timers.
- That the sign of the discriminant equals the transmitted tone: it depends on analog noise, so the PLL and end-to-end results start from the two-level signal.
- Demod.Demodulator.constructor: takes window sizes of 2 to 127 only, because `buf_ptr` is an 8-bit index into twice the window and a window of one sample makes the shift negative; the shipped size is 9.
- Flash.Controller.Program: when the 32-bit sum wraps around, the first load of the blank check is taken to fault, as every load past the end of flash is.
- Pipeline.Bootloader.DemodLoop: samples arrive between turns of the loop; `EndToEnd.LoopHearsDelivered` covers arrival between any two steps of the copy.
- `random` and `randomSeed`, which only offset and seed `random_at_most`.
- `memcpy_aligned` and its relatives as separate routines; the word copies they do are part of the members that use them.
- The two 64-bit MurmurHash helpers, which nothing calls.
