# PiWxRx native library: receiver, rings, signal path and audio out

PiWxRx receives NOAA SAME bursts (47 CFR 11.31: sixteen 0xAB bytes and a message at 520.83 bit/s,
23.04 samples per bit at 12 kHz) and forwards audio as RTP. This project models the parts of its C
library that carry long-lived state or fixed-width arithmetic, and proves what they guarantee over
whole runs.

| file | what it models |
|---|---|
| `Words.dfy` | 16- and 32-bit casts, C division, ring slots |
| `BitClock.dfy`, `ClockLimit.dfy` | edge detector, dual-modulus bit clock, exactly which runs of equal bits it survives |
| `Framer.dfy`, `Correlator.dfy` | LSB-first byte framer, 368-sample sync correlator |
| `Receiver.dfy`, `Session.dfy`, `Reacquisition.dfy`, `BurstLimit.dfy` | the receive thread from the sliced bit on; single bursts, sessions with idle gaps, sessions in silence, exactly which bursts are delivered |
| `RingProtocol.dfy`, `SampleRing.dfy`, `DataBuffer.dfy`, `Delivery.dfy` | the two mutex and condition-variable rings, step by step; from waveform to reader |
| `Oscillator.dfy`, `FirFilter.dfy`, `FilterResponse.dfy`, `Discriminator.dfy`, `SignalPath.dfy` | the fixed-point path from a 16-bit sample to the discriminator's phase; what the filter does to signals |
| `G711.dfy`, `Deemphasis.dfy`, `Codecs.dfy`, `Rtp.dfy` | companding, the recursive filter, the encoder loop, the RTP sender |

Globals that C functions update are fields of classes (`BitDecoder`, `SyncDetector`, `DspThread`,
`SampleBuffer`, `ByteBuffer`, `Oscillator`, `FirData`, `PhaseDiscriminator`, `Filter`, `Sender`); each
method is proved equal to one step of a pure state machine, and the theorems are about runs of those
machines. Threads are interleaved one shared-memory statement at a time in `RingProtocol`.

The main results:

- A burst of n >= 3 sync bytes and any message without more than nine equal bits in a row, in cells of
  23 or 24 samples in any order, is delivered as exactly n - 2 sync bytes and the message
  (`Receiver.BurstDelivered`). Every printable ASCII message at the nominal bit rate and any phase is
  such a burst (`Session.SameBurstDelivered`).
- The limit is exact. For cells of any widths from fifteen samples on, the bits come back if and only if
  each run of equal bits has as many bit times as bits (`ClockLimit.CellsRecoveredIff`); for any clean
  burst that condition decides delivery (`BurstLimit.BurstDeliveredIff`). At the nominal rate, for every
  message and phase, it is one inequality a run (`BurstLimit.NominalBurstDeliveredIff`); in cells of 23
  samples it is runs of at most eleven bits first and nine later (`BurstLimit.NarrowBurstDeliveredIff`).
- Bursts that follow one another are delivered, whenever after each of them DSPClearSync is called:
  a gap of two bit times at level 0 makes the correlator's history harmless (`Session.SessionDelivered`),
  and in silence at level 1 sync is re-acquired at once on stale history, with all sync bytes or all but the first, decided by the widths
  of the silence and of two cells (`Reacquisition.TransmissionDelivered`).
- In every interleaving both rings are queues, no wakeup is lost, and a run that delivers nothing while an
  item is unread is at most 5 * size + 1 steps long, however many batches start meanwhile
  (`RingProtocol`). This needs batches that are not empty and leave a slot free, and no spurious wakeup
  while the producer is outside its critical section; the free slot is needed exactly
  (`RingProtocol.BatchKeptIff`), and so is the last (`RingProtocol.SpuriousWakeupHarmlessIff`).
- How the audio is cut into DSPDemod calls does not matter if and only if no samples come after a call of
  odd length (`SampleRing.ChunkingIrrelevantIff`).
- From sample to phase nothing overflows and every cast is lossless (`SignalPath.PathClosedForm`). The
  phase is b times the squared length when the filtered vector has been turned and scaled by a + b i over
  twelve samples (`SignalPath.PathPhaseOfRotation`), so its sign tells the direction of the turn. The
  low-pass filter passes constants with 33186 and tones of 2, 3, 4 and 6 kHz with at most 45 of 65536,
  whatever their amplitude and phase (`FilterResponse.StopsTones`).
- Companding has the G.711 error bounds, with the exact inputs for which A-law breaks them, and every code
  byte stands for the value the standard gives (`G711.UlawTable`, `G711.AlawTable`); the de-emphasis filter
  is exact for every run if and only if inputs stay within 10923.
- Every packet of an RTP stream has the layout of RFC 3550, section 5.1, byte by byte, with the counters
  and the marker that belong to its number (`Rtp.PacketLayout`).

## Where the code differs from what one would expect

- FSKdsp.c:41 calls XING_MAX the number of stable samples before a crossing, but a sample that agrees
  again does not clear the counter: the three differing samples may lie anywhere
  (`BitClock.EdgeCountsAllDiffering`).
- Reloading the divisor with 23 gives a period of 24 calls, 23 once in 24 bits (24 bit times in 575
  calls), and not 23.04: the clock drifts late and depends on edges. Nine equal bits are always safe, ten
  come back at ten of the twenty-five phases of the nominal rate (`BurstLimit.TenBitsAtNominalRate`).
- DSPClearSync leaves the correlator's history in place, so the next sample at level 1 re-acquires sync
  (`Session.ClearedHistoryResyncs`).
- Both rings wait with `if` and have no full test, and DSPDemod signals even when it wrote nothing. The
  queue theorems state what is needed, and `RingProtocol.LooksEmptyIff`, `BatchKeptIff`,
  `WokenFindsDataIff` and `SpuriousWakeupHarmlessIff` what happens without it.
- DSPDemod starts every call with a new sample pair, so an odd call drops its last sample: the pipe may
  deliver such calls (`SampleRing.ChunkingIrrelevantIff`).
- linear2alaw turns -7..-1 into the code of -248 (`G711.WindowGives248`).

## Model

| member | source | states |
|---|---|---|
| BitClock.BitDecoder.EdgeDetect | JNI/Common/FSKdsp.c:145-163 | reports an edge on the third sample that differs from the sense, then adopts the new level; a first call only takes the level over |
| BitClock.BitDecoder.RunBitClock | JNI/Common/FSKdsp.c:165-191 | an edge puts the clock at mid-bit; otherwise a zero divisor is a bit time and reloads 23, or 22 when the swallow counter runs out |
| BitClock.ClockStaysInRange | JNI/Common/FSKdsp.c:145-191 | on every input divisor and swallow counter stay in 0..23 and the crossing count below 3 |
| BitClock.EdgeCountsAllDiffering | JNI/Common/FSKdsp.c:153-161 | the sense survives while fewer than three samples have differed since the last edge, wherever they lie, and changes on the third |
| BitClock.DualModulusClosedForm | JNI/Common/FSKdsp.c:165-191 | without edges, call n is a bit time if and only if n = 12 + 24(m-1) - floor((m-1)/24) for some m |
| BitClock.SamplesOncePerCell | JNI/Common/FSKdsp.c:145-191 | in an aligned clean cell the bit time falls on exactly one sample, from the thirteenth to the twenty-third, and not before the fifteenth once an edge has been seen |
| BitClock.CellStep | JNI/Common/FSKdsp.c:145-191 | one clean cell yields exactly its own bit and keeps the receiver aligned, with the sampling point where an edge put it or later |
| BitClock.CellsRecovered | JNI/Common/FSKdsp.c:145-191 | from an aligned boundary any clean cells with runs of at most nine equal bits come back bit for bit and end aligned |
| BitClock.RecoveredFromSync | JNI/Common/FSKdsp.c:259-278 | after the sync reset on a cell's first sample the transmitted bits come back, exactly one in the rest of that cell and one in each later cell |
| BitClock.BitTimesClosedForm | JNI/Common/FSKdsp.c:165-191 | n calls without an edge hold 24 floor((n-12)/575) + floor(((n-12) mod 575)/24) + 1 bit times, none before the twelfth |
| BitClock.LevelFollows | JNI/Common/FSKdsp.c:145-191 | a changed level is sampled at the old clock's bit times in its first two samples and at the new clock's from the third on |
| ClockLimit.SampledFromSync | JNI/Common/FSKdsp.c:145-191 | everything sampled after a sync, for cells of any widths from fifteen on, run by run, read off the lengths of the runs |
| ClockLimit.CellsRecoveredIff | JNI/Common/FSKdsp.c:145-191 | such cells come back bit for bit if and only if every run has as many bit times as bits |
| ClockLimit.BehindRecoveredIff | JNI/Common/FSKdsp.c:145-191 | a receiver that owes bits of a run, at any point of its clock, recovers if and only if the rest of the run has bit times enough and all later runs are exact |
| ClockLimit.BehindStaysWrong | JNI/Common/FSKdsp.c:165-191 | in cells of 23 samples a receiver that owes a bit of a run never recovers, whatever follows |
| ClockLimit.CleanCellsRecoveredIff | JNI/Common/FSKdsp.c:145-191 | for 23- and 24-sample cells in any order and runs below 264 bits: if and only if every run lasts past the bit time of its last bit |
| ClockLimit.NarrowCellsRecoveredIff | JNI/Common/FSKdsp.c:165-191 | with 23-sample cells: if and only if the opening run is at most eleven and every later run at most nine |
| ClockLimit.EqualBitsRecoveredIff | JNI/Common/FSKdsp.c:145-191 | n equal bits after a change come back if and only if they last past the n-th bit time: up to nine always, ten only with a 24-sample cell |
| Framer.ShiftInByte | JNI/Common/FSKdsp.c:287 | eight LSB-first bits leave exactly the byte sent in the shifter, whatever it held |
| Framer.BytesDelivered | JNI/Common/FSKdsp.c:295-301 | with byte sync held, the bits of any byte list are delivered as that list |
| Framer.HuntFiresAtFirstPattern | JNI/Common/FSKdsp.c:287-294 | for any bit stream, byte sync fires on the first bit that completes the eight bits of 0xAB and delivers it, and nothing is delivered before |
| Framer.RotationsDiffer | JNI/Common/FSKdsp.c:289 | no proper rotation of 0xAB is 0xAB, so a preamble cannot be framed at a wrong alignment |
| Framer.FramingRoundTrip | JNI/Common/FSKdsp.c:286-301 | the last j < 8 bits of 0xAB, a whole 0xAB and any byte list are delivered as 0xAB and that list |
| Correlator.SyncDetector.SyncCorrelator | JNI/Common/demod.c:56-68 | the register shifts by one and the result is true exactly when all sixteen taps show the pattern |
| Correlator.DetectsTwoSyncBytes | JNI/Common/demod.c:43-68 | the taps accept exactly when, folded oldest first through the byte shifter, they give 0xAB and 0xAB |
| Correlator.DetectsByHistory | JNI/Common/demod.c:56-68 | over any run of samples, the newest completes sync exactly when the sixteen samples 23 apart that end with it fold to 0xAB and 0xAB |
| Receiver.DspThread.ReceiveBit | JNI/Common/FSKdsp.c:286-301 | one bit through shifter, byte sync and bit counter, with the byte handed to the callback |
| Receiver.DspThread.ProcessSample | JNI/Common/FSKdsp.c:250-303 | one sliced sample through correlator or bit recovery and framer |
| Receiver.DspThread.Run | JNI/Common/FSKdsp.c:250-303 | the loop's part from demod_bit on, over any stretch of samples, ends in the state, and has delivered the bytes, of the step-by-step machine |
| Receiver.DspThread.DSPClearSync | JNI/Common/FSKdsp.c:136-141 | drops the sync flag and nothing else |
| Receiver.InSyncIsFramer | JNI/Common/FSKdsp.c:271-303 | in sync the receiver is the framer fed with the recovered bits, and the register is not touched |
| Receiver.OutOfSyncIsHistory | JNI/Common/FSKdsp.c:251-259 | out of sync the register is the history of all samples fed and nothing is delivered, until something detects |
| Receiver.Acquired | JNI/Common/FSKdsp.c:251-264 | from an idle history sync is taken on the first sample of the last bit of the second 0xAB and on no earlier sample, for any mix of cell widths |
| Receiver.BurstDelivered | JNI/Common/FSKdsp.c:250-303 | end-to-end round trip: n - 2 sync bytes and exactly the message |
| Session.SessionDelivered | JNI/Common/FSKdsp.c:136-303 | any number of bursts, each after 46 samples or more at level 0 and any silence, with DSPClearSync at any later moment, are delivered one by one from any history |
| Session.ClearedHistoryResyncs | JNI/Common/FSKdsp.c:136-141 | right after a burst and DSPClearSync, the next sample takes sync if and only if it is 1 |
| Session.SyncDecidedByFedSamples | JNI/Common/FSKdsp.c:251-255 | over any mix of samples and clears, sync is taken exactly when sixteen samples 23 apart of the stream taken out of sync fold to 0xAB and 0xAB |
| Session.MixedBytesHaveShortRuns | JNI/Common/FSKdsp.c:286-301 | bytes 0x20..0xDF, in any order, never put ten equal bits in a row |
| Session.SameBurstDelivered | JNI/Common/FSKdsp.c:250-303 | sixteen sync bytes and any message of bytes 0x20..0xDF at 23.04 samples per bit and any phase are delivered as fourteen sync bytes and the message |
| Reacquisition.BurstOutOfSilence | JNI/Common/FSKdsp.c:256-303 | a burst whose first sample at level 1 takes sync is delivered with all its sync bytes, or without the first exactly when call c + 1 or c + 2 is a bit time, c the samples at level 1 less one |
| Reacquisition.BurstLeavesStale | JNI/Common/FSKdsp.c:136-141 | after an acquired burst and a clear the register goes on matching for 22 more samples less one for each 24-sample cell among the first fifteen: seven at least |
| Reacquisition.NominalStaleSamples | JNI/Common/FSKdsp.c:136-141 | 21 at least at the nominal rate, for any bits and phase |
| Reacquisition.SilentSessionDelivered | JNI/Common/FSKdsp.c:136-303 | bursts on stale history, after short gaps and any silence, with the clear at any later moment, are all delivered, with exactly the sync bytes that silence and cell widths determine |
| Reacquisition.TransmissionDelivered | JNI/Common/FSKdsp.c:136-303 | a first burst less two sync bytes, and later ones in silence with exactly their determined sync bytes, are delivered while the stale samples its widths leave last |
| BurstLimit.DeliveredBits | JNI/Common/FSKdsp.c:286-301 | with byte sync held, the bytes delivered are the bits received, up to the last whole byte |
| BurstLimit.BurstDeliveredIff | JNI/Common/FSKdsp.c:250-303 | a clean burst is delivered as n - 2 sync bytes and the message if and only if every run from the sixteenth cell on has as many bit times as bits, the last up to seven more |
| BurstLimit.BurstFitsIff | JNI/Common/FSKdsp.c:250-303 | without bit times to spare: if and only if every run lasts past the bit time of its last bit |
| BurstLimit.NarrowBurstDeliveredIff | JNI/Common/FSKdsp.c:250-303 | in cells of 23 samples: if and only if the runs are at most eleven bits first and nine later |
| BurstLimit.NominalBurstDeliveredIff | JNI/Common/FSKdsp.c:250-303 | at 23.04 samples per bit, for every message and phase: if and only if every run lasts past the bit time of its last bit |
| BurstLimit.TenBitsAtNominalRate | JNI/Common/FSKdsp.c:165-191 | ten equal bits after a change come back at exactly ten of the twenty-five phases |
| RingProtocol.InvStep | JNI/Common/FSKdsp.c:106-128 | every step of either thread keeps pointers, slots, mutex ownership and delivered prefix consistent |
| RingProtocol.StepsPossible | JNI/Common/databuffer.c:59-90 | what blocks a thread is only the mutex, an empty wait or the other thread's critical section: reading and advancing are possible whatever the producer does, every step of a critical section follows on, a free mutex can be taken |
| RingProtocol.StepRefinesQueue | JNI/Common/FSKdsp.c:106-128 | publishing appends a whole batch at once, advancing removes and delivers the head, every other step leaves the queue alone |
| RingProtocol.RunIsFifo | JNI/Common/databuffer.c:59-90 | over every interleaving the delivered items are a beginning of the items handed in, in order, and both pointers are total counts modulo the size |
| RingProtocol.StoreMissesUnread | JNI/Common/FSKdsp.c:113-119 | the producer never writes a slot that holds an unread item, so not the one being read outside the mutex |
| RingProtocol.NoLostWakeup | JNI/Common/FSKdsp.c:208-214 | a blocked consumer means an empty ring, unless the producer is between publishing and signalling, and then the signal wakes it |
| RingProtocol.UnreadIsDelivered | JNI/Common/databuffer.c:59-90 | while an item is unread some thread can move and every move but the delivery, the start of a batch included, lowers a measure of at most 5 * size + 2 |
| RingProtocol.DeliveryIsNear | JNI/Common/databuffer.c:59-90 | while an item is unread, any run without a delivery, whatever batches it starts, is at most 5 * size + 1 steps long |
| RingProtocol.LooksEmptyIff | JNI/Include/rtl.h:136 | the pointers agree exactly when the unread items are a multiple of the ring size |
| RingProtocol.BatchKeptIff | JNI/Common/databuffer.c:59-71 | every batch of n items is kept, and empty told from non-empty, if and only if it leaves a slot free; a full ring looks empty and an overfull one has lost its head |
| RingProtocol.WokenFindsDataIff | JNI/Common/FSKdsp.c:124-126 | a consumer woken by the signal finds an item exactly when the batch was not empty |
| RingProtocol.SpuriousWakeupReadsStale | JNI/Common/databuffer.c:77-86 | one spurious wakeup on an empty ring with the producer away delivers once too often: the content of the slot at rdptr |
| RingProtocol.SpuriousWakeupHarmlessIff | JNI/Common/databuffer.c:59-90 | after a spurious wakeup every continuation delivers only what was put, in order, if and only if the producer is inside its critical section |
| RingProtocol.CriticalSection | JNI/Common/FSKdsp.c:108-126 | the producer's steps one by one and the critical section as a whole leave the same ring |
| SampleRing.SampleBuffer.DSPDemod | JNI/Common/FSKdsp.c:106-128 | the ring after the call is the ring with the decimated call stored past wrptr and published; slot by slot d holds floor((a + b) / 2) of its pair, as 2 d <= a + b <= 2 d + 1 |
| SampleRing.SampleBuffer.NextSample | JNI/Common/FSKdsp.c:216-218 | returns the slot at rdptr and advances it |
| SampleRing.ChunkingIrrelevant | JNI/Common/FSKdsp.c:111-121 | calls with no samples after an odd one write the decimation of their concatenation |
| SampleRing.ChunkingIrrelevantIff | JNI/Common/FSKdsp.c:111-121 | calls of given lengths always write the decimation of their concatenation if and only if every call before the last non-empty one is even |
| SampleRing.WokenFindsSampleIff | JNI/Common/FSKdsp.c:124-126 | the thread woken by DSPDemod finds a sample exactly when the call brought at least two |
| SampleRing.ThreadSeesDecimatedAudio | JNI/Common/FSKdsp.c:106-218 | over every interleaving what the thread has read is, item after item, 2 d <= x[2k] + x[2k+1] <= 2 d + 1 of all the audio, and once drained there is one for each pair |
| DataBuffer.ByteBuffer.constructor | JNI/Common/databuffer.c:42-56 | an empty ring filled with 0xED |
| DataBuffer.ByteBuffer.Put | JNI/Common/databuffer.c:59-71 | the ring with one byte stored and published |
| DataBuffer.ByteBuffer.Take | JNI/Common/databuffer.c:85-89 | returns the slot at rdptr and advances it |
| DataBuffer.BytesReachReader | JNI/Common/databuffer.c:59-90 | the reader has got a beginning of the bytes put, and all of them once the ring is drained |
| Delivery.SameBurstReachesReader | JNI/Common/RTLjni.c:34-37 | a SAME burst at the nominal rate reaches the reader through the ring in every interleaving |
| Oscillator.Oscillator.RunOsc | JNI/Common/osc.c:56-77 | returns the table entry at the channel's phase and advances that phase only; 0 for any other channel |
| Oscillator.PhasesInQuadrature | JNI/Common/osc.c:47-69 | after n calls the phases are 311 n and 311 n + 1536 modulo 2048 |
| Oscillator.PhasesPermuteTable | JNI/Common/osc.c:62-70 | from any start, so on both channels, 2048 consecutive phases visit every table entry exactly once |
| FirFilter.FirData.DoFir | JNI/Common/fir.c:165-210 | the newest 45 samples form the window, the result is their weighted sum on a 32-bit accumulator over 2^16, rdptr ends where it began |
| FirFilter.FirBank.RunFIR | JNI/Common/fir.c:149-162 | runs the chosen channel and leaves the other untouched; 0 for any other channel |
| FirFilter.AccumulatorExact | JNI/Common/fir.c:191-202 | on 16-bit inputs no product or partial sum leaves 32 bits, so the result is the exact weighted sum over 2^16 |
| FirFilter.GainTotal | JNI/Common/fir.c:59-105 | the coefficient magnitudes add up to 46718 |
| FirFilter.MacBound | JNI/Common/fir.c:191-200 | every partial sum is bounded by the gain times the input bound |
| FirFilter.FilterRange | JNI/Common/fir.c:191-208 | partial sums stay within 46718 * 32767 and outputs in -23359..23358 |
| FirFilter.FilterIsConvolution | JNI/Common/fir.c:165-210 | the n-th output is floor(sum h[i] x[n-i] / 2^16) with zeros before the start |
| FirFilter.FilterReversible | JNI/Common/fir.c:59-105 | reversing the 45-sample window does not change the output |
| FilterResponse.ImpulseResponse | JNI/Common/fir.c:58-105 | a single sample comes out as the signed 16-bit words of the source's table, one after another, over 2^16 |
| FilterResponse.ImpulseResponseRises | JNI/Common/fir.c:58-105 | the response rises strictly over taps 12..22 and falls as it rose |
| FilterResponse.PeriodTwelve | JNI/Common/fir.c:58-105 | the exact weight of each place in any signal of period twelve |
| FilterResponse.PassesConstants | JNI/Common/fir.c:58-105 | a constant passes with 33186 of 65536 |
| FilterResponse.StopsTones | JNI/Common/fir.c:58 | of tones of 6, 4, 3 and 2 kHz, of any amplitude and phase, the accumulator keeps 6, 15, 30 and 45 times one sample |
| FilterResponse.StopBandOutput | JNI/Common/fir.c:165-210 | so full-scale tones come out with magnitude at most 4, 8, 15 and 23 |
| Discriminator.PhaseDiscriminator.PhaseDiscrim | JNI/Common/demod.c:70-90 | both delay lines take the new 16-bit values and the result is I[n-12] Q[n] - I[n] Q[n-12] as a 32-bit number, shifted right by eleven |
| Discriminator.CrossProductFits32 | JNI/Common/demod.c:82-87 | for all 16-bit values both products and their difference fit 32 bits |
| Discriminator.NthDiscriminated | JNI/Common/demod.c:70-90 | call n yields floor((I[n-12] Q[n] - I[n] Q[n-12]) / 2^11), zeros before the start, across ring wraps |
| Discriminator.PhaseOfRotation | JNI/Common/demod.c:82-87 | if the vector is the one twelve calls back, turned and scaled by a + b i, the phase is floor(b (I^2 + Q^2) / 2^11), for all a and b |
| Discriminator.SwapNegates | JNI/Common/demod.c:82-83 | swapping the channels negates the value before the shift |
| SignalPath.FrontEnd.Demodulate | JNI/Common/FSKdsp.c:224-242 | one sample through oscillator, mixer, filters and discriminator is one step of the path machine |
| SignalPath.FrontEnd.RunMixer | JNI/Common/FSKdsp.c:224-233 | each channel's m is the table value times the sample over 2^15, rounded down: 0x8000 m <= product < 0x8000 m + 0x8000 |
| SignalPath.FrontEnd.Run | JNI/Common/FSKdsp.c:206-242 | the loop over any stretch of samples ends in the state of the path machine's run and returns its phases |
| SignalPath.MixExact | JNI/Common/FSKdsp.c:232-233 | the mixer's 16-bit cast loses nothing |
| SignalPath.PathClosedForm | JNI/Common/FSKdsp.c:224-242 | after any run, all windows and delay lines hold the streams computed on unbounded integers |
| SignalPath.StreamIsConvolution | JNI/Common/fir.c:165-210 | each filtered value of the closed form is the convolution of the mixed stream, over 2^16 |
| SignalPath.PhaseClosedForm | JNI/Common/FSKdsp.c:224-242 | the phase after any run is floor((I[n-12] Q[n] - I[n] Q[n-12]) / 2^11) of the filtered, mixed input |
| SignalPath.PathPhaseOfRotation | JNI/Common/FSKdsp.c:224-242 | the rotation law for the filtered, mixed input of any run |
| G711.Search | JNI/Common/g711.c:81-94 | the first table entry not below the value, or the size |
| G711.Linear2Ulaw | JNI/Common/g711.c:205-234 | the code of the mu-law specification function |
| G711.Ulaw2Linear | JNI/Common/g711.c:245-260 | the value of the mu-law specification function |
| G711.UlawError | JNI/Common/g711.c:205-260 | within 2^(seg+2), so 32 times the error is at most the magnitude plus 132, up to 32635; 32124 with the right sign beyond |
| G711.UlawMonotone | JNI/Common/g711.c:205-260 | decoding after encoding keeps order over all integers |
| G711.UlawOdd | JNI/Common/g711.c:205-260 | and is odd |
| G711.UlawByteRoundTrip | JNI/Common/g711.c:205-260 | encoding a decoded byte gives the byte, except that 0x7F gives 0xFF |
| G711.UlawIdempotent | JNI/Common/g711.c:205-260 | companding twice is companding once |
| G711.UlawCodesFall | JNI/Common/g711.c:205-234 | on the byte as a number: from 0 on, greater inputs never get greater codes, all of them from 0x80 on |
| G711.UlawSignBit | JNI/Common/g711.c:205-234 | a negative input has the code of its magnitude less 0x80 |
| G711.UlawTable | JNI/Common/g711.c:245-260 | every byte, as a number, stands for 4 ((33 + 2 q) 2^e - 33) with e and q read off 255 or 127 less the byte |
| G711.Linear2Alaw | JNI/Common/g711.c:117-145 | the code of the A-law specification function |
| G711.Alaw2Linear | JNI/Common/g711.c:151-172 | the value of the A-law specification function |
| G711.WindowGives248 | JNI/Common/g711.c:127-140 | inputs -7..-1 come back as -248 |
| G711.AlawErrorIff | JNI/Common/g711.c:117-172 | before saturation the error bound max(8, 2^(seg+2)), plus 7 for negative inputs, holds if and only if the input lies outside -7..-1 |
| G711.AlawSaturates | JNI/Common/g711.c:131-136 | beyond the last segment the value is 32256 with the input's sign |
| G711.AlawMonotoneIff | JNI/Common/g711.c:117-172 | order of x <= y is kept if and only if not (y in -7..-1 and x in -247..-8) |
| G711.AlawByteRoundTrip | JNI/Common/g711.c:117-172 | encoding a decoded byte gives the byte, for every byte |
| G711.AlawCodesRise | JNI/Common/g711.c:117-145 | after inverting the even bits, on the byte as a number: from 0 on, greater inputs never get smaller codes |
| G711.AlawSignBit | JNI/Common/g711.c:117-145 | the code of -x - 8 is that of x less 0x80, after inverting the even bits |
| G711.AlawTable | JNI/Common/g711.c:151-172 | every byte, as a number after inverting the even bits, stands for 8 (2 q + 1) in segment 0 and 8 (33 + 2 q) 2^(e-1) beyond |
| Deemphasis.Filter.Deemph | JNI/Common/codecs.c:182-196 | one step of the filter with the source's 32-bit products and 16-bit result |
| Deemphasis.FilterScale | JNI/Common/codecs.c:182-196 | while nothing overflows, the state gains the input and keeps 25889/32768 of itself, and the output is 20634/32768 of it, up to rounding |
| Deemphasis.StateStaysWithin | JNI/Common/codecs.c:182-196 | inputs of magnitude at most 10923 keep the state within 52035 over any run |
| Deemphasis.DeemphasisExactIff | JNI/Common/codecs.c:182-196 | every run of inputs within a bound is free of overflow if and only if the bound is at most 10923 |
| Deemphasis.ZeroInputShrinks | JNI/Common/codecs.c:188-195 | with zero input the state's magnitude shrinks on every call exactly while it lies outside -4..0, and is fixed inside |
| Deemphasis.ZeroInputSettles | JNI/Common/codecs.c:188-195 | enough zero inputs bring any state within the limit into -4..0 |
| Codecs.G711uLawEncode | JNI/Common/codecs.c:116-130 | every output byte is the companded amplified mean of its three samples, filtered if de-emphasis is on; the rest of the buffer is untouched |
| Codecs.AmplifiedIs | JNI/Common/codecs.c:121-127 | the level is a third of three samples rounded toward zero, and doubles with every step of the gain |
| Codecs.SmallGainDefined | JNI/Common/codecs.c:124-127 | for gains up to 15 the shift and the bias after it always fit 32 bits |
| Codecs.G711uLawDecode | JNI/Common/codecs.c:133-138 | every output sample is the value of its byte |
| Codecs.EncodedAudioFaithful | JNI/Common/codecs.c:116-138 | for every buffer and gain each byte decodes to its amplified mean up to the mu-law error |
| Codecs.EncodedSamplesFaithful | JNI/Common/codecs.c:116-138 | the same with the samples written out: for the m with 3 m at most two short of their sum, toward zero, each byte decodes to m 2^gain up to the mu-law error |
| Codecs.DeemphasizedAudioFaithful | JNI/Common/codecs.c:116-196 | with de-emphasis and levels of at most 10923 each byte decodes to the exact filter output up to the mu-law error |
| Rtp.Sender.constructor | JNI/Common/udp.c:56-80 | the header over what the memory held, with the top bit of the second byte set, and counters that its bytes decode to; nothing for CODEC_NONE |
| Rtp.Sender.SendUDPPacket | JNI/Common/udp.c:108-135 | sends header and payload and leaves the next header, whose bytes still decode to the counters and whose second byte has lost its top bit; nothing for CODEC_NONE |
| Rtp.Sender.SendAll | JNI/Source/rtl.c:307-314 | one call after another sends, for every packet, the stream's header for it and its payload |
| Rtp.CountersReadBack | JNI/Common/udp.c:124-129 | stored counters read back modulo 2^16 and 2^32 |
| Rtp.StreamHeaders | JNI/Common/udp.c:71-129 | packet n carries sequence s0 + n, timestamp t0 plus earlier payload lengths, the marker only first; flags, payload type and source never change |
| Rtp.PacketLayout | JNI/Common/udp.c:71-129 | every byte of packet n: second byte header[1] % 128, plus 128 for packet 0 only; sequence number and timestamp high byte first; source and payload |
| Rtp.PacketsFollow | JNI/Common/udp.c:108-129 | on the bytes of two packets in a row: sequence number plus one, timestamp plus the length of the payload just sent |

## Left out

- The floating-point DC slicer (JNI/Common/FSKdsp.c:243-246): demod_bit is the input of the receiver model.
- The cosine values of the oscillator table: any table of magnitude at most 32767 is allowed.
- Debug branches, including DEBUG_WRITE, which bypasses the receiver.
- DSPStop and the exit flag: a waiting thread is not signalled, so no termination claim is made.
- Values of bitctr and demod_byte before the first sync: C leaves them undefined, the model starts them at 0, and sync resets both before they are used.
- Run: the ring read and the signal path of the thread's loop (JNI/Common/FSKdsp.c:206-246) are SampleRing and SignalPath; the receiver takes demod_bit as its input.
- SessionDelivered: gaps at level 0 shorter than 46 samples that, with one more sample, outlast the stale history (7 to 22 samples) are covered by neither session theorem.
- G711uLawEncode: buffers and gains for which the shifted level or its bias leaves 32 bits are excluded, because C leaves them undefined; gains up to 15 never do.
- DoFir: a sum that leaves 32 bits, which needs inputs beyond 16 bits, is undefined in C; the model wraps it, as 32-bit machines do. The same holds for RunFIR.
- Linear2Ulaw: inputs within 132 of the 32-bit limits would overflow in C; the model uses unbounded integers there, and every caller modelled stays far inside. The same holds for Linear2Alaw.
- constructor: a header longer than the allocated buffer is excluded, as C would write past it; the address handling and the socket of InitUDP are not part of this model.
- SendUDPPacket: the payload is whatever PCMEncode produced; only its length matters to the header.
- G711aLawEncode and G711aLawDecode, stdioOutEncode and PipeDecimate: thin or unreachable loops around the functions modelled.
- alaw2ulaw and ulaw2alaw: unused finite tables.
- JNI glue, sockets, pipes, USB and ALSA, timers, configuration and the Java side.
