# Verification model of the QHRR0 robot controller

QHRR0 drives a legged robot's actuators over CAN. This project models the parts of it whose
correctness depends on state, interleaving or arithmetic, and proves what they promise:

- the shared-memory snapshot buffers (`shm/helper/buffer.py`): a sequence lock and a double buffer,
  each once as a concurrent protocol over all interleavings (`SeqLockProtocol`;
  `DoubleBufferProtocol` and `DoubleBufferReads`; when a call gives up, `SeqLockCalls` and
  `DoubleBufferCalls`; where the promises end, `SeqLockBound` and `DoubleBufferBoundary`) and once as code over a flat byte array (`ShmBuffers`), which is tied to the
  protocol as a whole and store by store (`ShmSteps`);
- the control loop (`controller.py`, `state_machine.py`): mailbox filter, state machine, output
  dispatch and pacing (`ControlModeFsm`, `ControlLoop`, `Pacing`), with properties over whole runs: safety,
  provenance and the mailbox (`ControllerRuns`), the effect of each command (`CommandEffects`) and the
  relaying of the policy (`PolicyRelay`);
- the actuator wire format: quantisation and packing in the driver and, differently rounded, in the
  dashboard (`Quantize`, `MitFrame`), encoder arithmetic (`Encoder`), and the zero-offset pipeline
  from the operator's command to the actuator's acknowledgement (`ZeroSet`);
- monitors that forget: the transmit-echo filter (`EchoFilter`), the dashboard's sliding windows
  (`TimeWindow`, `SlidingWindows`), feedback freshness, response tracking and the merging of partial
  actuator states (`Freshness`, `Transactions`, `ActuatorDriver`);
- three implementations of projected gravity (`Gravity`).

`Bytes`, `Options`, `Reals` and `SortedIds` hold what several of these share. `dafny verify dfyconfig.toml`
checks everything.

## How the model reads the code

- **Protocols.** A buffer is a labelled transition system. A run is a sequence of states and labels;
  any party may take the next step at any time, bytes are copied one at a time in any order, the
  writer may be abandoned at any point and started again, and there may be any number of readers.
  Counters that no step consults (`attempts`, `log`, `published`, ...) record history. Assumed:
  sequentially consistent memory, atomic access to each sequence word and to the index, and one
  writer. The class comments say that Python does not guarantee this.
- **Objects.** Python classes whose methods update fields are Dafny classes. Where a property speaks
  of everything that ever happened to an object, the object carries that history as ghost fields.
- **Numbers.** Integers are unbounded and every mask is written out. Floats are exact reals. Where
  floating-point error could matter, the scaling by 0.01 and then 100, everything down to the frames of
  a tick allows any error below one half (`ZeroSet.Scaling`, `ZeroSet.OffsetSurvives`). A square root
  is any non-negative number with the right square.
- **Clocks.** Every clock reading is a parameter. Only `ControllerRuns.EnablingIsBounded` relates the
  two clocks that the code reads: it takes them to be one shared clock.
- **Exceptions** are results. A tick that raises ends `RobotController.Run`, as it ends `run`; the
  lemmas about runs do not depend on that.
- **Identifiers.** `ControlLoop.Config` assumes distinct standard 11-bit actuator identifiers, which is
  what the transport accepts. `EncodeLE` and `DecodeLE` stand for Python's `struct`.

## Findings

- Fewer than 2^63 writes during one read attempt cannot harm either buffer; exactly 2^63 can make it
  return a mix, from every reachable state in which the writer is idle and a reader is half done
  (`SeqLockBound.BoundIsExact`, `DoubleBufferBoundary.BoundIsNeeded`).
- Double-buffer reads are linearizable as long as no writer is abandoned, during the attempt, where that is
  dangerous for the reader: between its even store and the flip, on a slot of which the reader has seen
  nothing older, with a payload that has not been published since the attempt began
  (`DoubleBufferReads.ReadIsLinearizable`). That condition is exact: from every reachable state where it
  is dangerous, abandoning the writer can make the attempt return a payload that was not the published one
  at any instant of it (`DoubleBufferBoundary.AbandonmentMisleadsExactly`). A controller that sends a payload
  again is enough (`DoubleBufferBoundary.RepeatedPayloadMisleads`).
  Below the bound reads are whole in any case.
- In ZERO_SETTING a fresh RUN does not run anything. It falls through both lower layers and repeats the
  zero set, on every actuator and with offset 0 when the command lists no targets
  (`ControllerRuns.RunRepeatsZeroSet`). The comment at qhrr0/app/robot_controller/state_machine.py:130-131
  calls ZERO_SET one-shot.
- A command acts exactly if its timestamp differs from that of the last command shown
  (`ControllerRuns.ActsExactly`). With an equal timestamp even an ESTOP is dropped
  (`ControllerRuns.EqualTimestampLosesEstop`).
- The operator mailbox is read relaxed and starts with the timestamp. A reading that shows the timestamp of
  an ESTOP and still the code before it consumes the timestamp, and the ESTOP is lost although all
  timestamps are distinct (`ControllerRuns.MixedReadingLosesEstop`; exact condition in
  `ControllerRuns.EntryActsExactly`).
- A transaction that expects nothing is done from the start by `is_done`, but a wait on it lasts until
  something arrives (`Transactions.TransactionManager.IsDone`).
- For quaternions shorter than 1e-12 the driver and the dashboard fall back to the identity while the
  policy normalises, or divides by zero (`Gravity.PolicyAgrees`).
- README.md:38 of the repository says that it uses no seqlock and no sequence counter. The two classes
  exist and promise consistent reads, but the typed channels default to `PlainBuffer`
  (qhrr0/app/robot_controller/shm/types/cstruct_type.py:32); what a tick finds in a mailbox is
  therefore arbitrary in this model.

## Model

| member | source | states |
|---|---|---|
| SeqLockProtocol.ReadReturnsLastCompletedWrite | qhrr0/app/robot_controller/shm/helper/buffer.py:178-200 | In every interleaving, a payload returned by `read_consistent` is the last completed write at the moment its attempt first read the word, and nothing was stored meanwhile, unless a positive multiple of 2^63 write attempts fell into that attempt. |
| SeqLockBound.BoundIsExact | qhrr0/app/robot_controller/shm/helper/buffer.py:178-200 | The bound is tight: from every reachable state with an idle writer and a reader in the middle of an attempt, for every size of at least two bytes, exactly 2^63 undisturbed writes lead to that attempt returning a mix, neither the payload completed last when it began nor any completed since. |
| SeqLockBound.TornFromClear | qhrr0/app/robot_controller/shm/helper/buffer.py:178-200 | An instance from `clear`: the mix is a payload that no write stored. |
| SeqLockProtocol.SequenceCountsAttempts | qhrr0/app/robot_controller/shm/helper/buffer.py:67-76 | After n write attempts, abandoned ones included, the word is 2n with the last completed payload in place, or 2n-1, modulo 2^64. |
| SeqLockProtocol.EqualEvenReadings | qhrr0/app/robot_controller/shm/helper/buffer.py:185-196 | Two equal even readings of the word lie a multiple of 2^63 write attempts apart. |
| SeqLockProtocol.RunKeepsInv | qhrr0/app/robot_controller/shm/helper/buffer.py:156-200 | Every step of writer and readers keeps the protocol's invariant, also across abandonment and wrap. |
| SeqLockProtocol.StalledWriter | qhrr0/app/robot_controller/shm/helper/buffer.py:140-142 | While the writer stands still, a complete attempt means the word was even and returns the payload in memory; on an odd word no attempt gets past its first look. |
| SeqLockProtocol.FailedAttemptMetWriter | qhrr0/app/robot_controller/shm/helper/buffer.py:186-195 | Every failed attempt met an odd word at its first look, or the odd store of some write between its two looks. |
| SeqLockProtocol.RaisedMetWriter | qhrr0/app/robot_controller/shm/helper/buffer.py:186-200 | A call that raises met at least `max_retries` odd words at first looks and odd stores, taken together. |
| SeqLockCalls.CallIsBounded | qhrr0/app/robot_controller/shm/helper/buffer.py:178-200 | A call for `max_retries` attempts begins at most that many; it has raised if and only if that many have failed, has returned if and only if it began one more than failed and is in none, and is refused if and only if `max_retries` is not positive. A failure is an odd word at the first look, or a last look that meets another word or an odd one. |
| SeqLockProtocol.WriteAlone | qhrr0/app/robot_controller/shm/helper/buffer.py:160-170 | The steps of one undisturbed write lead from any idle state to `AfterWrite`, which the array code is proved to compute. |
| DoubleBufferReads.ReadIsLinearizable | qhrr0/app/robot_controller/shm/helper/buffer.py:276-305 | If, during the attempt that returns, no writer is abandoned where that is dangerous for the reader, the returned payload was the published one at some instant of that attempt, given fewer than 2^63 writes to its slot in that attempt. Dangerous is: between even store and flip, on the reader's slot, of which it has seen nothing older, with a payload not published since the attempt began. |
| DoubleBufferBoundary.AbandonmentMisleads | qhrr0/app/robot_controller/shm/helper/buffer.py:248-305 | Conversely, from every reachable state where it is dangerous, abandoning the writer, and none again, lets that very attempt return the writer's payload, which was not the published one at any instant of the attempt. |
| DoubleBufferBoundary.AbandonmentMisleadsExactly | qhrr0/app/robot_controller/shm/helper/buffer.py:248-305 | The exact condition: in an attempt that has met no dangerous abandonment, abandoning the writer now can lead to such a misread, without another dangerous one and within the bound on writes, if and only if it is dangerous now. |
| DoubleBufferBoundary.UnpublishedMisleads | qhrr0/app/robot_controller/shm/helper/buffer.py:248-305 | In particular a payload that was not published at all is returned while still unpublished. |
| DoubleBufferReads.FlippedReadIsLinearizable | qhrr0/app/robot_controller/shm/helper/buffer.py:276-305 | If no writer is abandoned between even store and flip during the attempt, the returned payload was the published one at some instant of it, under the same bound. |
| DoubleBufferReads.EveryReadIsLinearizable | qhrr0/app/robot_controller/shm/helper/buffer.py:276-305 | In a run without any such abandonment this holds of every read. |
| DoubleBufferReads.ReadIsWhole | qhrr0/app/robot_controller/shm/helper/buffer.py:276-305 | With writers abandoned anywhere, a returned payload stood whole in the attempt's slot, under an even word, at the attempt's first look at the word, and is the cleared one or one that a write had stored completely by then. |
| DoubleBufferBoundary.EarlyAbandonBreaksLinearizability | qhrr0/app/robot_controller/shm/helper/buffer.py:248-266 | An instance from `clear`: the returned payload was never published. |
| DoubleBufferBoundary.RepeatedPayloadMisleads | qhrr0/app/robot_controller/shm/helper/buffer.py:248-305 | Another: the returned payload had been published, but only before the attempt began. |
| DoubleBufferBoundary.BoundIsNeeded | qhrr0/app/robot_controller/shm/helper/buffer.py:276-305 | The bound is needed: from every reachable state with an idle writer and a reader in the middle of an attempt that has met no flip, for every size of at least two bytes, exactly 2^63 undisturbed writes to its slot lead to that attempt returning a mix that was not the published payload at any instant of it. |
| DoubleBufferReads.ActiveSlotStable | qhrr0/app/robot_controller/shm/helper/buffer.py:248-266 | In every reachable state the active slot's word is even, it holds the payload published last, and the writer never stores into it. |
| DoubleBufferReads.FailedAttemptMetFlip | qhrr0/app/robot_controller/shm/helper/buffer.py:283-303 | Every failed attempt overlaps a flip of the index. |
| DoubleBufferReads.QuietAttemptSucceeds | qhrr0/app/robot_controller/shm/helper/buffer.py:283-303 | An attempt that meets no flip succeeds and returns the published payload, wherever the writer stalls. |
| DoubleBufferReads.RaisedMetFlips | qhrr0/app/robot_controller/shm/helper/buffer.py:276-305 | A call that raises lived through at least `max_retries` flips. |
| DoubleBufferCalls.CallIsBounded | qhrr0/app/robot_controller/shm/helper/buffer.py:276-305 | The same of the double buffer, where a failure is an odd word at the first look, or a last look that finds another index, or that the two words differ or are odd. |
| DoubleBufferReads.ReaderAloneFinishes | qhrr0/app/robot_controller/shm/helper/buffer.py:276-305 | From every reachable state a reader about to start an attempt finishes by its own steps with the published payload. |
| DoubleBufferProtocol.RunKeepsInv | qhrr0/app/robot_controller/shm/helper/buffer.py:242-305 | Every step keeps the protocol's invariant for both slots, the writer and all readers. |
| DoubleBufferProtocol.WriteAlone | qhrr0/app/robot_controller/shm/helper/buffer.py:248-266 | The steps of one undisturbed write lead to `AfterWrite`, which the array code is proved to compute. |
| DoubleBufferProtocol.WritesAlternate | qhrr0/app/robot_controller/shm/helper/buffer.py:248-266 | After k writes from `clear` the index is k mod 2, the active slot holds the last payload and the other one the payload before it. |
| Bytes.NextSequences | qhrr0/app/robot_controller/shm/helper/buffer.py:67-76 | The two helpers lead from 2n or 2n-1 to 2(n+1)-1, which is odd, and to 2(n+1), modulo 2^64. |
| Bytes.DecodeEncode | qhrr0/app/robot_controller/shm/helper/buffer.py:51-64 | Decoding an encoded little-endian word gives the word back, at any width it fits. |
| Bytes.EncodeDecode | qhrr0/app/robot_controller/shm/helper/buffer.py:51-64 | Encoding the decoded value gives the bytes back. |
| Bytes.DecodeIsWeighed | qhrr0/app/robot_controller/shm/helper/buffer.py:51-64 | Little-endian: byte k weighs 256^k. |
| ShmBuffers.PlainBuffer.Write | qhrr0/app/robot_controller/shm/helper/buffer.py:106-109 | The payload replaces exactly the payload bytes; a wrong size is refused and changes nothing. |
| ShmBuffers.SeqLockBuffer.Clear | qhrr0/app/robot_controller/shm/helper/buffer.py:156-158 | The bytes up to the total size become zero, and are the protocol's initial memory; bytes beyond the total size stay. |
| ShmBuffers.SeqLockBuffer.Write | qhrr0/app/robot_controller/shm/helper/buffer.py:160-170 | The byte code computes the protocol's `AfterWrite` on what the bytes stand for, leaves bytes beyond the total size alone, and changes nothing on error. |
| ShmBuffers.SeqLockBuffer.ReadConsistent | qhrr0/app/robot_controller/shm/helper/buffer.py:178-200 | Alone on the buffer, the retry loop returns the payload exactly if the word is even, and the right error otherwise. |
| ShmBuffers.DoubleBuffer.Clear | qhrr0/app/robot_controller/shm/helper/buffer.py:242-246 | The bytes up to the total size become zero, and are the protocol's initial memory; bytes beyond it stay. |
| ShmBuffers.DoubleBuffer.Write | qhrr0/app/robot_controller/shm/helper/buffer.py:248-266 | The byte code computes the protocol's `AfterWrite`; the slot that was active, the reserved word and every byte beyond the total size keep their values. |
| ShmBuffers.DoubleBuffer.ReadConsistent | qhrr0/app/robot_controller/shm/helper/buffer.py:276-305 | Alone on the buffer, the retry loop returns the active payload exactly if the active word is even, and the right error otherwise. |
| ShmBuffers.DoubleBuffer.ReadRelaxed | qhrr0/app/robot_controller/shm/helper/buffer.py:268-274 | It returns the payload of the active slot. |
| ShmBuffers.DoubleBuffer.Layout | qhrr0/app/robot_controller/shm/helper/buffer.py:307-319 | Index and reserved word take 8 bytes, and each of the two slots that follow takes 8 and the payload. |
| ShmBuffers.DoubleBuffer.Elsewhere | qhrr0/app/robot_controller/shm/helper/buffer.py:307-319 | Header and slots are disjoint: a window that meets neither the index nor the written slot is untouched by all four stores of a write. |
| ShmSteps.SeqLockStoreIsStep | qhrr0/app/robot_controller/shm/helper/buffer.py:160-170 | Each single store of a write changes the bytes as its protocol step changes the memory, and nothing beyond the total size. |
| ShmSteps.SeqLockLoads | qhrr0/app/robot_controller/shm/helper/buffer.py:186-195 | Each load reads what the reader's step reads. |
| ShmSteps.SeqLockRunOnBytes | qhrr0/app/robot_controller/shm/helper/buffer.py:156-200 | Every run of the protocol, from bytes that hold its initial memory, is a run on the flat bytes, one store a step. |
| ShmSteps.DoubleStoreIsStep | qhrr0/app/robot_controller/shm/helper/buffer.py:248-266 | Each single store of a write, the flip included, changes the bytes as its protocol step changes the memory, and nothing beyond the total size. |
| ShmSteps.DoubleLoads | qhrr0/app/robot_controller/shm/helper/buffer.py:282-293 | Each load reads what the reader's step reads: index, word, byte. |
| ShmSteps.DoubleRunOnBytes | qhrr0/app/robot_controller/shm/helper/buffer.py:242-305 | Every run of the protocol, from bytes that hold its initial memory, is a run on the flat bytes, one store a step. |
| ShmSteps.SpliceOneMore | qhrr0/app/robot_controller/shm/helper/buffer.py:169-169 | Storing a payload in one slice is storing its bytes one at a time. |
| ControlModeFsm.Fsm.Update | qhrr0/app/robot_controller/state_machine.py:54-160 | The three priority layers together compute one decision table over mode, command and elapsed time; the mode's clock starts only when the mode changes. |
| ControlLoop.RobotController.Loop | qhrr0/app/robot_controller/controller.py:202-248 | One tick advances the memory by `Tick`, emits exactly the frames of the one output path of the new mode, and raises exactly when that path does. |
| ControlLoop.RobotController.Run | qhrr0/app/robot_controller/controller.py:187-200 | The pacing loop sleeps as the schedule says, runs the ticks one after the other until it is told to stop, between rounds or during a sleep, or until a tick raises, and emits exactly the frames of their outputs, in order. |
| ControlLoop.RobotController.ConsumeOperatorCommand | qhrr0/app/robot_controller/controller.py:300-324 | The filter passes a command on, releases one with the timestamp consumed last, and remembers what it consumed. |
| ControlLoop.RobotController.SendZeroSetAll | qhrr0/app/robot_controller/controller.py:327-339 | The zero-set path sends its frames in order, and neither sends nor records anything on a malformed command. |
| ControlLoop.RobotController.SendDampingAll | qhrr0/app/robot_controller/controller.py:365-389 | The damping path sends the same packed command to all actuators in increasing order, or raises at the first frame. |
| ControlLoop.RobotController.SendPolicyCommand | qhrr0/app/robot_controller/controller.py:391-417 | The policy path sends what `PolicyOutput` lists and records it only if it does not raise. |
| ControllerRuns.EstopLatch | qhrr0/app/robot_controller/state_machine.py:84-90 | From the tick that takes a fresh ESTOP until one takes a fresh RESET_FAULT, for any mailbox history, every tick acts in ESTOP and sends each actuator the disable frame and nothing else. |
| ControllerRuns.EstopEnds | qhrr0/app/robot_controller/state_machine.py:87-90 | ESTOP is left if and only if a fresh RESET_FAULT is taken, and then into DISABLED. |
| CommandEffects.CommandLeads | qhrr0/app/robot_controller/state_machine.py:79-133 | By number, a fresh command makes the tick that takes it act so: 5 in ESTOP; in ESTOP, 6 in DISABLED and any other in ESTOP; outside ESTOP, 2 and 6 in DISABLED, 3 in DAMPING, 4 in ZERO_SETTING; 7 in DAMPING in NORMAL; 1 in DISABLED or ZERO_SETTING in ENABLING. |
| CommandEffects.ModeEndsExactly | qhrr0/app/robot_controller/state_machine.py:54-141 | NORMAL ends if and only if a fresh 2, 3, 4, 5 or 6 is taken, and DAMPING, DISABLED, ESTOP, ZERO_SETTING and ENABLING with the same exactness, ENABLING also once it has lasted long enough. |
| CommandEffects.DisableHolds | qhrr0/app/robot_controller/controller.py:221-225 | From a fresh DISABLE or RESET_FAULT outside ESTOP until another fresh command, every tick acts in DISABLED and sends each actuator the frame C2 00 00 00 00 00 00 00 and nothing else. |
| CommandEffects.EstopHoldsExit | qhrr0/app/robot_controller/controller.py:215-219 | From a fresh ESTOP until a fresh RESET_FAULT every tick sends exactly those frames, whatever other commands come. |
| CommandEffects.DampingAndRunHold | qhrr0/app/robot_controller/state_machine.py:112-117 | DAMPING taken outside ESTOP, and NORMAL after a RUN taken in DAMPING, hold until another fresh command. |
| CommandEffects.EnablingSendsEnter | qhrr0/app/robot_controller/controller.py:227-231 | A tick in ENABLING sends each actuator the frame C1 00 00 00 00 00 00 00 and nothing else. |
| ControllerRuns.UnknownUnreachable | qhrr0/app/robot_controller/controller.py:247-248 | In every run from DISABLED the mode UNKNOWN, hence the catch-all branch, is never reached. |
| ControllerRuns.OneOutputPath | README.md:32-35 | Every frame of a tick goes to a configured actuator and carries the one opcode of the tick's mode; only NORMAL records a policy output. |
| ControllerRuns.PolicyIsIdle | README.md:35 | If another policy command would change anything that a tick emits, raises or records, the tick acts in NORMAL. |
| ControllerRuns.PolicyFramesMean | qhrr0/app/robot_controller/controller.py:391-417 | Policy output relays the known targets in order, each as the nearest words of its command, and raises exactly at the first that cannot be packed. |
| PolicyRelay.NormalRelaysExactly | qhrr0/app/robot_controller/controller.py:391-417 | The frames of a NORMAL tick are, in order, one for each index below both `num_targets` and 24 whose entry names an actuator, and each relays that entry; the tick raises if and only if frames are missing, and the first that is missing belongs to an entry that cannot be packed. |
| PolicyRelay.LeftoversAreIdle | qhrr0/app/robot_controller/controller.py:392-394 | Entries at or beyond `num_targets` change nothing that a tick emits, raises, records or hands on. |
| ControllerRuns.DampingFramesMean | qhrr0/app/robot_controller/controller.py:365-389 | Damping frames go to every actuator once, in increasing order, and command nothing but the damping gain; the path raises, before sending anything, if and only if there is an actuator and the gain or a range does not fit. |
| ControllerRuns.NormalBeganByRun | README.md:34 | Every NORMAL interval began with a fresh RUN taken in DAMPING. |
| ControllerRuns.DampingBegan | qhrr0/app/robot_controller/state_machine.py:112-141 | Every DAMPING interval began with a fresh DAMPING, or at the end of an ENABLING interval at least as long as the enabling duration. |
| ControllerRuns.PolicyProvenance | qhrr0/app/robot_controller/state_machine.py:94-141 | Every tick that acts in NORMAL, whether or not it raises, lies in a NORMAL interval begun by a fresh RUN directly after such a DAMPING interval. |
| ControllerRuns.InfluenceHasProvenance | qhrr0/app/robot_controller/state_machine.py:94-141 | Every tick whose output the policy command can influence has that provenance, down to how the DAMPING interval began. |
| ControllerRuns.FreshExactly | qhrr0/app/robot_controller/controller.py:300-324 | The remembered timestamp is that of the last command other than NONE in the mailbox history. |
| ControllerRuns.ActsExactly | qhrr0/app/robot_controller/controller.py:300-324 | A command acts if and only if it is not NONE and its timestamp differs from that of the last command shown before it, if any. |
| ControllerRuns.ConsumedOnce | qhrr0/app/robot_controller/controller.py:300-324 | With distinct timestamps and whole readings, a published command acts at the first tick that shows it and at no other, however long it stays. |
| ControllerRuns.TimestampActsOnce | qhrr0/app/robot_controller/controller.py:300-324 | However readings mix the timestamp of one published command with the code of another, each timestamp acts once: at the first tick that shows a command under it, with the code shown. |
| ControllerRuns.EntryActsExactly | qhrr0/app/robot_controller/controller.py:300-324 | So a published command takes effect if and only if its own code is what is shown first under its timestamp. |
| ControllerRuns.MixedReadingLosesEstop | qhrr0/app/robot_controller/controller.py:208-212 | Whole readings are needed: from the start, one mixed reading loses an ESTOP although all timestamps are distinct. |
| ControllerRuns.EqualTimestampLosesEstop | qhrr0/app/robot_controller/controller.py:308-320 | Distinct timestamps are needed: from the start, an ESTOP that repeats the timestamp of a DAMPING before it does nothing. |
| ControllerRuns.ZeroSettingIsOneShot | qhrr0/app/robot_controller/state_machine.py:108-133 | ZERO_SETTING lasts another tick if and only if a fresh ZERO_SET or a fresh RUN is taken; with no fresh command it ends in DISABLED. |
| ControllerRuns.RunRepeatsZeroSet | qhrr0/app/robot_controller/state_machine.py:108-110 | A fresh RUN without targets, taken in ZERO_SETTING, sends offset 0 to every actuator. |
| ControllerRuns.ZeroFramesInOrder | qhrr0/app/robot_controller/controller.py:327-339 | Zero-set frames go to the known identifiers in the given order, once each, and an actuator decodes exactly the offset resolved for it. |
| ControllerRuns.ZeroSetTickMeans | qhrr0/app/robot_controller/controller.py:327-362 | A tick that zeroes on a fresh, built command never raises and sends one frame, in increasing order, to each actuator that the last-wins fold of its pairs names, or to all if the fold is empty; each decodes its offset of the fold, or 0, under any rounding of the scaling below half a count. |
| ControllerRuns.ZeroSetTickExactly | qhrr0/app/robot_controller/controller.py:327-362 | For any contents of the mailbox, a tick that zeroes does so on a fresh command; it raises if and only if that command announces pairs under a wrong magic, or more than 24 of them, and then sends and records nothing. Otherwise it zeroes as the last-wins fold of the announced pairs says. |
| ControllerRuns.EnablingClock | qhrr0/app/robot_controller/state_machine.py:135-160 | No command restarts the clock of an ENABLING interval, and the interval stays shorter than the enabling duration. |
| ControllerRuns.EnablingOutput | README.md:33 | A tick in ENABLING sends the enable frame to the actuators in order and nothing else, and only such a tick has that output. |
| ControllerRuns.EnableFramesExactly | README.md:33 | Enable frames go out if and only if the tick acts in ENABLING and there is an actuator; then, identifiers being distinct, each actuator gets exactly one. |
| ControllerRuns.EnablingIsBounded | qhrr0/app/robot_controller/controller.py:187-200 | On one shared clock an ENABLING interval of duration D at period P covers fewer than D/P + 2 ticks. |
| Pacing.NeverEarly | qhrr0/app/robot_controller/controller.py:187-200 | Tick k never starts before t0 + k periods. |
| Pacing.NoCatchUpBurst | qhrr0/app/robot_controller/controller.py:197-200 | Whatever overran before, n periods lie between the end of a tick and the start of the one n + 1 later. |
| Pacing.OverrunStartsAfresh | qhrr0/app/robot_controller/controller.py:199-200 | After an overrun the next tick starts at least a whole period after it. |
| Pacing.OnTime | qhrr0/app/robot_controller/controller.py:187-200 | With no overrun before it, tick k is scheduled exactly k periods after the start. |
| Pacing.OnTimeAfterOverrun | qhrr0/app/robot_controller/controller.py:197-200 | Otherwise it is scheduled exactly k - j periods after the end of tick j, the last that overran. |
| ControllerRuns.SleepsExactly | qhrr0/app/robot_controller/controller.py:187-200 | Each sleep that `Run` returns lasts until exactly that time, and is 0 once it is over. |
| ControllerRuns.EmittedTickByTick | qhrr0/app/robot_controller/controller.py:202-248 | What a run emits goes on, at every tick, with the request to the IMU, if configured, and then with the frames of the tick. |
| SortedIds.SortIds | qhrr0/app/robot_controller/controller.py:329 | The result is the increasing sequence of the keys. |
| SortedIds.SortedUnique | qhrr0/app/robot_controller/controller.py:329 | There is only one such sequence. |
| Quantize.RoundHalfAwayExactly | qhrr0/app/hal/driver/actuators/dongilc_protocol.py:42-45 | The driver's rounding is, if and only if, a nearest integer, and the one away from zero on a tie. |
| Quantize.RoundHalfEvenExactly | qhrr0/app/robot_controller/subprocesses/dashboard/backend/command_api.py:58-62 | The dashboard's rounding is, if and only if, a nearest integer, and the even one on a tie. |
| Quantize.ClampIsIdle | qhrr0/app/hal/driver/actuators/dongilc_protocol.py:48-56 | The quantiser succeeds exactly in range on a positive span; its final clamp then changes nothing and the result fits. |
| Quantize.QuantiserMonotone | qhrr0/app/hal/driver/actuators/dongilc_protocol.py:48-56 | A larger value never gets a smaller integer. |
| Quantize.DashboardMonotone | qhrr0/app/robot_controller/subprocesses/dashboard/backend/command_api.py:58-62 | The same for the dashboard's quantiser. |
| Quantize.ReconstructionError | qhrr0/app/hal/driver/actuators/dongilc_protocol.py:48-56 | Quantising and reconstructing moves a value by at most span / (2 (2^bits - 1)). |
| Quantize.DashboardReconstructionError | qhrr0/app/robot_controller/subprocesses/dashboard/backend/command_api.py:58-62 | The same for the dashboard's quantiser. |
| Quantize.CentreMapsToCentre | qhrr0/app/hal/driver/actuators/dongilc_protocol.py:51-56 | The centre of a symmetric range maps to 2^(bits-1). |
| Quantize.QuantisersCompared | qhrr0/app/robot_controller/subprocesses/dashboard/backend/command_api.py:58-62 | The two quantisers refuse the same inputs and differ by exactly 1 on a tie above an even integer, and nowhere else. |
| MitFrame.UnpackPacked | qhrr0/app/hal/driver/actuators/dongilc_protocol.py:643-653 | The eight bytes unpack to exactly the five words of 16, 12, 12, 8 and 8 bits. |
| MitFrame.PackMitPayload | qhrr0/app/hal/driver/actuators/dongilc_protocol.py:622-653 | The packing code, with its checks and masks, computes the payload of the nearest words or the error of the first failing check. |
| MitFrame.PackDashboardPayload | qhrr0/app/robot_controller/subprocesses/dashboard/backend/command_api.py:65-98 | The same for the dashboard's packer and its rounding. |
| MitFrame.DriverBytesMean | qhrr0/app/hal/driver/actuators/dongilc_protocol.py:622-653 | The driver packs a command if and only if it is in range over positive spans, and the bytes unpack to the words nearest to it. |
| MitFrame.PacksExactly | qhrr0/app/hal/driver/actuators/dongilc_protocol.py:622-653 | Driver and dashboard pack a command if and only if its position, velocity and torque lie within plus or minus their limits, its gains between 0 and theirs, and all five limits are positive. Out of range is one error, a limit that is not positive in a command within range the other. |
| MitFrame.BytesStandForCommand | qhrr0/app/robot_controller/subprocesses/dashboard/backend/command_api.py:65-98 | From either packer, each field that the actuator unpacks is within half a step of the field of the command with that name. |
| MitFrame.FrameIsOneNumber | qhrr0/app/hal/driver/actuators/dongilc_protocol.py:643-653 | Behind the opcode C0 the frame is one 56-bit number whose digits, most significant first, are position, velocity, kp, kd and torque. |
| MitFrame.CentreWords | qhrr0/app/hal/driver/actuators/dongilc_protocol.py:51-56 | A zero command packs to the centres of the symmetric fields and to the zero of the others. |
| MitFrame.PackersAgree | qhrr0/app/robot_controller/subprocesses/dashboard/backend/command_api.py:65-98 | Driver and dashboard refuse the same commands and give the same bytes if and only if no field falls on a tie above an even integer; such a field differs by exactly 1. |
| Encoder.ShortestDeltaIsShortest | qhrr0/app/hal/driver/actuators/dongilc_protocol.py:63-74 | The difference leads from the previous reading to the current one modulo 16384, and none that does is smaller in size. |
| Encoder.ShortestDeltaRecovers | qhrr0/app/hal/driver/actuators/dongilc_protocol.py:63-74 | A true step is recovered if and only if it is shorter than half a turn, or is half a turn in the direction without wrap-around. |
| Encoder.TravelledIsDisplacement | qhrr0/app/hal/driver/actuators/dongilc_protocol.py:63-74 | Summed over any trace whose true steps are shorter than half a turn, the differences give the true displacement over any number of turns. |
| Encoder.RadRoundTrip | qhrr0/app/hal/driver/actuators/dongilc_protocol.py:77-83 | Count to radians and back is the identity on 0..16383. |
| Encoder.CountStandsFor | qhrr0/app/hal/driver/actuators/dongilc_protocol.py:77-78 | A count times a whole turn is its angle times 16384. |
| Encoder.RadToCountIsNearest | qhrr0/app/hal/driver/actuators/dongilc_protocol.py:77-83 | For every angle, the count stands for an angle that is, up to whole turns, at most half an encoder step away. |
| Encoder.OffsetSetsPosition | qhrr0/app/hal/driver/actuators/dongilc_protocol.py:375-407 | The written offset survives its bytes, and original count plus offset reads as the desired angle to within half an encoder step, up to whole turns, for every angle and count. |
| Encoder.OffsetBytes | qhrr0/app/hal/driver/actuators/dongilc_protocol.py:375-407 | The offset frame is the opcode 91, five zeros, and the low 16 bits, least significant byte first. |
| ZeroSet.BuildOperatorCommand | qhrr0/app/robot_controller/subprocesses/dashboard/backend/operator_commands.py:15-43 | Building succeeds exactly on at most 24 valid pairs, and the command carries them and nothing else, with code and target mask cut to 32 bits. |
| ZeroSet.ResolveIsLastWins | qhrr0/app/robot_controller/controller.py:355-362 | An identifier is resolved if and only if it is not 0 and some pair names it, to the offset of the last pair that does. |
| ZeroSet.ZeroSetOffsetsByCanId | qhrr0/app/robot_controller/controller.py:342-362 | The loop computes that resolution, and rejects a wrong magic and a count beyond the capacity. |
| ZeroSet.OffsetsExactly | qhrr0/app/robot_controller/controller.py:342-362 | A command is rejected if and only if it announces pairs under another magic than 5A45524F hexadecimal, or more than 24 of them; otherwise exactly the announced pairs are resolved. |
| ZeroSet.OffsetSurvives | qhrr0/app/hal/driver/actuators/dongilc_protocol.py:655-671 | Every int16 offset comes back unchanged from the acknowledgement, under any scaling error below one half of a count. |
| ZeroSet.PayloadFaithful | qhrr0/app/hal/driver/actuators/dongilc_protocol.py:655-671 | The packer refuses exactly the angles whose rounded count does not fit; the others come back within half a count. |
| ZeroSet.ZeroBytes | qhrr0/app/hal/driver/actuators/dongilc_protocol.py:655-671 | The frame is the opcode C3, five zeros, and the rounded count modulo 65536, least significant byte first. |
| ZeroSet.PipelineFaithful | qhrr0/app/robot_controller/controller.py:327-362 | A command as built is never rejected, resolves to the last-wins fold of its pairs, and each resolved offset reaches the actuator and comes back unchanged, under any rounding of the scaling below half a count. |
| TimeWindow.PruneIsFilterExactly | qhrr0/app/robot_controller/subprocesses/dashboard/backend/bus_load.py:35-38 | Pruning the front leaves exactly the recent entries if and only if no old entry stands behind a recent one. |
| TimeWindow.AddKeepsCover | qhrr0/app/robot_controller/subprocesses/dashboard/backend/bus_load.py:31-38 | After an addition the deque holds exactly the entries of the whole history inside the window, unless the clock ever ran backwards. |
| TimeWindow.LookKeepsCover | qhrr0/app/robot_controller/subprocesses/dashboard/backend/bus_load.py:40-41 | The same after a look that only prunes. |
| SlidingWindows.BusLoadWindow.Record | qhrr0/app/robot_controller/subprocesses/dashboard/backend/bus_load.py:31-33 | An addition appends to the history, negative sizes counting as 0. |
| SlidingWindows.BusLoadWindow.Look | qhrr0/app/robot_controller/subprocesses/dashboard/backend/bus_load.py:40-66 | The totals are those of exactly the recorded entries inside the window, and the rates follow from them. |
| SlidingWindows.TotalsAdd | qhrr0/app/robot_controller/subprocesses/dashboard/backend/bus_load.py:42-50 | Frame and bit totals of a history are the sums of those of its parts. |
| SlidingWindows.TotalsMean | qhrr0/app/robot_controller/subprocesses/dashboard/backend/bus_load.py:42-50 | Received frames and bits are the number of the entries marked received and the sum of their bits; the same for transmitted ones. |
| SlidingWindows.RatesMean | qhrr0/app/robot_controller/subprocesses/dashboard/backend/bus_load.py:51-66 | Over a window and bit rate that are not tiny, each rate times the window gives back its own total, and the load is the share of the bit rate in percent. |
| SlidingWindows.NodeState.Look | qhrr0/app/robot_controller/subprocesses/dashboard/backend/state.py:70-95 | Count, status and age of the last report follow from all reports ever marked, the heartbeat from exactly those inside the window. |
| SlidingWindows.HeartbeatMeans | qhrr0/app/robot_controller/subprocesses/dashboard/backend/state.py:89-95 | Times the time between the first and the last report of the window the heartbeat gives the number of intervals; it is 0 below two reports or up to a nanosecond. |
| SlidingWindows.SteadyHeartbeat | qhrr0/app/robot_controller/subprocesses/dashboard/backend/state.py:89-95 | A node reporting every P seconds shows exactly 1/P, whatever number of reports the window holds. |
| EchoFilter.QueryIsExact | qhrr0/app/hal/can_bus/process_transport.py:65-78 | Lazily pruned or not, the queue a query leaves holds the frame if and only if one of the last 512 sent is equal and at most 0.25 s old. |
| EchoFilter.TxEchoFilter.IsRecentTxEcho | qhrr0/app/hal/can_bus/process_transport.py:68-78 | The answer is that property of the whole sending history, for any calls on a clock that does not run backwards. |
| EchoFilter.TxEchoFilter.RememberTxFrame | qhrr0/app/hal/can_bus/process_transport.py:65-66 | Sending appends to the history, and the queue keeps following it when it overflows. |
| Freshness.FreshExactly | qhrr0/app/hal/hardware/can/device_comm_manager.py:34-72 | A monitor is fresh if and only if the latest reception or poll is a reception, or a poll within the timeout of the latest reception, which was at a positive time. |
| Freshness.LastRxMeans | qhrr0/app/hal/hardware/can/device_comm_manager.py:34-41 | The last reception time is that of the latest reception in the history, or 0 if there is none. |
| Freshness.LastFaultMeans | qhrr0/app/hal/hardware/can/device_comm_manager.py:43-72 | The last fault time is that of the latest frame that could not be decoded, or poll that found a fresh monitor silent, whichever came last, and 0 if there is none. |
| Freshness.TransitionsBalance | qhrr0/app/hal/hardware/can/device_comm_manager.py:48-72 | On any clock, timeouts plus one if fresh equals the receptions that found the monitor stale plus the polls that revived it. |
| Freshness.TimeoutsMatchRecoveries | qhrr0/app/hal/hardware/can/device_comm_manager.py:48-72 | With ordered polls no poll revives, so timeouts plus one if fresh equals the receptions that found the monitor stale. |
| Freshness.StatusBalances | qhrr0/app/hal/hardware/can/device_comm_manager.py:34-72 | With ordered polls, online is the negation of stale and timeout_count plus one if online is at most rx_count. |
| Freshness.StatusCounts | qhrr0/app/hal/hardware/can/device_comm_manager.py:34-72 | The counters of a status are the numbers of receptions, of frames that could not be decoded, and of polls that found a fresh monitor silent. |
| Freshness.PollOrderIsNeeded | qhrr0/app/hal/hardware/can/device_comm_manager.py:64-70 | The hypothesis of the two rows above is needed: polls out of order, which the code's clock never yields, would count two timeouts for one reception. |
| Freshness.BestEffortCommManager.UpdateFaultFlags | qhrr0/app/hal/hardware/can/device_comm_manager.py:48-72 | A poll yields the status that the whole history of events determines. |
| Freshness.BestEffortCommManager.IsFresh | qhrr0/app/hal/hardware/can/device_comm_manager.py:78-80 | True if and only if there was a reception at a positive time and it is not older than the timeout. |
| Transactions.TransactionManager.MarkRx | qhrr0/app/hal/hardware/can/device_comm_manager.py:126-136 | Only the pending transaction learns of the response, and its event stays set exactly if everything expected and something at all has come. |
| Transactions.TransactionManager.IsDone | qhrr0/app/hal/hardware/can/device_comm_manager.py:144-149 | Done agrees with the event, save for a transaction that expects nothing and has received nothing. |
| ActuatorDriver.EveryFieldIsLast | qhrr0/app/hal/hardware/can/actuator/driver.py:97-127 | Each field of the full state is the last value any partial state gave it, and absent if none did. |
| ActuatorDriver.FeedbackIsLast | qhrr0/app/hal/hardware/can/actuator/driver.py:132-134 | The feedback time is the last positive one. |
| ActuatorDriver.EntryIsLast | qhrr0/app/hal/hardware/can/actuator/driver.py:129-130 | Each vendor-specific entry is the last value given under its key. |
| ActuatorDriver.ActuatorDriver.OnFrame | qhrr0/app/hal/hardware/can/actuator/driver.py:73-95 | Every delivered frame is counted once, as received, as decoding error or as ignored; the full state stays the merge of all partial states; only decoded frames reach the monitor and the transaction. |
| ActuatorDriver.ActuatorDriver.MergeState | qhrr0/app/hal/hardware/can/actuator/driver.py:97-136 | The field-by-field updates compute the merge, and the reception is reported with the feedback's time, or the clock's if it has none. |
| Gravity.DriverIsDashboard | qhrr0/app/hal/driver/imu/e2box_protocol.py:98-123 | For every quaternion and either setting of the normalisation switch the IMU driver's and the dashboard's gravity agree; it has length 1 if and only if they normalise, the quaternion is a unit one, or x and y are 0. |
| Gravity.ProjectionIs | qhrr0/app/robot_controller/subprocesses/dashboard/backend/can_decode.py:31-42 | The cross-product formulas for both component orders compute the same quadratic form. |
| Gravity.MatrixIsSwapped | qhrr0/app/robot_controller/subprocesses/task_controller/policy_runner.py:128-137 | The policy's rotation matrix gives the same vector with the first two axes exchanged. |
| Gravity.PolicyRotates | qhrr0/app/robot_controller/subprocesses/task_controller/policy_runner.py:124-137 | For a unit quaternion the policy's vector is the quaternion rotation of gravity into the body. |
| Gravity.PolicyAgrees | qhrr0/app/robot_controller/subprocesses/task_controller/policy_runner.py:124-137 | Policy and normalising driver agree up to that exchange if and only if the norm is at least 1e-12, or it is positive and x and y are 0. |
| Gravity.PolicyAgreesUnprepared | qhrr0/app/hal/driver/imu/e2box_protocol.py:69-72 | With the driver's normalisation switched off they agree if and only if the norm is 1, or it is positive and x and y are 0. |
| Gravity.SignIsIdle | qhrr0/app/hal/driver/imu/e2box_protocol.py:98-123 | A quaternion and its negative give the same gravity in all three implementations. |

## Left out

- Weak memory and torn word accesses: the protocols assume sequential consistency and atomic words.
- SeqLockProtocol and DoubleBufferProtocol: more than one writer at a time, which the classes do not support.
- `PlainBuffer` and `read_relaxed` under concurrency: nothing is promised there; the code documents torn reads. What the operator mailbox makes of them is `ControllerRuns.TimestampActsOnce`, with each field read whole.
- IEEE-754 rounding, NaN and infinities, except for the tolerance of `ZeroSet.Scaling`; the dashboard's check for a finite norm is always passed on reals.
- Gravity.PolicyAgrees: does not model the 32-bit floats that the policy stores its matrix in.
- ControlLoop.RobotController.Loop: failing sends, state publishing and the targets kept for display are not modelled; sent frames are collected in order.
- ControlLoop.RobotController.Run: it returns the sleeps instead of sleeping, and being told to stop is how many rounds it is given.
- ControlModeFsm.Fsm.constructor: a negative enabling duration, which the code refuses at construction, is excluded.
- ControllerRuns.EnablingIsBounded: the code reads `perf_counter` for pacing and `monotonic` for the mode; nothing bounds the interval if they drift apart.
- ZeroSet.BuildOperatorCommand: the module that defines the capacity constant is not part of this model; the capacity is the array length of 24.
- EchoFilter.TxEchoFilter.IsRecentTxEcho: calls are serialised; the gap between the client's send and the remembering, and iteration while another thread appends, are not modelled.
- TimeWindow.AddKeepsCover: says nothing once the clock has run backwards; `TimeWindow.PruneIsFilterExactly` says when a single pruning is still exact.
- SlidingWindows.BusLoadWindow.Record: the estimate of bits per frame is a parameter.
- Freshness.BestEffortCommManager.UpdateFaultFlags: locks are not modelled; each method is one step.
- Transactions: the blocking wait is the state of the event that it waits for.
- ActuatorDriver.ActuatorDriver.OnFrame: decoding a frame is a parameter, so which frames of one vendor decode is not stated; vendor-specific values are opaque.
- Decoding of MIT status, encoder data and MIT parameters, and the writing of MIT parameters: field extraction without an inverse in the code.
- CAN daemon and client (sockets, JSON lines, threads, queues), which rest on library guarantees.
- ctypes layouts and operating-system shared memory beyond a byte array of at least the total size.
- Process supervision, signals, simulator, monitor, web routes, front end and configuration loading.
- ONNX inference and observation assembly.
- The dashboard's mode names, which number the modes differently from the controller.
