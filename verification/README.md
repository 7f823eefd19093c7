# AqualinkD: a verified model of the RS485 codec, the timers and the panel programmers

AqualinkD listens and talks on the RS485 line of a pool controller. This project models the parts of it that are
state machines, linked structures, bounded buffers or arithmetic, and proves what they keep, in Dafny 4.11
(`dafny verify dfyconfig.toml`).

| file | what it models |
|---|---|
| `Wire.dfy` | bytes, framing constants, the checksums of both protocols |
| `Decoder.dfy` | `get_packet`: the array code, proved to run a small automaton |
| `Reference.dfy` | the same call as a search for marks, proved equal to the automaton on every byte stream |
| `Soundness.dfy` | what every returned frame is and which bytes it came from |
| `Encoder.dfy` | `send_jandy_command`, `send_pentair_command`, `_send_ack` |
| `Framing.dfy`, `RoundTrip.dfy`, `PentairRoundTrip.dfy` | round trips with their exact side conditions |
| `Sessions.dfy` | successive calls on one stream: which histories leave no trace on what follows |
| `Resync.dfy` | mixed traffic, senders to receiver, what corruption costs |
| `TimerList.dfy`, `TimerWorker.dfy` | the doubly linked timer list and the deadline loop of one worker |
| `CommandQueue.dfy` | the AllButton key queue, programming slot and resend counter |
| `NumericField.dfy`, `LightProgram.dfy` | the numeric-field loop and the light pulse programmer, each with its device |
| `Setpoints.dfy`, `Efficiency.dfy`, `DecimalField.dfy`, `JandyReplies.dfy`, `AddressSearch.dfy` | the smaller cores |
| `Division.dfy` | quotients and remainders by a variable divisor |

Code that works in place is modelled in place: `GetPacket` fills an array, the senders build packets in arrays, the
timer list is a heap structure with `prev`/`next` pointers, the queue shifts an array, and the loops are loops. Each such
method is tied by its postcondition to a function, and the theorems are about that function.

`GetPacket` is split in two: `Absorb` is the body of its loop for one byte, and the loop reads, absorbs, and tests for a
full buffer. In `TimerWorker` likewise `Wakened` is what the loop makes of one wake-up. The serial port is a finite byte
string; when it is used up the next wait times out and the call returns 0. The clock, thread wake-ups, LED states, packets
and what a panel shows after any keys are parameters.

## How the codec results fit together

`Decoder.GetPacket` runs `Decode`; `Reference.DecodeIsReference` says `Decode` equals `CallReference` on every stream,
where `CallReference` only searches: for the first DLE STX, the first DLE ETX after it, the first byte that completes
FF 00 FF A5, and the first byte that fills the buffer. Soundness, the round trips and resynchronisation are all
consequences of that equality, so a wrong branch in the decoder breaks it. What a checksum must be is said apart from the
checking code, in plain sums, by `CheckByteDecides` and `CheckBytesDecide`.

`Sessions.FreshExactly` says which histories are forgotten: everything that can follow x is answered as if x had never
been if and only if x leaves the automaton in its initial state, for every other state has a stream that tells it apart.
Behind an end mark that fails only when a Pentair frame has been left open (`EndMarkRecovers`), which `OpenExactly` puts in
terms of the marks on the wire. "No FF A5" and "260 calm bytes" are sufficient conditions derived from it.

## What the code does that one might not expect

Each of these is a proved statement about the code as it is.

- `AQSERR_2SMALL` is never returned: a four-byte frame always fails the checksum first (`FourBytesFail`, `DecodeSound`).
- A Pentair preamble is FF 00, one FF or more, and A5 (`PreambleText`); FF 00 FF FF A5 counts (`StretchedPreamble`).
- The Pentair preamble counter is not cleared when a preamble completes, so a command whose first byte is A5 restarts
  its own frame and is lost (`OpeningA5IsLost`; `PentairRoundTrips` has the exact condition, `Steady`).
- A Pentair command of more than 260 bytes goes out with a length byte that wrapped and a checksum written over its data;
  the part announced is received as a valid frame if its sum fits in two bytes and its body is `Steady`, and only then
  (`PentairRoundTrips`). From 257 bytes on the sum may not fit (`SumOverflows`).
- A Pentair frame that breaks off swallows what follows it, whole frames included (`OpenFrameSwallows`,
  `TwoFramesSwallowed`); 260 bytes without FF A5 and an end mark always end it, 259 may not (`RecoversFromAnything`,
  `CalmIsTight`).
- An FF in front of a Pentair frame does no harm; FF 00, FF 00 FF or a DLE and FFs do (`PentairFrameReturned`).
- `send_jandy_command` does not escape. A payload is received whole if and only if it and its checksum hold no DLE NUL,
  no DLE ETX and no preamble (`JandyRoundTrip`); the payload DLE NUL alone is lost (`DleNulIsLost`). With escaping every
  payload would survive but those in whose escaped body a preamble completes (`EscapedRoundTrip`, `PreambleIsLost`).
- `_send_ack` escapes only the command byte; an ack type of DLE is lost with command NUL or ETX, and only then.
- `send_pentair_command` writes the checksum in front of the two bytes reserved for it, so one NUL follows the frame.
- The comment at source/aq_serial.c:1110 says frames end in ETX DLE; the code ends them at DLE ETX.
- A numeric field exactly 100 steps from its target is entered twice, and no other is (`EnterOnceUnlessHundred`); beyond
  101 steps, or from a start not congruent to the target, the loop still reports success with the field elsewhere
  (`EndsAtTarget`). The wait for 7 is also satisfied by 70 (`SeventySeenForSeven`).
- A timer reset with negative minutes and no seconds asks the device off at once (`NegativeMinutesTurnOff`). Otherwise OFF
  is never early on the second-granular clock, and less than one second early in real time (`OffOnlyWhenDue`). A wait that
  fails asks the device off at once, however early (`FailureLeaves`).
- On a single-device panel a change of temperature units can break the order of the two setpoints
  (`UnitsChangeBreaksOrder`). A chlorinator request of 101, which the clamp lets through, becomes 100 (`SwgInFives`).
- `num2iaqtRSset` returns if and only if its number is above -10 (`CompletesExactly`): from -1593835529 to -10 its first
  loop does not end (`NegativeLoopEnds`), below that its second divides by zero (`DividesByZero`,
  `ZeroDivisorAtIntMin`). For -9 to -1 it writes a byte that is no digit, and the field reads as 0 (`FieldRoundTrip`).
- A request that directly follows another request is not noted (`RequestsNoted`).

## Model

| member | source | states |
|---|---|---|
| Wire.GenerateChecksum | source/aq_serial.c:323-332 | the loop computes the 8-bit sum of all but the last three bytes |
| Wire.CheckJandyChecksum | source/aq_serial.c:334-355 | accepts exactly a matching sum or the one tolerated message; CheckByteDecides says in plain sums which that is |
| Wire.CheckPentairChecksum | source/aq_serial.c:357-383 | accepts exactly a matching 16-bit sum; on complete frames both comparisons are the same |
| Wire.GeneratePentairChecksum | source/aq_serial.c:386-400 | stores the 16-bit sum at the announced end, high byte first, and leaves all other bytes alone |
| Decoder.Absorb | source/aq_serial.c:1149-1225 | one byte takes the six variables and the buffer from one automaton state to the next, inside the buffer, the two started flags never both set |
| Decoder.GetPacket | source/aq_serial.c:1085-1315 | the call returns the code, the frame bytes and the remaining stream the automaton gives |
| Reference.DecodeIsReference | source/aq_serial.c:1113-1285 | on every stream the automaton's reply and consumption equal those of the mark search |
| Reference.EndsFramed | source/aq_serial.c:1155-1170 | an unescaped stretch from a start mark to an end mark has at least four bytes and keeps both marks |
| Soundness.DecodeSound | source/aq_serial.c:1239-1314 | every positive result is 5 to 511 bytes, a checksummed frame of the protocol its first byte names; too-small never occurs |
| Soundness.CodeTells | source/aq_serial.c:1239-1314 | the number returned is the frame's length if and only if a frame is returned, 0 if and only if the line fell silent, -3 or -4 if and only if the checksum was wrong or the buffer full; no other code occurs |
| Soundness.FrameOrigin | source/aq_serial.c:1149-1225 | a Jandy frame is the stream between the first marks without escaping NULs; a Pentair frame is the stream verbatim behind the first preamble, or behind the last of a row of preambles that each restarted it; both end at the last byte consumed |
| Soundness.PreambleText | source/aq_serial.c:1198-1225 | a preamble completes only with FF 00, one FF or more, and A5 |
| Soundness.PreambleCompletes | source/aq_serial.c:1198-1225 | FF 00 FF A5 does complete the preamble behind any byte that is neither FF, 00 nor, outside a Pentair frame, a DLE |
| Soundness.DleDisarms | source/aq_serial.c:1198-1203 | outside a Pentair frame it does not directly behind a DLE |
| Encoder.SendJandyCommand | source/aq_serial.c:703-723 | the packet written is NUL DLE STX payload checksum DLE ETX |
| Encoder.SendPentairCommand | source/aq_serial.c:660-699 | the packet written, for 5 to 504 bytes, is NUL, preamble, as much of the command as its wrapped length byte announces, 16-bit checksum, and what is left of command and padding behind it |
| Encoder.WholeWire | source/aq_serial.c:676-696 | up to 260 bytes that is the whole command and one NUL, whatever the packet held before |
| Encoder.BytesSent | source/aq_serial.c:660-699 | byte by byte what is on the wire: the preamble, each byte of the command in its own place but the length and the two under the checksum, and a closing NUL |
| Encoder.SendAck | source/aq_serial.c:888-917 | the packet written, default or not, is the ack with a DLE command escaped after summing |
| Encoder.AckSum | source/aq_serial.c:893-906 | the checksum is 0x13 plus type plus command, which is 0x13 for the default packet |
| Framing.FrameDecodes | source/aq_serial.c:1113-1225 | behind any noise, and whatever follows, one call consumes exactly noise and frame and judges the unescaped frame |
| Framing.FirstPreambleAt | source/aq_serial.c:1198-1225 | a DLE disarms the preamble counter, so a preamble inside a frame depends on the frame's body alone |
| RoundTrip.JandyRoundTrip | source/aq_serial.c:703-723 | the frame comes back whole if and only if the payload is clean; otherwise anything returned is strictly shorter |
| RoundTrip.CleanFrameReturned | source/aq_serial.c:1149-1225 | a clean frame is returned whole from the middle of a stream |
| RoundTrip.CheckByteDecides | source/aq_serial.c:334-355 | behind any noise, for every payload and every check byte, the frame is returned if and only if the byte is 12 plus the sum of the payload modulo 256, or the message is the tolerated one; otherwise the call ends in a checksum error |
| RoundTrip.WrongByteRefused | source/aq_serial.c:334-355 | a frame with one payload byte changed, if still read as one frame, is refused unless it has become the tolerated message |
| RoundTrip.PayloadDelivered | source/aq_serial.c:703-723 | what a clean packet delivers, byte by byte |
| RoundTrip.EscapedRoundTrip | source/aq_serial.c:1149-1225 | behind any noise DLE-NUL escaping is undone and the frame returned if and only if no preamble completes in the escaped body |
| RoundTrip.UnescapeStuff | source/aq_serial.c:1149-1154 | removing NULs after DLEs inverts inserting them |
| RoundTrip.AckRoundTrip | source/aq_serial.c:888-917 | for all 65536 type and command pairs, the unescaped ack frame is received unless the type is DLE and the command NUL or ETX |
| PentairRoundTrip.PentairRoundTrips | source/aq_serial.c:660-699 | for commands of 5 to 504 bytes the announced part comes back if and only if its sum fits in two bytes and the preamble does not complete again inside it; the whole command if and only if its length also fits in a byte |
| PentairRoundTrip.PentairFrameAccepted | source/aq_serial.c:357-400 | the generated checksum of 5 to 256 bytes never overflows 16 bits and is accepted |
| PentairRoundTrip.CheckBytesDecide | source/aq_serial.c:357-383 | behind resting noise, for every steady body and every pair of check bytes, the frame is returned if and only if the pair is the sum of A5 and the bytes before it, high byte first; otherwise the call ends in a checksum error |
| PentairRoundTrip.CommandDelivered | source/aq_serial.c:660-699 | the frame received holds every announced byte of the command in its own place, the length in the fifth, and their sum |
| PentairRoundTrip.PentairFrameReturned | source/aq_serial.c:1172-1224 | behind noise, and whatever follows, a steady Pentair frame is returned whole if and only if the noise leaves the preamble counter at 0 or 1 |
| PentairRoundTrip.SteadyWithoutPair | source/aq_serial.c:1206-1224 | no opening A5 and no FF A5 is enough for steadiness |
| Sessions.SessionConcat | source/aq_serial.c:1085-1315 | the replies to a stream are those to its first part, then those its second part gets from the state the first left |
| Sessions.FreshExactly | source/aq_serial.c:1085-1315 | a history changes nothing about any stream that follows it if and only if it leaves the decoder in its initial state; every other state is told apart by some stream |
| Sessions.EndMarkRecovers | source/aq_serial.c:1149-1225 | behind an end mark, after any garbage, that is so if and only if no Pentair frame is open |
| Sessions.OpenExactly | source/aq_serial.c:1172-1225 | a Pentair frame is open if and only if, behind the last reply, a preamble completed ahead of any end mark and before the buffer was full |
| Sessions.OpenFrameSwallows | source/aq_serial.c:1172-1192 | a Pentair frame broken off behind its length byte swallows up to one byte more than announced, whatever frames they hold |
| Sessions.TwoFramesSwallowed | source/aq_serial.c:1172-1192 | two frames, heard without it, are lost to it |
| Sessions.CalmIsTight | source/aq_serial.c:1172-1192 | 259 calm bytes and an end mark may leave the frame open |
| Resync.TrafficReceived | source/aq_serial.c:1085-1315 | successive calls over frames of both protocols between noise return exactly those frames in order |
| Resync.SendersHeard | source/aq_serial.c:660-917 | any sequence of sender calls, each deliverable alone, is received as exactly those frames |
| Resync.RecoversAfterEndMark | source/aq_serial.c:1113-1225 | after any garbage and one end mark the following bytes are answered as if nothing had gone before if and only if no Pentair frame has been left open, which garbage without FF A5 never does; then all traffic is received, in order, behind the garbage's own replies |
| Resync.AtMostOneFrameLost | source/aq_serial.c:1113-1225 | of the traffic before a stretch of corruption and behind the Jandy frame that ends it nothing is lost, again if and only if the stretch leaves no Pentair frame open |
| Resync.SendersHeardAgain | source/aq_serial.c:660-917 | behind any history that leaves no trace, every sender call that would round-trip alone is heard |
| Resync.RecoversFromAnything | source/aq_serial.c:1113-1225 | after any garbage at all, Pentair preambles and half frames included, 260 calm bytes and an end mark are enough for all that follows to be read as if nothing had gone before |
| Resync.Causal | source/aq_serial.c:1113-1170 | a settled call depends on no byte beyond those it consumed |
| Resync.SessionSound | source/aq_serial.c:1239-1314 | every reply of every session is an error code or a valid frame |
| TimerList.Timers.Find | source/aq_timer.c:33-46 | returns the node of the button's timer, or none exactly when there is none |
| TimerList.Timers.StartTimer | source/aq_timer.c:93-138 | resets a running timer or appends one; links stay mutually inverse |
| TimerList.Timers.ClearTimer | source/aq_timer.c:79-90 | sets the duration to zero and nothing else |
| TimerList.Timers.RestampTimer | source/aq_timer.c:211-254 | the worker stamps the start of its own entry, which ListHoldsLatestStamp reads back, and changes no other |
| TimerList.Timers.Splice | source/aq_timer.c:287-305 | all four cases remove exactly that node and keep the links inverse from the head |
| TimerList.Timers.Unlink | source/aq_timer.c:284-307 | the worker's own entry leaves the list, the others keep their order |
| TimerList.ListHoldsLiveTimers | source/aq_timer.c:93-133 | after any operations the list holds exactly the live buttons, each once |
| TimerList.EntryBorn | source/aq_timer.c:93-133 | every live timer was created by a start that found none for its button |
| TimerList.ListInStartOrder | source/aq_timer.c:122-133 | of any two entries the earlier one was created by an earlier start |
| TimerList.ListHoldsLatestDuration | source/aq_timer.c:98-104 | each live entry holds the duration last asked for |
| TimerList.ListHoldsLatestStamp | source/aq_timer.c:119-254 | each live entry holds the time of the last restamp since the timer was created, or else of the start that created it |
| TimerList.SecondsLeft | source/aq_timer.c:61-77 | what is shown as left is what remains of the duration last asked for, counted from that time, both modulo 2 to the 32 |
| TimerList.ResetShowsFull | source/aq_timer.c:98-104 | ten minutes, reset to ten after nine, show as ten |
| TimerList.Timers.GetTimerLeftSec | source/aq_timer.c:61-77 | returns the seconds shown for the button, 0 without a timer |
| TimerWorker.Worker.TimerWorker | source/aq_timer.c:203-278 | for every script of wake-ups the loop leaves, waits and asks OFF as the step function says, and sets exactly the deadlines it says, one a wait |
| TimerWorker.PossibleMeansDeadlines | source/aq_timer.c:241-247 | the runs the theorems speak of are exactly those in which every wait that times out does so no earlier than the deadline set for it |
| TimerWorker.OffOnlyWhenDue | source/aq_timer.c:206-278 | OFF only after the duration in force has passed, or at once for a stop with negative minutes; never after a cancel to zero |
| TimerWorker.LeavesOnTime | source/aq_timer.c:214-260 | at every wait the deadline is the latest start plus the duration in force |
| TimerWorker.TimeLeftIsShown | source/aq_timer.c:61-77 | the seconds shown as left are the distance to the deadline |
| TimerWorker.UntouchedTimerEnds | source/aq_timer.c:218-240 | without signals at most 61 waits, whatever the duration, and then OFF |
| TimerWorker.PromptRun | source/aq_timer.c:203-260 | woken promptly, it sets exactly these deadlines: a minute before the end, then every second; and it leaves the loop exactly when the duration is over |
| TimerWorker.FailureLeaves | source/aq_timer.c:256-278 | a wait that fails ends the loop at once, and OFF is asked unless the duration in force was zero or the device is off |
| CommandQueue.AllButton.Push | source/allbutton_aq_programmer.c:52-65 | appends unless twenty keys are waiting |
| CommandQueue.AllButton.PopCommand | source/allbutton_aq_programmer.c:74-125 | byte handed out and new channel state, resends, slot and shifted queue included |
| CommandQueue.QueueIsFifo | source/allbutton_aq_programmer.c:52-113 | taken plus waiting keys equal the accepted keys, at most twenty waiting |
| CommandQueue.PushAccepted | source/allbutton_aq_programmer.c:52-65 | over every history a key is accepted if and only if fewer than twenty accepted keys are still waiting |
| CommandQueue.PopServes | source/allbutton_aq_programmer.c:91-113 | over every history a pop that is no resend hands out the first key accepted and not yet taken if and only if the packet is a status, programming is off and there is one, the key waiting in the slot if and only if it is a status, programming is on and there is one, and nothing otherwise |
| CommandQueue.PollsServe | source/allbutton_aq_programmer.c:107-113 | n status packets outside programming mode, none answered by a resend, hand out the next n waiting keys, or all |
| CommandQueue.FortyPollsEmpty | source/allbutton_aq_programmer.c:78-113 | whatever the history, resends included, forty of them hand out every accepted key |
| CommandQueue.KeyResent | source/allbutton_aq_programmer.c:78-122 | a key sent is sent again four packets later if and only if it is ENTER, RIGHT, LEFT or MENU and none of the four is a message |
| CommandQueue.SlotServesInOrder | source/allbutton_aq_programmer.c:94-99 | the slot hands out what was put there, in order, each at most once |
| CommandQueue.EveryPopIsProper | source/allbutton_aq_programmer.c:78-122 | a pop resends if and only if a menu key went out four pops before with no other since and no message at any of the four; other bytes answer a status packet, and the queue is not drained in programming mode |
| CommandQueue.FreshSendBetweenResends | source/allbutton_aq_programmer.c:82-89 | between two resends a fresh menu key is sent |
| CommandQueue.CounterAlwaysTracks | source/allbutton_aq_programmer.c:78-122 | the counter is how many pops ago the unanswered key was sent |
| NumericField.SetNumericField | source/allbutton_aq_programmer.c:134-182 | keys sent and result are those of the round function, against any panel |
| NumericField.ConfirmedOrCancelled | source/allbutton_aq_programmer.c:145-179 | against any panel the rounds end with the target read or the last round over, and success, or with one CANCEL directly behind the first arrow after which the text shown does not begin with that of the number expected, or with one CANCEL in the first round without an answer |
| NumericField.SucceedsExactly | source/allbutton_aq_programmer.c:145-181 | success if and only if the first round and every arrow before the target and before the last round are answered, and each such arrow took |
| NumericField.StuckFieldCancelled | source/allbutton_aq_programmer.c:147-151 | target 80, a field stuck at 78: RIGHT, CANCEL, failure |
| NumericField.BeginsWithText | source/allbutton_aq_programmer.c:157-171 | a wait for a number of either sign accepts exactly the numbers whose printed text begins with its own |
| NumericField.Converges | source/allbutton_aq_programmer.c:145-179 | from a congruent start at most 99 steps away: that many arrows one way, one ENTER, field at target |
| NumericField.EndsAtTarget | source/allbutton_aq_programmer.c:174-181 | success is always reported, but the field is at the target if and only if congruent and at most 101 steps away |
| NumericField.HundredStepsEnterTwice | source/allbutton_aq_programmer.c:168-178 | exactly 100 steps sends ENTER twice |
| NumericField.EnterOnceUnlessHundred | source/allbutton_aq_programmer.c:145-179 | from every start ENTER goes out once, except twice if and only if the start is congruent and exactly 100 steps away |
| NumericField.SteppingPanelSteps | source/allbutton_aq_programmer.c:157-166 | there is such a panel for every start and step |
| NumericField.AlwaysStops | source/allbutton_aq_programmer.c:145-179 | whatever a panel shows after whatever keys, the loop stops within 101 rounds, on ENTER or CANCEL |
| NumericField.BeginsWithDigits | source/allbutton_aq_programmer.c:157-171 | a wait for a number accepts exactly the numbers whose digits begin with its own |
| NumericField.SuccessReadsTarget | source/allbutton_aq_programmer.c:152-179 | against any panel, success before the last round allowed means that the target was read |
| LightProgram.Button.SetProgram | source/allbutton_aq_programmer.c:705-804 | the light ends as the path function says, with either pulse loop |
| LightProgram.Button.Pulse | source/allbutton_aq_programmer.c:770-795 | both pulse loops make the same odd number of presses |
| LightProgram.AdvanceStepsMeaning | source/allbutton_aq_programmer.c:729-731 | the C remainder expression is the forward distance |
| LightProgram.AdvanceLands | source/allbutton_aq_programmer.c:725-742 | advancing reaches the program if and only if the recorded program was the real one |
| LightProgram.AdvanceByNothing | source/allbutton_aq_programmer.c:725-742 | a light recorded as in the program asked for is not touched |
| LightProgram.ResetLands | source/allbutton_aq_programmer.c:751-764 | the reset path reaches it exactly under the stated pause settings |
| LightProgram.LightLands | source/allbutton_aq_programmer.c:725-795 | with both pauses set every light ends on in the program asked for, on either path |
| LightProgram.OffRequestEndsOff | source/allbutton_aq_programmer.c:713-722 | a request for no program leaves the light off, in its program, and untouched if it was off |
| Setpoints.RoundToNearest | source/aq_programmer.c:126-128 | the nearest multiple |
| Setpoints.SwgInFives | source/aq_programmer.c:219-237 | chlorinator percentages end in 0 to 100 as the multiple of 5 nearest to the clamped request, and as 100 exactly from 98 on |
| Setpoints.RpmInFives | source/aq_programmer.c:131-155 | pump speeds end in range and in steps of 5 |
| Setpoints.ClampIsNearest | source/aq_programmer.c:164-232 | the result is the allowed value nearest to the request |
| Setpoints.ClampedTo | source/aq_programmer.c:164-232 | the clamp in numbers, for every kind, unit and panel |
| Setpoints.PoolStaysAbove | source/aq_programmer.c:174-180 | the first temperature stays above a known second one exactly when that is below the maximum |
| Setpoints.SpaStaysBelow | source/aq_programmer.c:191-197 | the second stays below a known first one exactly when that is above the minimum |
| Setpoints.RequestsKeepSafe | source/aq_programmer.c:157-232 | any sequence of requests keeps known values in range and ordered, with the allowed interval never empty |
| Setpoints.SafePairsReachable | source/aq_programmer.c:157-232 | every safe pair can be asked for |
| Setpoints.UnitsChangeBreaksOrder | source/aq_programmer.c:167-173 | a change of units breaks the order |
| Efficiency.QuadraticReproduced | source/aq_panel.c:2178-2184 | the target curve through three points of a quadratic is that quadratic |
| Efficiency.HitsBaselines | source/aq_panel.c:2178-2184 | the curve passes through each baseline |
| Efficiency.Reads100WhenOnCurve | source/aq_panel.c:2154-2191 | the reading is 100 percent if and only if the power is the curve's |
| Efficiency.ReadingExactly | source/aq_panel.c:2154-2191 | the reading is the measured watts per cubed speed as a percentage of the curve's |
| Efficiency.NoReading | source/aq_panel.c:2155-2165 | unknown if and only if the profile is incomplete; zero for a complete one whose pump is not running well |
| DecimalField.Magnitude | source/iaqtouch.c:248-253 | for every number above -10 finds the digit count and highest power of ten without overflow, 1 and 1 below zero |
| DecimalField.Num2IaqtRSset | source/iaqtouch.c:240-270 | for every number for which it returns, writes the digits, or one other byte below zero, and the padding, six bytes or more |
| DecimalField.FieldRoundTrip | source/iaqtouch.c:240-270 | reading digits up to the first other byte gives the number back, and 0 for -9 to -1; up to 999999 takes six bytes |
| DecimalField.FieldInjective | source/iaqtouch.c:262-267 | no two numbers share a field, padding digit or not |
| DecimalField.PaddingBytes | source/iaqtouch.c:262-267 | behind the digits stand NULs, and 30 in the fifth place of numbers below 1000 |
| DecimalField.NegativeLoopEnds | source/iaqtouch.c:250-253 | for a negative number the first loop ends if and only if the number is above -10 or below -1593835529 |
| DecimalField.CompletesExactly | source/iaqtouch.c:240-270 | for every int the function returns if and only if the number is above -10 |
| DecimalField.DividesByZero | source/iaqtouch.c:254-260 | for a number not above -1593835530 the second loop comes to divide by zero |
| JandyReplies.Line.ProcessJandyPacket | source/devices_jandy.c:82-222 | new memory and handler for every packet |
| JandyReplies.Tracked | source/rs_devices.h:80-90 | a destination is tracked only as an enabled class that owns it |
| JandyReplies.AddressBlocks | source/rs_devices.h:80-90 | the addresses of each class |
| JandyReplies.RemembersLastRequest | source/devices_jandy.c:84-147 | interest and address are set together, and exactly when the last packet opened a request |
| JandyReplies.RepliesAttributed | source/devices_jandy.c:89-133 | a From-handler runs if and only if the packet goes to the master directly after a request, for its class and address |
| JandyReplies.MissingReplies | source/devices_jandy.c:135-147 | a device is reported missing exactly when its request is followed by a packet elsewhere |
| JandyReplies.RequestsNoted | source/devices_jandy.c:148-213 | a To-handler runs exactly on packets that open a request |
| JandyReplies.TouchStatusRead | source/devices_jandy.c:190-194 | the AqualinkTouch reader runs exactly on packets to its four addresses, but the one read elsewhere, that do not directly follow a request |
| AddressSearch.Finder.FindUnusedAddress | source/aqualinkd.c:799-821 | counters, last ID and result for every packet |
| AddressSearch.NothingFound | source/aqualinkd.c:808-817 | nothing is returned exactly while no address has three unanswered probes |
| AddressSearch.FirstToThree | source/aqualinkd.c:799-821 | the address returned is the first to reach three |
| AddressSearch.CountsUntilFound | source/aqualinkd.c:803-817 | the counters are the numbers of unanswered probes |

## Left out

- Serial device handling: opening, `select` errors, EAGAIN retries, `tcdrain`, frame delay and logging; all bytes of the
  stream are available at once and a finished stream is a timeout.
- The builds with `SEND_CMD_WITH_TRAILING_NUL` and `DUMMY_READER`.
- PentairRoundTrips: commands shorter than 5 bytes, for which the code sums bytes it never wrote, and longer than 504,
  which do not fit the packet array, are outside the statement.
- RecoversFromAnything: bounds what an open Pentair frame swallows in bytes, not in frames.
- UntouchedTimerEnds: waits that end early without a signal (spurious wake-ups) are not modelled; the code takes them for
  signals.
- OffOnlyWhenDue: durations are changed only by the signals that announce them; a change stored while the worker is not
  waiting, whose broadcast is lost, is not modelled, nor is a duration whose minutes times 60 exceed a C int.
- Timer list operations are atomic; the code has no lock around them. The failure branch of `pthread_create` and the
  worker's wait for the button to come on are not modelled.
- SetNumericField: a wait compares the numbers' text, but the label before them is taken to match, and the number is read
  as shown; the code would lose a minus sign.
- SetProgram: the LED always shows whether the light is on, and a number of programs below one is excluded.
- FlowEfficiency: over the reals; rounding of floats and the infinities of a division by zero (here `Undefined`) are not.
- Num2IaqtRSset: numbers of -10 and below are excluded, since the code does not return for them (CompletesExactly); what
  it has written by then is not modelled.
- Setpoints reported by the panel itself bypass the check and are not part of the runs.
- The bodies of the device handlers, the AqualinkTouch status reader, menu navigation, panel text, the other emulations,
  scheduling, configuration, MQTT and web.
