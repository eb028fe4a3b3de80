# Verification of the AGV controller and its libraries

Dafny models of the hardest logic in this firmware for an automated guided vehicle, with proofs.
`dafny verify dfyconfig.toml` checks everything.

## What is modelled

**The control protocol** (usr/application/agvcp.c). A stop-and-wait protocol over UDP, used in both
directions at once: while the vehicle waits for an acknowledgement it also receives commands.

* `AgvcpFrame` is the wire format. `Agvcp` is the code, a class `Connection` whose loops are proved equal
  to recursive functions over a script of what the socket delivers; `AgvcpLaws` proves what those
  functions keep for every script, `AgvcpAnswers` what the vehicle's own messages say, and `AgvcpHealth`
  when a connection is lost and recovered.
* `AgvcpProtocol` is the whole system as a state machine: the protocol task, the vehicle task, the
  receive queue, a lossy, duplicating FIFO network and a stop-and-wait controller. A run is any list of
  steps; a step that is not possible changes nothing; a time-out may happen at any moment. It reacts to
  messages with the same function that the class is proved against.
* `AgvcpDelivery` proves exactly-once, in-order delivery of commands and parameter writes in every
  reachable state. `AgvcpSender` proves that sequence numbers count completed sends, when an
  acknowledgement answers the message in flight, and that actions are dispatched behind their own
  acknowledged confirmations. `AgvcpWitness` constructs runs (put together in `AgvcpRuns`) that show that
  messages can be carried out and where these results end. `AgvcpRefinement` ties the two models
  together: the class's exchanges, drains and turns of the main loop are runs of the state machine.

What the environment must do is stated in `Honest` and `WellFormed`: the controller's sequence numbers
increase strictly between 0 and 0xFFFFFFFF (exclusive), its message types differ from the vehicle's,
payloads begin with a vehicle name, parameter writes hold an id and a value, and commands declare their
true length. Why 0 and 0xFFFFFFFF are excluded is proved in `AgvcpLaws`. The sender's results are for
fewer than 2^32 completed sends.

**The command pipeline** (usr/application/agv.c). `AgvCommands` is the code, a class `Agv`; the motion
controller's answers are parameters. Over every run with atomic handlers, `AgvCommandLaws` proves the
order of commands and where each of them is, `AgvPaths` the locking, release and history of way points
and the chaining of moves, and `AgvWork` the work state, the charger and the reports. `AgvRaces` settles
what remains of the order and of the points when the handlers interleave. `AgvEndToEnd` puts the protocol
and the pipeline together, from the controller to the motion controller.

`BlockPools` proves, for any interleaving between kernel calls, that the block pools are conserved.
`OsKernel` shows that the kernel's ring-buffer queue and linked free list
(ucosii/uCOS-II/Source/os_q.c, os_mem.c) do what the other modules take for granted.

**The libraries.** `LibMath` and `Lcg`: the random number generator has full period 2^31 (a Hull-Dobell
argument). `LibStrFmt`, `LibStrParse`, `LibStrRoundTrip`, `LibStrSearch` (with `LibAscii`): printing,
parsing, comparing and searching; the parser meets the strtol() DESCRIPTION of IEEE Std 1003.1, 2004
Edition. `CpuBits` and `CpuTime`: bit counts, interrupt-disable-time measurement and timestamps.
`LibMem`: endian copies. `Arithmetic` holds the number facts they share.

Machine words are integers with their wrap-around written out; masks and shifts of unsigned words are
quotients and remainders.

## What was found

* The comment at usr/application/agvcp.c:908-912 worries that later commands may overtake buffered ones.
  Commands never do (`AgvcpDelivery.ExactlyOnceInOrder`). Parameter reads and writes overtake commands
  exactly when one is in hand or queued (`AgvcpDelivery.OvertakesExactly`), and wherever one follows a
  command, among messages that the main loop can take, there is a run in which it does (`AgvcpWitness.ParamOvertakesCommand`).
* A message that is given up and sent again with other contents carries the same number, so a late
  acknowledgement of the first ends the second. A type of message is safe from this exactly when it is
  sent with unlimited retries (`AgvcpWitness.AcksAreTrueExactly`). The code sends registrations once
  (agvcp.c:515, 531) and all other acknowledged messages without limit (agvcp.c:663, 679, 700, 718).
* Commands with more than 256 octets of payload are ignored by the main loop, whose buffer is shorter
  (`AgvcpDelivery.CommandInMainLoop`). They are only accepted while the vehicle waits for an
  acknowledgement (`AgvcpDelivery.CommandDuringWait`).
* The number printer accepts paddings that the parser does not undo
  (`LibStrRoundTrip.PaddingRoundTrips`); a letter of the other case is even read as a digit.
* A command that has waited is lost when the motion controller is still busy
  (`AgvCommandLaws.LostAfterWaiting`, and a run in `AgvRaces.WaitingCommandIsLost`), and one of more than
  255 octets does not keep its length in the queue (`AgvCommandLaws.StoredIntact`).
* If the two tasks' handlers interleave, a new command can overtake the one being issued
  (`AgvRaces.SplitIssueOvertakes`, and a run in `AgvRaces.SecondTurnGoesFirst`), and a way point being
  checked is lost when the queue fills meanwhile (`AgvRaces.SplitCheckLosesPoint`).
* Commands with the action numbers 0x11 and 0x12 are taken for news of the connection and do nothing
  (`AgvEndToEnd`, usr/application/agv.c:396-403).
* A connection can be lost only by messages with a limited number of tries, and the code sends none of those
  while it is up (`AgvcpHealth.UnlimitedIsNeverLost`).
* The work state says more than the code knows: an invalid waiting move, or a point reached after STOP, shows a
  moving vehicle (`AgvWork.WorkStateFollows`), and a backward move issued at once does not show one
  (`AgvWork.SameWorkExactly`).
* Resetting the current maximum of the interrupt-disable time can lose one
  (`CpuTime.ResetLosesExactly`).
* lib_math.h:162-171 quotes a period of at least 2^32; the code's modulus gives 2^31. The description of
  `Str_ParseNbr_Int32S` names the unsigned maximum on overflow (lib_str.c:3038); the code returns the
  signed one (lib_str.c:3231-3237). The models follow the code.

## Model

| member | source | states |
|---|---|---|
| `AgvcpFrame.TxMsg` | usr/application/agvcp.c:352-367 | a message that would reach 512 octets with its header is refused; any other is handed to the socket as type, sequence number (big-endian) and payload |
| `AgvcpFrame.RxMsg` | usr/application/agvcp.c:309-350 | nothing is received without a whole header; otherwise type, sequence number and the payload cut to the caller's buffer |
| `AgvcpFrame.ReverseCopy` | usr/include/common/tools.h:17-18 | the octets arrive in reverse order at the destination and no other octet changes |
| `AgvcpFrame.DecodeOfEncode` | usr/application/agvcp.c:309-367 | round trip: every frame is received as it was sent, up to the receiver's buffer, and unchanged exactly when its payload fits |
| `AgvcpFrame.EncodeLayout` | usr/application/agvcp.c:352-367 | on the wire stand the type, the number, both big-endian, and the payload, in that order |
| `AgvcpFrame.EncodeOfDecode` | usr/application/agvcp.c:309-367 | the other round trip: every packet of at least eight octets is the encoding of the frame read from it |
| `AgvcpFrame.HtonlValue` | usr/include/common/tools.h:17-18 | the four octets of a word, read big-endian, are the word |
| `Agvcp.Connection.constructor` | usr/application/agvcp.c:1009-1045 | initial state: rxseq all ones, txseq 0, four free blocks, empty queue |
| `Agvcp.Connection.TransmitMsg` | usr/application/agvcp.c:352-367 | only messages that fit reach the socket |
| `Agvcp.Connection.BufferMsg` | usr/application/agvcp.c:741-776 | either a free block moves to the end of the action queue, or nothing changes (no block, too long, or queue full) |
| `Agvcp.Connection.MsgProcess` | usr/application/agvcp.c:817-906 | refines the reaction function on every type: length check, duplicate test, reply before or after the effect, and the verdict that decides rxseq |
| `Agvcp.Connection.WaitAck` | usr/application/agvcp.c:369-420 | acknowledged exactly when one of the first 100 polls answers the message; every earlier poll addressed to this vehicle is processed in order, the others dropped |
| `Agvcp.Connection.SendMsgLocked` | usr/application/agvcp.c:424-471 | equals the recursive exchange (0 retries means for ever), and the error counter, the connection state and the LOST and RECOVERY notices follow its outcome |
| `Agvcp.Connection.SendWithRetries` | usr/application/agvcp.c:440-456 | the RETRY loop: rounds of transmission and waiting until an acknowledgement or the last retry |
| `Agvcp.Connection.DispatchOne` | usr/application/agvcp.c:786-811 | one pass of the drain loop: accept, confirm, dispatch, return the block |
| `Agvcp.Connection.ProcessBufferedMsg` | usr/application/agvcp.c:778-815 | the drain loop ends with an empty queue or with the block being confirmed in hand, and a connection in error recovers with the first action dispatched |
| `Agvcp.Connection.Turn` | usr/application/agvcp.c:933-954 | one turn of the main loop: process one received message, then drain; a connection in error recovers when either succeeds |
| `AgvcpLaws.RetransmissionIsHarmless` | usr/application/agvcp.c:844-849 | a retransmitted command is answered alike and has no other effect, if and only if its sequence number is not 0 |
| `AgvcpLaws.FreshConnectionAlias` | usr/application/agvcp.c:1018-1019 | on a fresh connection a command is acknowledged and lost if and only if its number is 0xFFFFFFFF |
| `AgvcpLaws.ListeningOnlyQueues` | usr/application/agvcp.c:369-420 | while waiting for an acknowledgement the action queue only grows at its end, blocks are conserved, nothing is dispatched, and txseq stands still |
| `AgvcpLaws.SendEndsAtAck` | usr/application/agvcp.c:424-471 | a send completes exactly at the first acknowledgement of its message, txseq advances then and only then, and it gives up after 100 polls for every retry |
| `AgvcpLaws.DrainKeepsOrder` | usr/application/agvcp.c:778-815 | draining dispatches accepted actions in order; none is lost, repeated or overtaken, and blocks are conserved |
| `AgvcpLaws.DrainConfirmsEach` | usr/application/agvcp.c:798-808 | the poll made last before each dispatch acknowledged that action's own confirmation, one after the other |
| `AgvcpAnswers.AnswerSays` | usr/application/agvcp.c:838-902 | every answer, first or repeated, has the message's type and number and the vehicle's name; of a command nothing else, of a write what was to be written, of a read the parameter and the value read; and just which messages are answered |
| `AgvcpAnswers.AnswerFields` | usr/application/agvcp.c:864-895 | the same word by word, when the message holds the fields |
| `AgvcpAnswers.ConfirmationNames` | usr/application/agvcp.c:703-719 | a confirmation is twelve octets: the vehicle's name, and the type and number of the command it confirms |
| `AgvcpHealth.JudgedExactly` | usr/application/agvcp.c:454-467 | the exact conditions for losing and recovering a connection |
| `AgvcpHealth.HealthFollows` | usr/application/agvcp.c:454-467 | over any exchanges from a new connection on, the counter is the number of messages given up, losses and recoveries take turns, and nothing is lost before the sixth |
| `AgvcpHealth.SixthIsLost` | usr/application/agvcp.c:456-461 | the sixth message given up is a loss |
| `AgvcpHealth.UnlimitedIsNeverLost` | usr/application/agvcp.c:450-461 | messages with unlimited retries and heartbeats never lose a connection |
| `AgvcpProtocol.SplitIsProcess` | usr/application/agvcp.c:741-906 | taking a block and posting it as two steps composes to the message handler |
| `AgvcpProtocol.StepKeepsDiscipline` | usr/application/agvcp.c:473-497 | buffering happens only under the send mutex, and the confirmation in flight is that of the block in hand, with unlimited retries |
| `AgvcpProtocol.StepKeepsPool` | usr/application/agvcp.c:741-812 | in every interleaving each action block is free, queued, in hand or being filled |
| `AgvcpProtocol.PostSucceeds` | usr/application/agvcp.c:766-773 | the queue never refuses a block obtained from the pool |
| `AgvcpProtocol.ArrivesExactly` | usr/application/agvcp.c:142-170 | a packet joins the receive queue if and only if it has at most 512 octets and fewer than four are waiting |
| `AgvcpProtocol.FewPacketsWait` | usr/application/agvcp.c:142-170 | over every run no more than four packets wait |
| `AgvcpDelivery.LengthAgrees` | usr/application/agvcp.c:831-837 | in the main loop the length check passes if and only if the payload fits the loop's 256 octets |
| `AgvcpDelivery.CommandInMainLoop` | usr/application/agvcp.c:831-862 | a longer command leaves everything as it was; a new one that fits takes a block as soon as one is free |
| `AgvcpDelivery.CommandDuringWait` | usr/application/agvcp.c:391-407 | during a wait a new command takes a block if and only if one is free and the command fits it |
| `AgvcpDelivery.BareNameDuringWait` | usr/application/agvcp.c:391 | a message that is nothing but a name is dropped during a wait |
| `AgvcpDelivery.DuplicateReaction` | usr/application/agvcp.c:844-849 | a repeated message changes nothing on the vehicle and is at most answered again |
| `AgvcpDelivery.FreshReaction` | usr/application/agvcp.c:817-906 | a new message is refused without a trace, leaves one block to be posted, or is accepted with exactly one reply and effect |
| `AgvcpDelivery.HearKeepsRx` | usr/application/agvcp.c:844-862 | the controller moves on only past a message that was accepted |
| `AgvcpDelivery.ExactlyOnceInOrder` | usr/application/agvcp.c:741-906 | in every reachable state, commands dispatched, in hand and queued are exactly those of the messages accepted, in order; likewise the parameter writes; and the controller is at most one message away |
| `AgvcpDelivery.AnswersAreTrue` | usr/application/agvcp.c:838-902 | in every reachable state the answers under way are true answers to accepted messages, and only messages with this vehicle's name were accepted |
| `AgvcpDelivery.DispatchedIsPrefix` | usr/application/agvcp.c:778-815 | in every reachable state the dispatched commands are a prefix of the controller's commands |
| `AgvcpDelivery.NothingPending` | usr/application/agvcp.c:778-815 | in every reachable state all accepted commands have been dispatched if and only if none is in hand or queued |
| `AgvcpDelivery.OvertakesExactly` | usr/application/agvcp.c:908-912 | the comment's worry, settled for every run: a message that is no command is truly answered and takes effect in the step that accepts it, and all earlier commands have then been dispatched if and only if none is in hand or queued |
| `AgvcpSender.MatchIsAck` | usr/application/agvcp.c:386-390 | what matches the message in flight is an acknowledgement of a frame the controller got, and that frame is the one in flight or an attempt given up before |
| `AgvcpSender.SequenceCountsSends` | usr/application/agvcp.c:424-471 | over every run, txseq is the number of completed sends, the k-th of them carried number k, and each but the heartbeats was answered |
| `AgvcpSender.AckAnswersMessage` | usr/application/agvcp.c:386-456 | the controller got the very frame that completed, unless a different one of that type was given up at that number |
| `AgvcpSender.UnlimitedSendsAreHeard` | usr/application/agvcp.c:450-456 | if all sends of a type are made with unlimited retries, as those of action-over, flag-point and error reports are, the controller got every one that completed |
| `AgvcpSender.ConfirmedThenDispatched` | usr/application/agvcp.c:703-719 | over every run, the k-th completed confirmation names this vehicle and the type and number of the controller's k-th command, no two are alike, the controller got each, and the dispatched commands are those confirmed but for at most the last |
| `AgvcpWitness.PrefixIsCarriedOut` | usr/application/agvcp.c:913-964 | whatever acceptable messages the controller sends, some run carries all of them out and ends with nothing under way |
| `AgvcpWitness.ParamOvertakesCommand` | usr/application/agvcp.c:908-912 | wherever a command is followed by a parameter read or write there is a run in which that is answered, and the write applied, while the command is still being confirmed |
| `AgvcpWitness.LateAckEndsNewerMessage` | usr/application/agvcp.c:443-456 | for every type and every limited number of tries, a run in which the acknowledgement of a message given up ends a newer one the controller never got |
| `AgvcpWitness.AcksAreTrueExactly` | usr/application/agvcp.c:443-456 | in all runs every completed message of a type reached the controller, if and only if the type is sent with unlimited retries |
| `AgvcpRefinement.ExchangeIsRun` | usr/application/agvcp.c:424-471 | sending a message, as the code does it with whatever arrives meanwhile, is a run of the state machine |
| `AgvcpRefinement.DrainIsRun` | usr/application/agvcp.c:778-815 | so is draining the action queue |
| `AgvcpRefinement.TurnIsRun` | usr/application/agvcp.c:936-956 | so is a turn of the main loop: receiving at most one message, buffering a command in it, and then draining |
| `AgvCommands.Agv.LockPoint` | usr/application/agv.c:679-693 | the point joins the queue unless 64 points are waiting |
| `AgvCommands.Agv.LockPoints` | usr/application/agv.c:657-668 | the loop locks all points of a move in order, 0 read as any tag, and ends with the last point |
| `AgvCommands.Agv.IssueCommand` | usr/application/agv.c:602-672 | charging never reaches the motion controller, switches the charger and reports the action as over; a reset is asked for; a move that does not start where the last one ended is invalid; an accepted move locks one point for every 550 mm of its distance and sets the last point |
| `AgvCommands.Agv.ProcessActionCmd` | usr/application/agv.c:292-380 | STOP and commands past an empty queue are tried at once; a busy answer queues the command, STOP in front; an empty pool loses it; a wrong start point is reported; any other answer, even a failure, sets the work state |
| `AgvCommands.Agv.IssueNextCmd` | usr/application/agv.c:424-492 | a finished action issues the head of the queue; a reached point does so only for STOP and straight moves, and otherwise puts it back in front; the result is 0, the action issued, or an error for a wrong start point, which is also reported |
| `AgvCommands.Agv.ProcessMotionEvent` | usr/application/agv.c:549-570 | a finished action or a reached point lets the queue go on, and the work state follows what was issued |
| `AgvCommands.Agv.CheckAndReleasePoint` | usr/application/agv.c:695-720 | the head is released if it is the tag seen or the wildcard, put back otherwise |
| `AgvCommands.WordIsBigEndian` | usr/include/common/tools.h:17 | parameter words are read big-endian |
| `AgvCommandLaws.StoredIntact` | usr/application/agv.c:335-337 | a queued command keeps its length if and only if that is at most 255, and then its parameters; its action if and only if it fits one octet |
| `AgvCommandLaws.StoredExactly` | usr/application/agv.c:335-337 | what the queue keeps of any command: one octet each of action and length, that many octets of the parameters, and behind them what the block held before |
| `AgvCommandLaws.QueuedMoveIsSame` | usr/application/agv.c:335-337 | a move within 255 octets has the same start, points and end after waiting |
| `AgvCommandLaws.CommandOrder` | usr/application/agv.c:292-344 | over every run, commands other than STOP are issued and wait in arrival order, and are all that arrived if and only if none was lost |
| `AgvCommandLaws.NoCommandVanishes` | usr/application/agv.c:327-344 | over every run, each command that arrived was issued, waits or was lost, and only one of these, as commands are numbered by arrival; it is still the command that arrived or what the queue stored of it |
| `AgvCommandLaws.ArrivesExactly` | usr/application/agv.c:309-344 | a new command is issued if it is taken on at once, waits, STOP in front, if it has to and a block is free, and is lost in all other cases |
| `AgvCommandLaws.LostOnArrival` | usr/application/agv.c:327-347 | a new command is lost exactly when refused for another reason than being busy, or when it has to wait and no block is free |
| `AgvCommandLaws.LostAfterWaiting` | usr/application/agv.c:432-468 | a waiting command is lost exactly when it is issued and refused, even for being busy |
| `AgvRaces.SplitIssueOvertakes` | usr/application/agv.c:318-323 | without atomic handlers, any number of new commands between taking a command from the queue and issuing it: the order of arrival is lost if and only if it is issued and a new one was issued meanwhile, which takes it to have been the only one queued |
| `AgvRaces.SingleOvertakes` | usr/application/agv.c:318-323 | a single new command is issued meanwhile if and only if the one taken was the only one and the motion controller takes the new one |
| `AgvRaces.SecondTurnGoesFirst` | usr/application/agv.c:432-440 | a run from power-on in which the second command is issued before the first |
| `AgvRaces.WaitingCommandIsLost` | usr/application/agv.c:434-449 | a run from power-on of two handlers in which a waiting command is neither issued nor kept |
| `AgvRaces.SplitCheckLosesPoint` | usr/application/agv.c:702-717 | without atomic handlers, points locked between taking a point for a check and putting it back: it is in front again if and only if all of them fit, and otherwise it is lost |
| `AgvPaths.TagKeepsPoints` | usr/application/agv.c:695-720 | an empty way-point queue is reported as such exactly when it is empty, and anything but a match leaves it unchanged |
| `AgvPaths.MatchReleases` | usr/application/agv.c:709-718 | a locked point is released if and only if it is the tag seen or the wildcard, and the answer says so |
| `AgvPaths.PathIsReleased` | usr/application/agv.c:695-720 | after every run, as many tags as there are locked points empty the queue if and only if each is its point or the point is the wildcard; then each has released its own |
| `AgvPaths.WayPointHistory` | usr/application/agv.c:655-720 | over every run, the points of all issued moves are those released followed by those locked, while the queue never fills; released points matched the tag or were the wildcard; no locked point is 0 |
| `AgvPaths.MovesAreChained` | usr/application/agv.c:605-669 | over every run the last point is never 0, consecutive moves among the issued commands join or one end is the wildcard, and a move is refused as invalid exactly when it does not join |
| `AgvPaths.MoveLocksByDistance` | usr/application/agv.c:655-669 | a move over w millimetres locks one point for every 550 of them, in the order of the message, and none if w is negative; it ends at the last of these, or at its start if there is none |
| `AgvWork.IssuingExactly` | usr/application/agv.c:609-653 | the result for each kind of command, in terms of the words of the message |
| `AgvWork.HandedOverExactly` | usr/application/agv.c:602-672 | a command handed over is issued if and only if the result is OK, and switches the charger, asks for a reset, and reports an action over or an invalid move exactly as its action and the result say |
| `AgvWork.NothingHandedOver` | usr/application/agv.c:430-492 | a step that hands nothing over issues nothing and shows nothing |
| `AgvWork.ResultTells` | usr/application/agv.c:424-492 | the result is the action handed over, the error for an invalid move, or 0 |
| `AgvWork.ChargerFollows` | usr/application/agv.c:609-620 | over every run the charger is on if and only if the last charging command issued was to start, and the actions reported as over are the charging commands issued, in order |
| `AgvWork.ResetsFollow` | usr/application/agv.c:622-628 | over every run as many resets are asked for as reset commands were handed over |
| `AgvWork.ErrorsFollow` | usr/application/agv.c:346-352 | over every run as many errors are reported as invalid moves were handed over |
| `AgvWork.WorkStateFollows` | usr/application/agv.c:353-374 | over every run the work state is the one set by the last command tried that was neither busy nor invalid, or the last motion event, whichever came later |
| `AgvWork.SameWorkExactly` | usr/application/agv.c:560-570 | a command issued at once and the same issued from the queue leave the same work state if it is one of the six that have one, and otherwise only if that state was shown before |
| `AgvEndToEnd.CommandsEndToEnd` | usr/application/agv.c:394-408 | over every run of protocol and pipeline together, whatever is issued, waits or was lost is a command that the controller sent, unchanged within 255 octets; its number is its position among the controller's commands, so that, STOP aside, commands are issued in the order in which they were sent; every dispatched one is in exactly one place |
| `AgvEndToEnd.AllIssuedExactly` | usr/application/agv.c:394-408 | over every such run, the commands issued or waiting are, STOP aside, all that the controller has to send, if and only if all of them have been dispatched and none was lost |
| `AgvEndToEnd.CallOfMessage` | usr/application/agvcp.c:798-800 | action, length and parameters of a dispatched command are the words and octets of the controller's message |
| `BlockPools.PoolIsConserved` | usr/application/agv.c:239-269 | in every interleaving of kernel calls every block is free, queued or held once, none is leaked, and no post of a held block is refused, checked or not |
| `BlockPools.NothingLeaks` | usr/application/agvcp.c:142-170 | when nothing is under way, free and queued blocks are all the blocks |
| `BlockPools.HolderHasRoom` | usr/application/agv.c:462-482 | whoever holds a block can post it, push it back or return it |
| `BlockPools.BlockComesBack` | usr/application/agv.c:434-482 | a block that is filled, posted, taken, pushed back and finished with leaves everything as it was |
| `BlockPools.QueueIsInOrder` | usr/application/agv.c:434-482 | posts go behind the others, urgent ones before them, and the first is taken |
| `OsKernel.OsQueue.constructor` | ucosii/uCOS-II/Source/os_q.c:128-182 | a new queue is empty |
| `OsKernel.OsQueue.Post` | ucosii/uCOS-II/Source/os_q.c:603-641 | a waiting task gets the message, and otherwise the ring buffer appends it unless it is full; either way it becomes the last of all messages given and stored |
| `OsKernel.OsQueue.PostFront` | ucosii/uCOS-II/Source/os_q.c:666-705 | the same, but it becomes the next message to be given |
| `OsKernel.OsQueue.Accept` | ucosii/uCOS-II/Source/os_q.c:63-106 | it gives out the oldest message, or none when empty |
| `OsKernel.OsQueue.Pend` | ucosii/uCOS-II/Source/os_q.c:445-461 | it gives out the oldest message, or the task waits, which happens only with an empty queue |
| `OsKernel.OsQueue.Query` | ucosii/uCOS-II/Source/os_q.c:814-855 | it tells the number of messages |
| `OsKernel.OsMem.constructor` | ucosii/uCOS-II/Source/os_mem.c:61-135 | the linked list threads all blocks |
| `OsKernel.OsMem.Get` | ucosii/uCOS-II/Source/os_mem.c:157-192 | a block that was free and no longer is; none exactly when none was |
| `OsKernel.OsMem.Put` | ucosii/uCOS-II/Source/os_mem.c:338-365 | a held block becomes free, and is never refused |
| `OsKernel.NotAllFree` | ucosii/uCOS-II/Source/os_mem.c:355-359 | while a block is held, not all are free, so the full test cannot fire |
| `LibMath.RandGenerator.SetSeed` | ucosii/uC-LIB/lib_math.c:175-183 | the seed becomes the given one |
| `LibMath.RandGenerator.Init` | ucosii/uC-LIB/lib_math.c:146-149 | the seed becomes 1 |
| `LibMath.RandGenerator.Rand` | ucosii/uC-LIB/lib_math.c:216-230 | the n-th call returns the n-th number of the sequence and keeps it as seed |
| `LibMath.WrapIsHarmless` | ucosii/uC-LIB/lib_math.c:274-282 | the wrapped 32-bit product and sum, taken modulo 2^31, equal the exact ones |
| `LibMath.DrawIsOrbit` | ucosii/uC-LIB/lib_math.c:274-282 | the numbers drawn follow the exact congruential recurrence |
| `LibMath.LowBitsPeriod` | ucosii/uC-LIB/lib_math.h:162-171 | the low k bits return to the seed's exactly every 2^k draws |
| `LibMath.DrawsCoincide` | ucosii/uC-LIB/lib_math.c:216-230 | two draws agree if and only if their positions differ by a multiple of 2^31 |
| `LibMath.FullPeriod` | ucosii/uC-LIB/lib_math.c:216-230 | from any 32-bit seed every number below 2^31 is drawn at exactly one of the positions 1 to 2^31 |
| `Lcg.SumDivisibility` | ucosii/uC-LIB/lib_math.h:162-171 | 1 + a + ... + a^(n-1) has as many factors of two as n, for multipliers like the library's |
| `Lcg.OrbitReturns` | ucosii/uC-LIB/lib_math.h:162-171 | the recurrence returns to its start exactly after multiples of 2^k steps |
| `Lcg.OrbitCovers` | ucosii/uC-LIB/lib_math.h:162-171 | every residue occurs within the first 2^k positions |
| `LibStrFmt.FmtNbrInt32` | ucosii/uC-LIB/lib_str.c:3472-3637 | the buffer holds exactly padding, sign and digits in the documented order, or question marks exactly when the arguments are invalid or the number does not fit; nothing else is written |
| `LibStrFmt.FmtNbrInt32U` | ucosii/uC-LIB/lib_str.c:2059-2079 | the same without sign, the rest of the buffer untouched |
| `LibStrFmt.FmtNbrInt32S` | ucosii/uC-LIB/lib_str.c:2276-2307 | the absolute value with its sign, the minimum value included |
| `LibStrFmt.FillBackwards` | ucosii/uC-LIB/lib_str.c:3594-3630 | the loop that writes from the end produces the layout |
| `LibStrFmt.CountDigits` | ucosii/uC-LIB/lib_str.c:3546-3553 | repeated division counts the digits of the numeral |
| `LibStrFmt.LeadTestIsExact` | ucosii/uC-LIB/lib_str.c:3519-3540 | the wrap-around test finds exactly the padding characters that are digits of the base |
| `LibStrFmt.NumeralDenotes` | ucosii/uC-LIB/lib_str.c:3594-3612 | the digits denote the number and have no superfluous leading zero |
| `LibStrFmt.NumeralIsCanonical` | ucosii/uC-LIB/lib_str.c:3594-3612 | any digit string without superfluous zeros is the numeral of what it denotes |
| `LibStrFmt.FitsExactly` | ucosii/uC-LIB/lib_str.c:3546-3570 | a number fits a width if and only if it is below the base to the power of the width, less one for a sign |
| `LibStrFmt.LaidOut` | ucosii/uC-LIB/lib_str.c:3594-3630 | zeros stand behind the sign, other padding before it |
| `LibAscii.DigitsInOrder` | ucosii/uC-LIB/lib_str.c:3594-3612 | digit characters are those of the alphabet, in order and in the letter case asked for |
| `LibAscii.LowerCases` | ucosii/uC-LIB/lib_ascii.h:760 | exactly the capital letters have a lower case of their own |
| `LibAscii.SpacesAndPrintable` | ucosii/uC-LIB/lib_ascii.h:616-645 | white space and printable characters by their codes |
| `LibStrParse.ParseNbrInt32` | ucosii/uC-LIB/lib_str.c:3867-4069 | refines the parse function; base 1 and bases above 36 convert nothing |
| `LibStrParse.SkipBasePrefix` | ucosii/uC-LIB/lib_str.c:3946-4004 | the switch that steps past 0 and 0x, backing off when no digit follows |
| `LibStrParse.ParseDigits` | ucosii/uC-LIB/lib_str.c:4006-4056 | the digit loop stops at the first other character and returns the exact value, saturated at 2^32-1 |
| `LibStrParse.MergeDigit` | ucosii/uC-LIB/lib_str.c:4029-4042 | one digit: the accumulator is exact or the overflow flag is set for good |
| `LibStrParse.OverflowTestIsExact` | ucosii/uC-LIB/lib_str.c:101-139 | threshold table before the product and wrap check after the sum together detect overflow exactly |
| `LibStrParse.ParseNbrInt32U` | ucosii/uC-LIB/lib_str.c:2999-3013 | the unsigned wrapper |
| `LibStrParse.ParseNbrInt32S` | ucosii/uC-LIB/lib_str.c:3216-3240 | the signed wrapper clamps |
| `LibStrParse.ParseMeetsStandard` | ucosii/uC-LIB/lib_str.c:3914-4063 | for every string and base the parser finds the longest subject sequence of the strtol() DESCRIPTION, its saturated magnitude and its sign; if there is none, zero and the start of the string |
| `LibStrParse.SignedIsExactClamped` | ucosii/uC-LIB/lib_str.c:3216-3240 | the signed result is the exact signed value clamped to 32 bits |
| `LibStrRoundTrip.PrintedIsParsed` | ucosii/uC-LIB/lib_str.c:3472-4069 | every printed number with absent, blank or zero padding is parsed back |
| `LibStrRoundTrip.SignedRoundTrip` | ucosii/uC-LIB/lib_str.c:2276-2307 | every 32-bit signed number survives printing and parsing in every base, and the parse stops at the terminator |
| `LibStrRoundTrip.PrintThenParse` | ucosii/uC-LIB/lib_str.c:3216-3240 | the same for the two functions run on one buffer |
| `LibStrRoundTrip.PaddingRoundTrips` | ucosii/uC-LIB/lib_str.c:3502-3540 | of the paddings that the printer accepts, the parser undoes all numbers and widths if and only if the padding is absent, blank or zero |
| `LibStrRoundTrip.PaddedZeroIsLost` | ucosii/uC-LIB/lib_str.c:3914-4063 | with any other padding, zero at width three is not read back |
| `LibStrSearch.StrLenN` | ucosii/uC-LIB/lib_str.c:279-296 | the length up to the terminator or the limit |
| `LibStrSearch.StrCmpN` | ucosii/uC-LIB/lib_str.c:861-937 | the difference at the first place where the strings differ or end, 0 if there is none within the limit |
| `LibStrSearch.StrCmpIgnoreCaseN` | ucosii/uC-LIB/lib_str.c:1138-1222 | the comparison of the lower-cased strings |
| `LibStrSearch.ComparesIsCmp` | ucosii/uC-LIB/lib_str.c:861-937 | the comparison's result is determined by that |
| `LibStrSearch.CmpAntisymmetric` | ucosii/uC-LIB/lib_str.c:861-937 | exchanging the strings negates the result |
| `LibStrSearch.CmpTransitive` | ucosii/uC-LIB/lib_str.c:861-937 | the sign is transitive |
| `LibStrSearch.CmpZero` | ucosii/uC-LIB/lib_str.c:861-937 | the result is 0 exactly for strings equal up to the limit |
| `LibStrSearch.StrStrN` | ucosii/uC-LIB/lib_str.c:1865-1931 | the first occurrence within the limit, NULL exactly when there is none, the start for an empty search string |
| `CpuBits.TableIsCorrect` | ucosii/uC-CPU/cpu_core.c:96-114 | every table entry is the number of leading zeros of its index |
| `CpuBits.LeadZerosUnique` | ucosii/uC-CPU/cpu_core.c:1074-1142 | the position of the top bit determines the count |
| `CpuBits.TrailZerosUnique` | ucosii/uC-CPU/cpu_core.c:1541-1625 | the lowest set bit determines the count |
| `CpuBits.CntLeadZeros08` | ucosii/uC-CPU/cpu_core.c:1210-1233 | leading zeros of every 8-bit word |
| `CpuBits.CntLeadZeros16` | ucosii/uC-CPU/cpu_core.c:1278-1308 | leading zeros of every 16-bit word |
| `CpuBits.CntLeadZeros32` | ucosii/uC-CPU/cpu_core.c:1352-1396 | leading zeros of every 32-bit word |
| `CpuBits.CntLeadZeros64` | ucosii/uC-CPU/cpu_core.c:1440-1512 | leading zeros of every 64-bit word |
| `CpuBits.LowestSetBit` | ucosii/uC-CPU/cpu_core.c:1635-1640 | a word and its negation share exactly the lowest set bit |
| `CpuBits.LowestBitMask` | ucosii/uC-CPU/cpu_core.c:1635-1640 | the mask's leading zeros tell the word's trailing ones |
| `CpuBits.CntTrailZeros08` | ucosii/uC-CPU/cpu_core.c:1722-1750 | trailing zeros of every 8-bit word |
| `CpuBits.CntTrailZeros16` | ucosii/uC-CPU/cpu_core.c:1827-1855 | trailing zeros of every 16-bit word |
| `CpuBits.CntTrailZeros32` | ucosii/uC-CPU/cpu_core.c:1932-1960 | trailing zeros of every 32-bit word |
| `CpuBits.CntTrailZeros64` | ucosii/uC-CPU/cpu_core.c:2037-2065 | trailing zeros of every 64-bit word |
| `CpuTime.IntDisMeas.MeasStart` | ucosii/uC-CPU/cpu_core.c:836-843 | entering a section counts it, and reads the timer only for an outermost one |
| `CpuTime.IntDisMeas.MeasStop` | ucosii/uC-CPU/cpu_core.c:1023-1042 | leaving it updates both maxima, only for an outermost one |
| `CpuTime.IntDisMeas.MaxCalc` | ucosii/uC-CPU/cpu_core.c:2346-2359 | total less overhead, not below zero |
| `CpuTime.IntDisMeas.MaxCurGet` | ucosii/uC-CPU/cpu_core.c:755-768 | the current maximum less the overhead |
| `CpuTime.IntDisMeas.MaxGet` | ucosii/uC-CPU/cpu_core.c:798-811 | the overall maximum less the overhead |
| `CpuTime.IntDisMeas.MaxCurReset` | ucosii/uC-CPU/cpu_core.c:713-725 | returns the current maximum and clears it, whatever interrupts measure in between |
| `CpuTime.IntDisMeas.Init` | ucosii/uC-CPU/cpu_core.c:2212-2242 | the overhead is the whole number nearest to the mean of the empty sections, unless their sum wraps around |
| `CpuTime.MeanIsNearest` | ucosii/uC-CPU/cpu_core.c:2237-2238 | the rounded mean is off by half a count at most |
| `CpuTime.OverheadOfEqual` | ucosii/uC-CPU/cpu_core.c:2229-2238 | if the empty sections all take the same time, that is the overhead |
| `CpuTime.MeasurementIsMaximum` | ucosii/uC-CPU/cpu_core.c:836-1042 | over every well-nested run after initialisation the nest counter is the depth, the overall maximum is that of all completed outermost sections, and the current one that of those since the last reset |
| `CpuTime.ResetLosesExactly` | ucosii/uC-CPU/cpu_core.c:719-722 | a reset loses a maximum, which neither this reading nor the next shows, if and only if a longer outermost section is completed between its read and its clear |
| `CpuTime.LengthIsExact` | ucosii/uC-CPU/cpu_core.c:1023-1042 | the wrap-safe length is exact for sections shorter than one timer wrap |
| `CpuTime.Timestamp.constructor` | ucosii/uC-CPU/cpu_core.c:2132-2168 | the accumulator starts at 0 with the timer's value |
| `CpuTime.Timestamp.Get` | ucosii/uC-CPU/cpu_core.c:449-473 | the accumulated deltas, modulo the timestamp's width |
| `CpuTime.AccumulatedPlusMissed` | ucosii/uC-CPU/cpu_core.c:531-555 | the deltas are the elapsed ticks less the timer wraps missed between reads |
| `CpuTime.TimestampIsElapsed` | ucosii/uC-CPU/cpu_core.c:449-473 | the timestamp is the elapsed time if and only if the missed wraps make up whole timestamp wraps |
| `CpuTime.CloseReadsAreExact` | ucosii/uC-CPU/cpu_core.c:449-473 | reads closer together than one timer wrap miss nothing |
| `LibMem.CopyGetIntuBig` | ucosii/uC-LIB/lib_mem.h:917-930 | for every size and disjoint buffers, the little-endian value of the destination is the big-endian value of the source, which is unchanged |
| `LibMem.CopyGetIntuLittle` | ucosii/uC-LIB/lib_mem.h:931-937 | the value is copied as it is |
| `LibMem.CopySetIntuBig` | ucosii/uC-LIB/lib_mem.h:1086 | the same macro read the other way |
| `LibMem.GetThenSet` | ucosii/uC-LIB/lib_mem.h:1086 | decoding and encoding again restores the octets |
| `LibMem.CopyGetInt08uBig` | ucosii/uC-LIB/lib_mem.h:770 | agrees with the loop at size 1 |
| `LibMem.CopyGetInt16uBig` | ucosii/uC-LIB/lib_mem.h:772-773 | agrees with the loop at size 2 |
| `LibMem.CopyGetInt32uBig` | ucosii/uC-LIB/lib_mem.h:775-778 | agrees with the loop at size 4 |
| `LibMem.GettersReadValues` | ucosii/uC-LIB/lib_mem.h:529-547 | the sums of shifted octets are the values in either order |
| `LibMem.SetInt32uBig` | ucosii/uC-LIB/lib_mem.h:630-633 | the value is stored big-endian and nothing else changes |
| `LibMem.SetInt32uLittle` | ucosii/uC-LIB/lib_mem.h:642-645 | the value is stored little-endian and nothing else changes |
| `LibMem.SetInt16uBig` | ucosii/uC-LIB/lib_mem.h:627-628 | the value is stored big-endian and nothing else changes |
| `LibMem.SwapMatchesOctets` | ucosii/uC-LIB/lib_mem.h:418-421 | the mask-and-shift swap exchanges the two readings of four octets |
| `LibMem.OctetsOfValue` | ucosii/uC-LIB/lib_mem.h:639-645 | octets are determined by their value |
| `LibMem.ValueOfOctets` | ucosii/uC-LIB/lib_mem.h:639-645 | the octets of a value denote it |

## Left out

- Sockets, task creation, delays, tracing, heartbeat timing and the Wi-Fi driver: input and output. A poll is a parameter, and waiting is a count of polls.
- Agvcp.Connection.WaitAck: what another task does to the action queue during a wait is not in this contract; the state machine interleaves it.
- AgvcpDelivery.ExactlyOnceInOrder: payloads shorter than the vehicle name are excluded, as the code then compares left-over buffer contents.
- AgvcpProtocol.StepKeepsDiscipline: connection, registration and disconnection phases are not told apart; a message may be sent in any of them.
- AgvCommandLaws.CommandOrder: each handler is one step; what happens otherwise is the subject of AgvRaces.
- AgvEndToEnd.CommandsEndToEnd: handing a dispatched command to the pipeline is one step with its dispatch.
- AgvCommands.Agv.ProcessMotionEvent: the error bits and the error work state (agv.c:572-592) and the report to the controller are not modelled; the reports' delivery is that of the protocol.
- AgvCommands.Agv.IssueCommand: a system reset is counted; the restart itself is not modelled.
- BlockPools.PoolIsConserved: the contents of blocks are not modelled; a block handed directly to a waiting task is a post followed at once by that task's accept.
- OsKernel.OsQueue.Pend: the suspended task's own continuation is not modelled; neither is the partition block's alignment in OsMem.
- The controller and `motionctrl_cmd` are the environment; status-to-wire mappings are one-branch facts.
- Floating-point steering compensation, the sliding filter, and the value of a parameter as a float.
- Null pointers and strings that wrap around the address space, in lib_str.c; character codes are unsigned.
- The alternative macros of lib_mem.h for big-endian hosts and 16-bit data, and its 8-bit GET and SET forms.
- CPU name functions and `CPU_Init`: easy members.
