# Verified model of SweetDawn

SweetDawn is a service that drives an AML005 wake-up light over Bluetooth and serves local clients over a
Unix socket. This project models its stateful cores in Dafny and proves what they promise. Everything is
checked by `dafny verify dfyconfig.toml`; nothing in it is executed.

| File | What it models |
|---|---|
| `Common.dfy` | bytes, options, powers of two |
| `Protocol.dfy` | the frame format and an unbounded, one-byte-at-a-time scanner; chunking, conservation, completeness |
| `Requests.dfy` | building request frames in place, reading them back, noisy streams of requests |
| `Parser.dfy` | the bounded in-place parser, proved to refine the scanner |
| `Transport.dfy` | the receive loop on the RFCOMM link, with everything read and delivered as history |
| `Reception.dfy` | receiving from a socket whose bytes come in at given times, the looks before a request and the wait for a reply, as functions |
| `Socket.dfy` | the receive loop on such a socket, proved to do what these functions say |
| `TrackerState.dfy` | the two-alarm tracker as a state and its steps |
| `Tracker.dfy` | the tracker as the program keeps it (arrays and flags), proved to perform these steps |
| `TrackerRuns.dfy` | what holds of the tracker in every run |
| `TrackerSteps.dfy` | what one step does to the watch, the queue of messages and what subscribers are sent |
| `Link.dfy` | the link supervisor and the request/reply matcher, against a world of timed bytes |
| `Lines.dfy` | splitting a byte stream into lines |
| `IpcServer.dfy` | client buffers, request order and broadcasts of the local server |
| `CommandTree.dfy` | the mutable forest of commands, as an arena |
| `Registry.dfy` | finding a command by its path |
| `NextAlarm.dfy` | the next trigger of an alarm |
| `AlarmRecords.dfy` | alarm records and the update of a single setting |

What the operating system decides is an input: the results of `poll`, `recv` and `send` are given turn by
turn, the clock never goes back, and an exchange with the device is answered, lost on the way, or answered in
vain, or by a late frame of an earlier exchange. Spontaneous messages may arrive during any exchange.

In `Link.dfy` a connection brings bytes at given times and may be lost at a given time, and every system call may
come late by any time. Receiving is the function `Reception.Receive`, in which a read gives the bytes that are there,
at most 256. `Socket.ReceiveOn` proves that `aml_receive`, the loop of `Transport.dfy` with a 259-byte buffer, returns,
reads and delivers on such a socket exactly what this function says.

Where the code and its comments disagree, the model follows the code:

- `protocol_build_request` accepts 249 argument bytes, but from 248 on the length byte wraps and the parser
  never returns the frame; 247 is exactly the limit of the round trip (`Requests.RequestIsExtracted`).
- The header of the server allows lines of 4096 bytes, '\n' not included; the code cuts a client that sends
  4096 bytes before '\n' (`IpcServer.LimitIsOneLess`).
- After a stop requested through SweetDawn, nothing changes at once: each alarm keeps its state until a poll is
  answered, and is then idle exactly if that poll does not say that it rings (`TrackerRuns.StopIsNotSnooze`).
- A presumed snooze lasts one minute more than the snooze duration.
- The events announce a change of an alarm state, but a broadcast may repeat the pair subscribers have. Handling the
  queue does so exactly when some message contradicts the present state of its alarm and the last messages restore
  it (`TrackerRuns.QueueBroadcasts`); a poll never does (`TrackerRuns.PollBroadcasts`).
- A late reply can be taken for the answer to a new request. This happens exactly when a frame with the expected code
  comes in before the request is sent and is not read early (`Reception.ReplyAge`, `Link.SweetDawn.Request`). There are
  three ways: 16 frames were read early; or it comes in after the last look at the socket; or that look read 256 bytes
  that completed no frame, and it is behind them, even if it is the only frame there (a run of this kind is
  `Link.LateReplyIsTaken`).
- `aml_receive` reads the clock itself, and looks at the socket at least once. So the time left for a reply is counted
  from a later moment than the deadline was, and what is there at that first look is read even if the time is over. A
  reply that is there in time is missed if the loop gets to it too late (`Reception.AwaitSucceeds`).
- After a request that timed out, its late reply can answer the next query of an alarm, or acknowledge the next write,
  so that a change is reported before the device has made it. A reported change is one only if the write is served,
  and is surely of that setting alone if the record read is the present one (`AlarmRecords.ChangeSetting`).
- The waits between connection attempts are those of the periodic task. `sweetdawn_connect` is public and checks
  none of them; "in every run" in `Link.AttemptsAreSpaced` leaves out runs in which a caller connects before time.
- The hour and minute of an alarm are not checked when read from the device. If together they pass the end of
  a day, the next trigger announced is not one (`NextAlarm.FindNext`).

## Model

| member | source | states |
|---|---|---|
| Protocol.JudgeFindsFrame | src/aml/protocol.c:280-349 | every prefix that passes the structural checks of a frame is recognised as that complete frame |
| Protocol.JudgeMeans | src/aml/protocol.c:280-349 | a candidate is judged complete iff a frame starts there, and kept undecided iff the bytes looked at are also the start of some longer frame |
| Protocol.Judge | src/aml/protocol.c:280-349 | a candidate judged complete is a well-formed frame within the bytes; an undecided one is shorter than 259 bytes |
| Protocol.Next | src/aml/protocol.c:226-379 | when no frame is extracted at most 258 bytes remain; what is extracted is a well-formed frame and nothing is duplicated |
| Protocol.NextMeans | src/aml/protocol.c:226-379 | the parser gives up exactly the positions where no frame starts or may still start, and takes or waits for the first other one |
| Protocol.ResidueIsUndecided | src/aml/protocol.c:226-379 | bytes stay behind only if a frame may still start there |
| Protocol.NextExtends | src/aml/protocol.c:226-379 | more bytes never change a frame already extracted, nor what scanning the waiting bytes again gives |
| Protocol.ScanSplits | src/aml/protocol.c:226-379 | a stream may be cut anywhere: frames and residue are those of scanning it in one piece |
| Protocol.SessionIsScan | src/aml/transport.c:301-415 | feeding chunks and draining after each one is scanning the pending bytes and all the chunks together |
| Protocol.ChunkingIndependence | src/aml/transport.c:301-415 | two ways of cutting the same stream give the same frames in the same order and the same residue |
| Protocol.ScanConservation | src/aml/protocol.c:196-379 | the frames emitted are disjoint slices of the stream, in order, each well formed, and the residue is a suffix after them |
| Protocol.ScanIsComplete | src/aml/protocol.c:226-379 | a well-formed frame anywhere in the stream is emitted, starts inside an emitted one, or lies in the residue |
| Requests.XorBits | src/aml/protocol.c:121-122 | the exclusive or of two numbers of n bits has n bits and is zero exactly when they are equal |
| Requests.XorBitByBit | src/aml/protocol.c:121-122 | each bit of the result is set iff it differs in the two numbers |
| Requests.XorAllBitByBit | src/aml/protocol.c:116-124 | each bit of the checksum is set iff it is set in an odd number of bytes |
| Requests.Checksum | src/aml/protocol.c:116-124 | the loop computes the exclusive or of the covered bytes |
| Requests.BuildRequest | src/aml/protocol.c:29-136 | a frame is built iff there are at most 249 arguments and room for it; it is byte for byte the documented layout, and nothing else is written |
| Requests.StatusRequest | src/aml/protocol.h:31 | the status request is the documented example, byte for byte |
| Requests.RequestIsFrame | src/aml/protocol.h:15-31 | the frame built is well formed iff it has at most 247 arguments |
| Requests.RequestIsExtracted | src/aml/protocol.c:71-95 | the parser recovers a built frame, whatever follows, iff it has at most 247 arguments |
| Requests.RequestPositions | src/aml/protocol.h:15-31 | code, arguments and checksum are at their documented positions, and the covered bytes with the checksum cancel out |
| Requests.FrameIsRequest | src/aml/protocol.h:15-31 | conversely, every well-formed request frame with consistent inner length and checksum is the one built from its code and arguments |
| Requests.StreamRoundTrip | src/aml/protocol.c:29-379 | requests separated by noise without FE EF are scanned back as exactly those frames, in order |
| Requests.ChunkedStreamRoundTrip | src/aml/transport.c:301-415 | the same through any chunking, with every code and argument recovered by position |
| Parser.SkipToPair | src/aml/protocol.c:250-279 | jumping to the first FE EF pair gives what giving up one byte at a time would give |
| Parser.ProtocolParser.Feed | src/aml/protocol.c:158-186 | all the bytes are appended, or none when they do not fit in 1024 |
| Parser.ProtocolParser.Consume | src/aml/protocol.c:196-212 | exactly the first bytes are removed, the others keep their order |
| Parser.ProtocolParser.Align | src/aml/protocol.c:239-272 | afterwards the buffer starts with FE EF, or nothing can be extracted and at most a final FE is kept; what will be extracted is unchanged |
| Parser.ProtocolParser.Examine | src/aml/protocol.c:278-349 | the branch taken on the candidate agrees with the structural verdict: complete iff a frame starts there, incomplete iff one may still start |
| Parser.ProtocolParser.NextFrame | src/aml/protocol.c:226-379 | the bounded in-place parser extracts what the unbounded scanner extracts and keeps what it keeps, which may still be the start of a frame; a frame too large for the output is an error and stays |
| Transport.AmlConnection.Accumulate | src/aml/transport.c:403-414 | a read of at most 256 bytes always fits: the buffer holds at most 514 bytes and never saturates |
| Transport.AmlConnection.Extract | src/aml/transport.c:307-328 | with a 259-byte output no extraction error occurs, and nothing to extract means every frame received was delivered |
| Transport.AmlConnection.React | src/aml/transport.c:356-414 | each answer of the socket ends the call with its error or only adds the bytes read |
| Transport.AmlConnection.Receive | src/aml/transport.c:278-416 | over any sequence of socket events the frames delivered are those of scanning all the bytes read, in order; it looks at the socket only for want of a frame; the first fault ends the call, nothing is looked at after the delay, and a timeout needs a look and the whole delay; no error is reported as 0 |
| Reception.EndIsLeast | src/aml/protocol.c:226-379 | a frame can be extracted exactly from its last byte on |
| Reception.TimesInOrder | src/aml/protocol.c:226-379 | frames come in in order of time |
| Reception.AfterRead | src/aml/transport.c:356-401 | a read takes bytes that are there, at least one, and fewer than 256 only if no more are there |
| Reception.Hear | src/aml/transport.c:301-415 | the call takes one frame if the bytes it has read hold a further one, and none otherwise; a timeout comes when the time is over |
| Reception.LookFindsNone | src/core/sweetdawn.c:205-211 | a look without waiting that gives no frame leaves no complete frame read, and unread only what was not there or is behind 256 bytes |
| Reception.EarlyEnds | src/core/sweetdawn.c:199-224 | unless all looks give a frame or the link is lost, the last one gives none |
| Reception.EarlyIsAll | src/core/sweetdawn.c:199-224 | when fewer than 16 frames are read early, they are exactly those that end within the bytes read |
| Reception.HearGathers | src/aml/transport.c:301-415 | a frame is returned exactly if it can be read in time, and no more is read than it takes |
| Reception.AwaitSucceeds | src/core/sweetdawn.c:316-355 | the wait succeeds with a frame iff it is the first match, the loop gets to it before the deadline and it is read in the time left, counted from the second reading of the clock |
| Reception.SoonEnough | src/core/sweetdawn.c:316-355 | a first match that would be read before the deadline without any limit is the reply in time |
| Reception.ExchangeSucceeds | src/core/sweetdawn.c:297-355 | a request that can be sent succeeds iff the link is not lost before and the reply is in time among the frames not read early |
| Reception.ReplyAge | src/core/sweetdawn.c:297-355 | the reply was there at time t iff a match that was there was not read early; it is newer than the last look unless 16 frames were read early or that look read 256 bytes and the reply ends behind them |
| Reception.LeftUnread | src/core/sweetdawn.c:199-224 | what a look that empties the socket leaves unread comes in later |
| Socket.ResultIsHeard | src/aml/transport.c:278-416 | a result of the receive loop on what the socket answers is the one of the function, after the same bytes |
| Socket.InterruptedTurnErased | src/aml/transport.c:360-401 | a turn that is interrupted or finds nothing may be left out of the loop without changing its result, unless it was the only look |
| Socket.ReceiveOn | src/aml/transport.c:278-416 | on a socket with given times, aml_receive returns, reads and delivers what Reception.Receive says, call after call |
| TrackerState.MainAlarm | src/app/handlers.c:1012-1041 | the summary names a ringing alarm if there is one, else a snoozed one, else one in sunrise, the lowest number on a tie, none iff both are idle |
| TrackerState.SnoozeMinutes | src/app/handlers.c:1089-1096 | the presumed snooze is the duration of the table the device names, the longest one if it names none, and is between 1 and 30 minutes |
| Tracker.AlarmTracker.OnEvent | src/app/handlers.c:969-985 | a message is only noted; light refreshes are merged and a full queue drops it |
| Tracker.AlarmTracker.SetState | src/app/handlers.c:1054-1061 | only that alarm changes, and a broadcast is due iff its state did |
| Tracker.AlarmTracker.ChooseMain | src/app/handlers.c:1024-1041 | the loop over the alarms finds the alarm of the summary |
| Tracker.AlarmTracker.PublishStates | src/app/handlers.c:1064-1070 | one broadcast of both states when one is due, nothing otherwise |
| Tracker.AlarmTracker.Presume | src/app/handlers.c:1089-1101 | the alarm becomes snoozed until its snooze duration and a minute have passed; messages noted meanwhile stay queued |
| Tracker.AlarmTracker.FollowOne | src/app/handlers.c:1121-1139 | one alarm is followed as the poll says, the other is left alone |
| Tracker.AlarmTracker.FollowAlarms | src/app/handlers.c:1108-1152 | a due poll follows both alarms, ends the watch when both are idle, and broadcasts a change |
| Tracker.AlarmTracker.ProcessEvents | src/app/handlers.c:1174-1234 | the queue is handled in order and emptied before the light is read again |
| Tracker.AlarmTracker.ActOnAlarm | src/app/handlers.c:649-667 | the state is read at the next tick; an acknowledged stop, and only that, is remembered |
| Tracker.AlarmTracker.OnTick | src/app/handlers.c:1350-1366 | the periodic task: reconnection noticed, queue, poll, clock, and nothing when disconnected |
| Tracker.AlarmTracker.PerformAll | src/app/handlers.c:931-1366 | any sequence of messages, ticks and requests leaves the object in the state of the modelled run |
| TrackerRuns.PollAnswered | src/app/handlers.c:1108-1152 | an answered poll keeps the invariant, gives each alarm the state its history and the answer imply, and broadcasts once iff the pair of states changed |
| TrackerRuns.ReachableInvariant | src/app/handlers.c:941-1366 | in every reachable state: rung iff ringing or snoozed; no planned snooze end while ringing; under way or stop pending implies watched; subscribers last heard the present pair, with the right summary |
| TrackerRuns.SnoozedAfterRing | src/app/handlers.c:1121-1139 | an alarm that is snoozed rang at an earlier step and was snoozed at every step since |
| TrackerRuns.ReachableTimely | src/app/handlers.c:1098-1116 | in every chronological run no presumed snooze ends more than 31 minutes after the last tick and no poll is planned more than a second after it |
| TrackerRuns.BoundedReturnToIdle | src/app/handlers.c:1089-1152 | from any reachable state, once polls say nothing is under way, both alarms are idle and polling has stopped at the first poll 31 minutes later, or any connected tick a second after that, and they stay idle |
| TrackerRuns.SnoozeLastsItsDuration | src/app/handlers.c:1089-1139 | an alarm that stops ringing by itself stays snoozed until the first answered poll at least its snooze duration and a minute later, and only then is idle, in every quiet run without a stop |
| TrackerRuns.StopIsNotSnooze | src/app/handlers.c:649-667 | after an acknowledged stop no alarm becomes snoozed; each keeps its state until a poll is answered and then rings or is idle as the last such poll names it or not; the first poll that hears no ringing makes both idle whatever it says of sunrise |
| TrackerRuns.HandleAllStates | src/app/handlers.c:1174-1214 | messages leave each alarm in the state last announced for it; a broadcast becomes due iff the pair changes on the way, iff some message contradicts the state its alarm had |
| TrackerRuns.QueueBroadcasts | src/app/handlers.c:1064-1228 | the queue leads to one broadcast iff some message contradicts a present state, and to a repeated pair iff moreover the last messages restore both states |
| TrackerRuns.PollBroadcasts | src/app/handlers.c:1108-1152 | a poll broadcasts iff it changes the pair |
| TrackerRuns.TickBroadcasts | src/app/handlers.c:1350-1366 | a tick makes those two broadcasts at most, in this order, and ends with the pair subscribers know |
| TrackerRuns.BroadcastMayRepeat | src/app/handlers.c:1174-1228 | a run of messages and ticks from the start in which the pair subscribers have is broadcast again |
| TrackerSteps.HandleAllWatches | src/app/handlers.c:1180-1199 | messages about alarms start the watch anew and cancel a pending stop; others leave both |
| TrackerSteps.OtherAlarmKept | src/app/handlers.c:1180-1199 | an alarm no message is about is left as it is |
| TrackerSteps.WatchBeforePoll | src/app/handlers.c:1350-1363 | before a tick decides to poll, watch, time of the next poll, pending stop and connection are those that a new connection and the waiting messages imply |
| TrackerSteps.TickPolls | src/app/handlers.c:1108-1116 | a tick polls iff no message about an alarm is waiting and the connection is new or the watch is on and its time has come |
| TrackerSteps.TickWatches | src/app/handlers.c:1108-1152 | what a connected tick leaves of watch, next poll and pending stop, with and without an answered poll |
| TrackerSteps.NewConnectionIsPolled | src/app/handlers.c:1357-1361 | a new connection is followed by a poll in the same tick unless a message about an alarm is waiting; if answered, the alarms are in the states the answer implies |
| TrackerSteps.OnlyRequestsWatch | src/app/handlers.c:649-667 | apart from connected ticks only a request starts the watch |
| TrackerSteps.NoteAllQueues | src/app/handlers.c:969-985 | what arrives joins the queue in order as far as there is room, light refreshes apart, which are remembered |
| TrackerSteps.TickQueues | src/app/handlers.c:1350-1366 | after a tick the queue holds the messages that arrived during its exchanges, in order, the first 16 of them |
| TrackerSteps.ActQueues | src/app/handlers.c:649-667 | a request adds what arrives during its exchange to the queue |
| TrackerSteps.TickSends | src/app/handlers.c:1174-1234 | all that a tick sends, in order: ends of timers, the states if contradicted, the light if due and read, the states if a poll changes them |
| Link.World.Receive | src/aml/transport.c:278-416 | a call returns what the function says, and the frame is the next of those that come in |
| Link.SweetDawn.PlanReconnection | src/core/sweetdawn.c:89-100 | the wait after n plannings is min(1000 * 2^(n-1), 30000) and plannings are at least the waits apart |
| Link.BackoffDoubles | src/core/sweetdawn.c:89-97 | the doubling of the code follows that closed form |
| Link.SweetDawn.Abandon | src/core/sweetdawn.c:108-116 | the link is given up with one reconnection planned; what was read and heard is kept |
| Link.SweetDawn.HandleFailure | src/core/sweetdawn.c:126-143 | a lost link is given up at once, other failures at the third in a row |
| Link.SweetDawn.Forward | src/core/sweetdawn.c:170-192 | exactly the frames of type 0C with an event code reach the handler, with their data |
| Link.NoticeCarriesData | src/core/sweetdawn.c:170-192 | of a well-formed event the handler gets the code and every byte of data, by position |
| Link.SweetDawn.ReadEvents | src/core/sweetdawn.c:199-224 | at most 16 looks as long as each gives a frame, as the function says, and the events among these frames forwarded in order; every fault is a lost link |
| Link.SweetDawn.AwaitReply | src/core/sweetdawn.c:316-355 | the loop ends as the function says, with the reply in time or none; the events before it are forwarded in order |
| Link.SweetDawn.SendAndWait | src/core/sweetdawn.c:307-364 | the request is sent once; if no reply is expected, or sending fails, only the send counts, otherwise the wait does |
| Link.SweetDawn.Request | src/core/sweetdawn.c:243-364 | the frame sent is the request; the result is that of the exchange on what comes in; the reply was there at any time t, that of sending included, iff a match there at t was not read early, and is newer than the last look but for two cases; every event received reaches the handler once, in order |
| Link.LateReplyIsTaken | src/core/sweetdawn.c:297-341 | a run: a request times out, its reply comes in before the next request and is the only frame there, and is taken for the answer to that one |
| Link.EventsAreNotReplies | src/aml/protocol.h:64-137 | no frame is both an event and one of the replies in use |
| Link.HandlerHearsAll | src/core/sweetdawn.c:170-224 | in every run without a request for an event code the handler has heard exactly the events among all frames received on all connections, once each, in order |
| Link.SweetDawn.AskSettings | src/core/sweetdawn.c:417-459 | the settings kept change only to those of a complete reply |
| Link.SettingsReadBack | src/core/sweetdawn.c:448-456 | a reply whose data are the arguments of a write gives the settings written |
| Link.SweetDawn.WriteSettings | src/core/control.c:114-146 | the settings kept become those written only once the device has acknowledged them |
| Link.SweetDawn.Connect | src/core/sweetdawn.c:566-591 | connecting leaves the backoff as it is, and is not held back by a planned wait |
| Link.SweetDawn.Refresh | src/core/sweetdawn.c:600-630 | success iff both requests succeed, as computed from what comes in; it reads status and settings and clears the backoff; a failure keeps the settings and retries in 5 s; the authorization becomes that of a status reply received, and only so |
| Link.SweetDawn.Attend | src/core/sweetdawn.c:664-668 | with an open link, what has come in is forwarded, a fault met disconnects, and a refresh is made iff due and the link is still open |
| Link.SweetDawn.Tick | src/core/sweetdawn.c:635-669 | an attempt is made exactly when disconnected and the wait is over at the first reading of the clock, and a new connection is refreshed at once; with an open link what has come in is forwarded in order, a fault met disconnects, and a refresh is made exactly when due; only a successful refresh resets the waits; settings change only then |
| Link.FailuresAreSpaced | src/core/sweetdawn.c:89-116 | plannings spaced by their waits are spaced by the sum of the waits |
| Link.SumInClosedForm | src/core/sweetdawn.h:45-54 | that sum is 1, 3, 7, 15, 31 seconds, then 30 more each time |
| Link.AttemptsAreSpaced | src/core/sweetdawn.c:635-669 | in every run in which nobody connects by hand before time, the failure n+1 since the last successful refresh comes at least the sum of n waits after the first, and the next attempt waits for all of them |
| Lines.SplitAppends | src/ipc/ipc_server.c:448-487 | splitting into lines piece by piece, keeping the unfinished line, is splitting the whole stream |
| Lines.PartIsWholeLines | src/ipc/ipc_server.c:182-203 | whoever has read part of the joined lines has the first lines whole and in order |
| IpcServer.IpcClient.Append | src/ipc/ipc_server.c:182-203 | a whole line or nothing is appended, within 262144 bytes that include those already sent since the last full drain |
| IpcServer.IpcClient.Notify | src/ipc/ipc_server.c:970-977 | a subscriber gets the event as one line or is disconnected, another client is untouched |
| IpcServer.IpcClient.TakeLine | src/ipc/ipc_server.c:462-487 | the first line leaves the buffer, without its final '\r', and the others stay |
| IpcServer.IpcClient.ProcessBuffered | src/ipc/ipc_server.c:448-498 | with nothing left to send, the first complete line gets exactly one reply; without a complete line nothing happens |
| IpcServer.IpcClient.Read | src/ipc/ipc_server.c:510-548 | a client is cut for length iff it has sent a line with 4096 bytes before '\n'; otherwise the bytes there are taken in order, at most 1024 and what fits |
| IpcServer.IpcClient.Write | src/ipc/ipc_server.c:559-595 | exactly the bytes the socket takes leave, in order, it fails iff sending does, and the buffer is forgotten only when all have left |
| IpcServer.IpcClient.Turn | src/ipc/ipc_server.c:799-936 | a turn answers a line exactly if there is one and all earlier output is sent, reads exactly when reported readable with nothing to answer or send, sends what the socket takes, and closes exactly on an error, a hang-up, a failed call, a refused answer or a line too long, with every earlier line answered and sent |
| IpcServer.IpcClient.AnswerNext | src/ipc/ipc_server.c:799-810 | the first complete line is answered iff nothing waits to be sent; a refused answer ends the connection |
| IpcServer.IpcClient.Serve | src/ipc/ipc_server.c:903-936 | what poll() reports is served: error, reading, sending, hang-up, with the exact state after each |
| IpcServer.TurnKeepsPromises | src/ipc/ipc_server.c:799-936 | the two steps of a turn together keep what a turn promises |
| IpcServer.IpcClient.Accept | src/ipc/ipc_server.c:880-883 | a new connection starts with nothing of the one the slot served before |
| IpcServer.AnswersFollowLines | src/ipc/ipc_server.c:448-548 | for every chunking, the replies are one per line, in line order, for all complete lines once none is left in the buffer; events follow a subscription |
| IpcServer.PeerReadsWholeLines | src/ipc/ipc_server.c:559-595 | the bytes sent, cut at '\n', are the first lines appended, whole and in order, and all of them once nothing waits |
| IpcServer.OnlyLongLinesAreCut | src/ipc/ipc_server.c:510-522 | a peer whose stream has no line of 4096 bytes before '\n' never fills the buffer, and only a line too long does |
| IpcServer.LimitIsOneLess | src/ipc/ipc_server.h:57-58 | a terminated line is too long iff it has 4096 bytes, one less than the header allows |
| IpcServer.BroadcastEvent | src/ipc/ipc_server.c:953-980 | the event goes to every subscriber with room for it and to nobody else |
| CommandTree.ChildIsUnique | src/command/command.c:285-305 | a child is found by a name or alias iff it is the one that answers to it |
| CommandTree.AttachIsSoundIff | src/command/command.c:239-283 | attaching a command without parent keeps the forest linked, acyclic and well named iff the checks of the code allow it |
| CommandTree.AliasedIsSound | src/command/command.c:199-237 | an allowed alias keeps identifiers disjoint between sisters |
| CommandTree.AliasedAnswers | src/command/command.c:226-236 | after an alias the command answers to exactly one identifier more, and nothing else changes |
| CommandTree.BlankAnswers | src/command/command.c:513-523 | a cleared command answers to its name only and is linked to nothing |
| CommandTree.Forest.AddAlias | src/command/command.c:199-237 | an alias is added iff it is not empty and new to the command and its sisters; the command then answers to it besides, others are as they were, and the forest stays sound |
| CommandTree.Forest.AddChild | src/command/command.c:239-283 | a child is added iff it has no parent, is not above the parent, and shares no identifier with its new sisters; it is then listed last, nothing else changes, and the forest stays acyclic |
| CommandTree.Forest.HasAncestor | src/command/command.c:258-264 | the walk towards the root ends and finds the command iff it is on the way |
| CommandTree.Forest.Collide | src/command/command.c:117-135 | two commands collide iff some name or alias belongs to both |
| CommandTree.Forest.FindChild | src/command/command.c:285-305 | the first child that answers to the name is returned |
| CommandTree.Forest.ClearFrom | src/command/command.c:495-524 | the recursion ends and empties exactly the commands of the tree below |
| CommandTree.Forest.Clear | src/command/command.c:495-524 | the commands of the tree lose their links and aliases, the others are untouched, and the forest stays sound iff clearing starts at a root |
| Registry.SegmentsOfJoin | src/command/registry.c:66-78 | joining slash-free identifiers and cutting at slashes gives them back |
| Registry.JoinOfSegments | src/command/registry.c:66-78 | cutting any path and joining the segments gives the path back |
| Registry.CommandRegistry.FindPath | src/command/registry.c:50-129 | the loop over the path computes the segment-by-segment search |
| Registry.PathMeaning | src/command/registry.c:50-129 | a path finds a command iff, after the root names at its start, its segments name the commands from below the root down to it |
| Registry.PathRoundTrip | src/command/registry.c:80-97 | any choice of names and aliases down to a command, after any number of root names, finds it iff the first one is not the name of the root |
| Registry.EmptySegmentFindsNothing | src/command/registry.c:72-95 | a path with an empty segment or a slash at its end finds nothing |
| Registry.NamesOf | src/command/registry.c:50-129 | every command of the tree has a path of names |
| NextAlarm.WeekdaysFollow | src/app/handlers.c:452-454 | the weekdays follow one another from a known Sunday and last all day |
| NextAlarm.OneDay | src/app/handlers.c:482-483 | a mask with one bit rings on that day only, bit 0 being Sunday |
| NextAlarm.TriggerShowsTime | src/app/handlers.c:470-477 | at a trigger a clock shows the hour and minute of the alarm |
| NextAlarm.DeviceTimeRuns | src/app/handlers.c:267-297 | after the device clock is set, the time taken for it goes on from there, to a second |
| NextAlarm.SomeCandidateIsAccepted | src/app/handlers.c:467-487 | among today and the seven days after, one candidate is accepted, for any day mask |
| NextAlarm.FirstIsNext | src/app/handlers.c:467-487 | the first candidate accepted is at most a week ahead and no earlier instant triggers the alarm |
| NextAlarm.FindNext | src/app/handlers.c:456-490 | it fails only for a disabled alarm or an unknown clock, and leads to the first trigger after now iff hour and minute stay within a day |
| AlarmRecords.Encode | src/core/control.c:346-359 | decoding what is encoded gives the alarm back iff its days fit in seven bits |
| AlarmRecords.EditedHolds | src/app/handlers.c:624-643 | an edited and encoded record holds the value asked for, at the byte of the protocol, for each of the nine settings |
| AlarmRecords.QueryAlarm | src/core/control.c:299-334 | an answered query returns the record it was answered with, if it is one of that alarm, and changes nothing |
| AlarmRecords.WriteAlarm | src/core/control.c:336-363 | a write with a valid time that is served stores the encoded alarm and leaves the other one alone; it succeeds iff it is answered |
| AlarmRecords.ChangeSetting | src/app/handlers.c:606-646 | success iff both exchanges are answered, the query with a record of that alarm, and the time is valid; if the write is served, the record is the one read with the setting changed and holds the value asked for, byte by byte, otherwise it is as it was; with the present record read only the bytes of that setting change; the other alarm never does |

## Left out

- Bluetooth and socket system calls, connection timeouts, stale sockets, signals, systemd: only their results are inputs.
- JSON, the request envelope and the text of replies: a request line and a reply are opaque bytes, and whether a line subscribes is an input.
- Value validation and the parsing of numbers, times and dates: library functions whose code is not part of this model.
- Time zones and changes of local time in `prochaine_alarme`: days of 86400 seconds.
- The array capacities and memory allocation failures of the command tree; the tree is an arena in a sequence, so aliasing between command objects is not captured.
- The realloc of the client output buffer: the output is a sequence that grows, its limit is modelled.
- The order of the slots in one turn of the server loop: each client is modelled by the steps that concern it, and broadcasts over all of them.
- Light, mood, radio and speaker commands, configuration, the tables of commands, the MQTT bridge and the command-line tools: one-line encoders, tables and wiring.
- The daily resynchronisation of the device clock: only the messages that arrive during it.
- The checksum of replies: the source does not check it either.
- Link.World: the result codes of sends and connections are given in advance, as are the bytes of each connection and their times.
- Reception.Hear: a poll or a read interrupted by a signal (`Socket.InterruptedTurnErased` leaves them out of the loop, unless it was the only look), and a read that gives fewer bytes than are there.
