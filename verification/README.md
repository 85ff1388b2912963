# A verified model of LinxIpc

LinxIpc moves datagrams between processes: servers collect messages from a socket, either on the caller's
thread or through a worker thread and a selective bounded queue; clients send, receive under a deadline and
connect with a PING handshake. This project models that stack in Dafny and proves what it promises.

- `Identifiers.dfy`, `Messages.dfy`: addresses and their equality, messages, receive selectors.
- `QueueSpec.dfy`, `LinxEventFd.dfy`, `LinxQueue.dfy`: the queue's critical sections as functions on its state,
  and the classes `LinxEventFd` and `LinxQueue` proved against them. The waiting gets are the predicate loops of
  section [thread.condition.condvar] of ISO C++17; an argument says what other threads do during each sleep.
- `QueueSystem.dfy`: any number of threads on one queue as a transition system. A step is one critical section
  (the same functions the class is proved against), one wake-up, timed or spurious, or one `notify_all`.
- `ServerSystem.dfy`: worker threads, application threads in `receive`, and a thread calling `start` and `stop`.
  Its queue is the one of `QueueSystem.dfy`, and every server run is shown to be a queue run.
- `GenericServer.dfy`, `GenericSimpleServer.dfy`, `GenericClient.dfy`, `Deadline.dfy`: the loops of the worker, of
  the direct server and of the client. `ReceiveSpec.dfy` says what a receive does to the events of its socket;
  `Socket.dfy` holds all that is assumed of the socket and the clock.
- `DirectMode.dfy`, `ModeEquivalence.dfy`: what repeated direct receives deliver, and the two modes' equivalence.
- `Handshake.dfy`: clients, servers and a network that loses, copies and reorders.
- `WireFormat.dfy`, `AfUnixAddress.dfy`: message bytes and AF_UNIX names.

Runs are schedules: `Exec(init, steps)` is the state a list of steps leads to, and a statement about every
reachable state holds after every schedule of every length, with every interleaving.

What the proofs bring out about the code:

- A receive under a finite timeout may come back empty before its deadline, because the remaining time is truncated to
  whole milliseconds. A wait ends at the deadline exactly when what was left was a whole number of milliseconds, and
  less than a millisecond early otherwise (`Deadlines.RemainingLaws`, `Client.GenericClient.Receive`); with 1 ms to go
  and the clock a nanosecond on, the receive does not wait at all (`Deadlines.EarlyReturn`). For a caller, who does not
  know the clock inside the call: exactly the timeouts of 0 and less never end early (`Deadlines.EarlyExactly`).
- The repository's README.md (lines 184 and 216-217) says that a server that was not started reads the socket
  directly. `GenericServer::receive` reads the queue whether or not it was started; only the separate simple server
  class reads the socket. The model follows the code.
- `stop` does something exactly on a threaded server that was once started (`ServerSystem.OnlyStartedServersStop`). On
  one that never was, a get that waits for ever goes on waiting through every schedule without a `start`, however often
  `stop` is called (`ServerSystem.UnstartedGetWaits`, `ServerSystem.StopWakesNobody`).
- The queue size is signed and compared as unsigned, so a negative size means no bound in practice. Poll agreement
  survives an `add` exactly when the counter is below its maximum or the queue refuses the message, and a size of
  -1 is the only one under which that can fail; it takes 2^64 - 1 accepted messages (`Queue.AgreementExactly`,
  `Queue.AgreementLost`).
- A sender's AF_UNIX name is recovered exactly when it contains no NUL (`AfUnixAddress.SenderIdentity`).
- A `connect` that returned true proves that the named server handled this client's PING when no other server
  compares equal to the identifier and, since servers answer from unicast addresses, only then
  (`Handshake.NamedServerExactly`). A unicast identifier names one such server; a multicast or broadcast one names every
  server on its port, and any of them may be the one that answered (`Handshake.WhoIsNamed`, `Handshake.GroupConnect`).
- `MyMessage` puts its integer in network order but copies its float as it lies in memory. Between hosts of different byte
  orders the float arrives exactly when its pattern is a palindrome of bytes (`WireFormat.TypedRoundTrip`); 25.0 does
  not (`WireFormat.FloatLost`).

## Model

| member | source | states |
|---|---|---|
| QueueSystem.NoLostWakeUp | LinxIpc/src/queue/LinxQueue.cpp:16-39 | In every reachable state a sleeping, un-notified waiter has a matching message in the queue only while some add is between its unlock and its notify_all, and nobody sleeps once stop has run |
| QueueSystem.NoGetBlocksAfterStop | LinxIpc/src/queue/LinxQueue.cpp:63-89 | After stop every get of any kind returns from its next predicate run, with a message exactly when one matches: the message is looked for before the stop flag |
| QueueSystem.SleepersMayWake | LinxIpc/src/queue/LinxQueue.cpp:63-89 | In every reachable state any sleeper may be woken for no reason and run its predicate; exactly the timed ones may have their time run out, and then return from their next predicate run |
| QueueSystem.StopIsFinal | LinxIpc/src/queue/LinxQueue.cpp:16-39 | After a stop, whatever schedule follows, the stop flag is set, nobody sleeps, and messages are still accepted |
| QueueSystem.Conservation | LinxIpc/src/queue/LinxQueue.cpp:63-106 | At every moment of every run each accepted message is in exactly one of: the queue, the pile clear and stop threw away, the hand of one get, the result of one get; the get that returned it is the one that removed it, once, and it matches that get's selector |
| QueueSystem.SelectiveFifo | LinxIpc/src/queue/LinxQueue.cpp:91-106 | When a get takes a message, every older accepted message its selector matches had already left |
| QueueSystem.OneSelectorKeepsOrder | LinxIpc/src/queue/LinxQueue.cpp:47-106 | Deliveries to one fixed selector follow acceptance order whatever other gets run |
| QueueSystem.ReturnedAsTaken | LinxIpc/src/queue/LinxQueue.cpp:57-89 | In every reachable state each thread has been returned exactly what its gets took, in the order they took it, but for one message that may still be in hand |
| QueueSystem.GetAsCalled | LinxIpc/src/queue/LinxQueue.cpp:47-89 | Through every schedule a get keeps the mode and selector it was called with until it returns, and returns for that selector |
| QueueSystem.PollTellsTheTruth | LinxIpc/src/queue/LinxQueue.cpp:16-45 | In every reachable state with the eventfd open and a size other than -1 the counter equals the queue length, so the descriptor is readable exactly when an immediate match-any get would succeed |
| QueueSystem.NeverOverfull | LinxIpc/src/queue/LinxQueue.cpp:16-31 | In every reachable state, eventfd or not, the queue holds at most its bound, and at most a non-negative size |
| QueueSystem.OneSelectorLosesNothing | LinxIpc/src/queue/LinxQueue.cpp:33-106 | If every get that took something used one selector, then of the messages it matches those that left, followed by those queued, are the accepted ones in order, clear and stop included; with nothing thrown away those that left are the deliveries |
| QueueSystem.AnyDeliversAccepted | LinxIpc/src/queue/LinxQueue.cpp:33-106 | With match-any gets, what left the queue followed by what is in it is everything accepted, in order |
| QueueSystem.StepKeepsInv | LinxIpc/src/queue/LinxQueue.cpp:16-106 | Every step of every thread keeps queue shape, counter, ledger, order, wake-up, hand-over and timeout invariants |
| QueueSystem.RunKeepsInv | LinxIpc/src/queue/LinxQueue.cpp:16-106 | Hence every schedule of any number of threads keeps them |
| Queue.LinxQueue.constructor | LinxIpc/src/queue/LinxQueue.cpp:8-10 | A new queue is empty, not stopped, and agrees with a new eventfd |
| Queue.LinxQueue.Add | LinxIpc/src/queue/LinxQueue.cpp:16-31 | Appends at the tail and takes the message exactly when the length is below the size (for a negative size, below 2^64 plus it); otherwise returns -1, changes nothing and leaves the message with the caller |
| Queue.LinxQueue.Stop | LinxIpc/src/queue/LinxQueue.cpp:33-39 | Sets the flag, empties the queue and the counter |
| Queue.LinxQueue.Clear | LinxIpc/src/queue/LinxQueue.cpp:41-45 | Empties the queue and the counter, leaves the flag |
| Queue.LinxQueue.FindMessage | LinxIpc/src/queue/LinxQueue.cpp:91-106 | Removes and returns the oldest matching message and nothing else, keeping the others in order; returns null and changes nothing exactly when none matches |
| Queue.LinxQueue.GetMessage | LinxIpc/src/queue/LinxQueue.cpp:57-61 | The immediate get is one such removal |
| Queue.LinxQueue.WaitForMessage | LinxIpc/src/queue/LinxQueue.cpp:63-89 | Under any interference, spurious wake-ups and timeouts, the call has the effect of one removal at one instant, returns exactly what that took, found nothing to return at any earlier evaluation, stays asleep only if not stopped and nothing matches, and a timed one comes back from its first timeout |
| Queue.LinxQueue.Get | LinxIpc/src/queue/LinxQueue.cpp:47-55 | Dispatch on the timeout; null comes only from an immediate get, a stop, or an expired finite timeout; never waits once stopped, and with a finite timeout never sleeps on after a sleep that timed out |
| Queue.LinxQueue.Size | LinxIpc/src/queue/LinxQueue.cpp:108-110 | The narrowing to int is exact for every queue a non-negative size allows |
| Queue.LinxQueue.PollIsTruthful | LinxIpc/src/queue/LinxQueue.cpp:112-114 | The polled descriptor is readable exactly when a match-any get would find a message |
| Queue.OpKeepsAgreement | LinxIpc/src/queue/LinxQueue.cpp:16-45 | Each critical section keeps counter and length equal, and each internal read of a removal finds a positive counter |
| Queue.AgreementOverRuns | LinxIpc/src/queue/LinxQueue.cpp:16-45 | So does any sequence of add, get, clear and stop, and the counter is positive exactly when a match-any get finds a message |
| Queue.AgreementExactly | LinxIpc/src/queue/LinxQueue.cpp:22-26 | An add keeps the agreement if and only if the counter is below its maximum or the message is refused; it can fail only at size -1 |
| Queue.AgreementLost | LinxIpc/src/queue/LinxQueue.cpp:22-26 | At size -1 any number of additions up to 2^64 - 2 keeps the agreement, and one more loses it |
| EventFd.LinxEventFd.WriteEvent | LinxIpc/src/queue/LinxEventFd.cpp:19-32 | Adds one, or reports why not and changes nothing |
| EventFd.LinxEventFd.ReadEvent | LinxIpc/src/queue/LinxEventFd.cpp:45-58 | Takes one, or reports why not and changes nothing |
| EventFd.LinxEventFd.ClearEvents | LinxIpc/src/queue/LinxEventFd.cpp:34-43 | The draining loop ends with an open counter at zero; a descriptor that was never created is left alone |
| Messages.SelectorLaws | LinxIpc/src/common/LinxMessageFilter.h:14-31 | The filter by its laws: empty selectors match everything, id lists are unions, a sender narrows, a missing sender never matches a required one |
| Identifiers.WildcardComposes | LinxIpc/include/UdpLinx.h:20-34 | Constructor-built addresses compare reflexively and symmetrically, equal addresses have equal ports, and the relation composes exactly when the middle is unrestricted, an end is restricted, or the ends carry the same address |
| Identifiers.MulticastIsClassD | LinxIpc/src/udp/UdpFactory.cpp:113-120 | An address is multicast exactly when it parses and its top four bits are 1110 |
| Identifiers.UnicastExactly | LinxIpc/include/UdpLinx.h:20-34 | The constructor keeps address and port and marks as wildcards exactly 255.255.255.255 and the addresses whose top four bits are 1110 |
| ServerSystem.AtMostOneWorker | LinxIpc/src/common/GenericServer.tpp:66-84 | Whatever start and stop calls are made, at most one worker is alive, and the handle names it |
| ServerSystem.StartStarts | LinxIpc/src/common/GenericServer.tpp:66-74 | Without a worker to be joined, start adds one that can begin to receive at once, and changes nothing else; with one it changes nothing |
| ServerSystem.StopStops | LinxIpc/src/common/GenericServer.tpp:77-84 | With a worker to be joined stop closes the socket and then stops the queue, every time it is called; without one it changes nothing |
| ServerSystem.FirstEventDealtWith | LinxIpc/src/common/GenericServer.tpp:14-74 | A run from a new server: started, its worker queues the first message that comes, or answers it if it is a PING |
| ServerSystem.SleeperIsServed | LinxIpc/src/common/GenericServer.tpp:14-104 | A run from end to end: a waiting get that fell asleep on a new server is returned the first message that comes and matches |
| ServerSystem.StopReturns | LinxIpc/src/common/GenericServer.tpp:77-84 | When stop returns all workers have ended and none is left to be joined, the socket is closed, the queue stopped, and the queue is empty or holds only the late message |
| ServerSystem.LateWasInHand | LinxIpc/src/common/GenericServer.tpp:17-47 | The late message is the one the worker held when the socket closed, or the one its receive, begun before, brought in; there is at most one |
| ServerSystem.LateMessageStays | LinxIpc/src/common/GenericServer.tpp:17-47 | Such a message there may be: a run in which it is still queued when stop has returned |
| ServerSystem.NothingAddedAfterStop | LinxIpc/src/common/GenericServer.tpp:66-84 | After a stop has returned, no schedule with any further start, stop or get adds a message |
| ServerSystem.NoGetBlocksAfterStop | LinxIpc/src/common/GenericServer.tpp:92-104 | After a stop has returned every get in progress can move and returns |
| ServerSystem.OnlyStartedServersStop | LinxIpc/src/common/GenericServer.tpp:77-84 | Between calls, stop changes nothing and the queue is not stopped if and only if no worker was ever started |
| ServerSystem.UnstartedGetWaits | LinxIpc/src/common/GenericServer.tpp:77-104 | On a server that was never started an infinite get waits through every schedule without a start, whatever stops are called |
| ServerSystem.StopWakesNobody | LinxIpc/src/common/GenericServer.tpp:77-104 | Such a get exists: called on a new server, with any size, eventfd and selector, it falls asleep and a stop leaves the whole state unchanged |
| ServerSystem.WorkerMovesOn | LinxIpc/src/common/GenericServer.tpp:17-47 | With the socket closed a live worker can always step |
| ServerSystem.EveryStepCounts | LinxIpc/src/common/GenericServer.tpp:17-47 | With the socket closed every step a worker makes, whichever it is, brings it nearer its end, in at most five, and no step of any other thread sets it back |
| ServerSystem.StopComesToAnEnd | LinxIpc/src/common/GenericServer.tpp:77-84 | In any schedule in which stop has not returned yet, the worker and the stopping thread have made at most seven steps, however many the application made, and one of the two can move: stop returns unless starved |
| ServerSystem.PingIsolation | LinxIpc/src/common/GenericServer.tpp:31-46 | In every reachable state no PING_REQ is or ever was in the queue, and the replies sent are one per PING_REQ dealt with, to its sender, in order |
| ServerSystem.OnlyFullQueueDrops | LinxIpc/src/common/GenericServer.tpp:38-46 | The accepted messages are all non-PING messages received but those that arrived when the queue was exactly full; for a size of 0 or more, when it held exactly as many messages as its size |
| ServerSystem.QueueRun | LinxIpc/src/common/GenericServer.tpp:14-104 | Every run of the server is a run of the queue, so all queue guarantees hold inside the server |
| ServerSystem.PassIsTaskPass | LinxIpc/src/common/GenericServer.tpp:17-47 | A worker's steps in a row do what the sequential pass of its loop is proved to do: end on a failure, one reply to a PING's sender, or one add to the queue |
| ServerSystem.StepKeepsInv | LinxIpc/src/common/GenericServer.tpp:14-104 | Every step of workers, application and controller keeps the life-cycle, shutdown and bookkeeping invariants |
| ModeEquivalence.SameService | LinxIpc/src/common/GenericServer.tpp:14-48 | In every reachable state, during and after a stop too, with one selector for all gets and no overflow: of what the selector matches, what left the threaded server's queue followed by what is in it is what the direct server's service loop delivers on the same events, with the same PING replies in the same order; while stop has thrown nothing away, what left is what was delivered |
| ModeEquivalence.SameServiceToOneConsumer | LinxIpc/src/common/GenericServer.tpp:92-104 | With a single consumer thread: what its receive calls returned, what one has in hand, and the matching part of the queue, in this order, is what the direct server delivers |
| ModeEquivalence.SameServiceButForOverflow | LinxIpc/src/common/GenericServer.tpp:38-46 | With overflow it is that sequence with some left out, each of which met a full queue; in every reachable state and for every selector |
| ModeEquivalence.SameIntake | LinxIpc/src/common/GenericServer.tpp:14-48 | In every reachable state, whatever selectors are used: the messages offered to the queue are those the direct server would show for match-any, the accepted ones too if none met a full queue, and the replies are the direct server's |
| ModeEquivalence.RunDirectly | LinxIpc/src/common/GenericSimpleServer.tpp:60-104 | Running the direct server's service loop on the events a threaded server has dealt with gives the threaded server's messages and sends the same replies |
| DirectMode.ServeAll | LinxIpc/src/common/GenericSimpleServer.tpp:60-104 | Repeated infinite receives deliver exactly the wanted messages before the first failure and answer exactly the PINGs among those events |
| DirectMode.AnyShowsAllButPings | LinxIpc/src/common/GenericSimpleServer.tpp:86-99 | With the match-any selector that is every message but the PINGs |
| DirectMode.ShownAreChosen | LinxIpc/src/common/GenericSimpleServer.tpp:86-99 | With any selector it is, of the messages but the PINGs before the first failure, those the selector matches |
| Server.GenericServer.TaskPass | LinxIpc/src/common/GenericServer.tpp:17-47 | One pass answers a PING to its sender, or queues the message, or ends on a non-positive result changing neither |
| Server.GenericServer.Task | LinxIpc/src/common/GenericServer.tpp:14-48 | The loop feeds the queue every non-PING message before the first failure and answers every PING among them |
| Server.FirstComeFirstKept | LinxIpc/src/common/GenericServer.tpp:38-46 | An unread queue keeps the first messages there is room for, in order: as many as its size leaves, for a size of 0 or more |
| Server.GenericServer.Receive | LinxIpc/src/common/GenericServer.tpp:92-104 | Reads the queue, started or not, never touches the socket, and comes back and returns null for the queue's reasons only |
| SimpleServer.GenericSimpleServer.Send | LinxIpc/src/common/GenericSimpleServer.tpp:41-57 | Sends to addresses of its own class; refuses others without touching the socket |
| SimpleServer.GenericSimpleServer.Receive | LinxIpc/src/common/GenericSimpleServer.tpp:60-104 | A returned message is the first wanted, non-PING one, all earlier events were skipped messages; each PING consumed was answered once to its sender; null means an earlier failure, or the time is up: a wait for what was left was sat out, which falls short of the deadline only if that was no whole number of milliseconds, and then by less than one; it comes from the one time the socket had nothing to give, or after an event with the timeout passed; total waiting is at most the timeout and the call ends within five overheads of it |
| Deadlines.RemainingLaws | LinxIpc/src/common/Deadline.h:8-32 | For a finite timeout the remaining time lies in 0..max(0,T), is never the infinite marker, never grows, is 0 exactly from less than a millisecond before the deadline on, never overshoots it, and reaches it exactly when what is left is a whole number of milliseconds |
| Deadlines.EarlyReturn | LinxIpc/src/common/Deadline.h:24-32 | With a timeout of 1 ms and the clock one nanosecond on, the remaining time is 0 with time left: the receive does not wait |
| Deadlines.EarlyExactly | LinxIpc/src/common/Deadline.h:24-32 | Whatever the clock reads when it is asked, the wait computed reaches the deadline if and only if the timeout is 0 or less |
| Sockets.Socket.ReceiveUntil | LinxIpc/src/common/GenericClient.tpp:46-47 | A wait for the remaining time takes at most one event, adds at most the time left to the waiting so far, and without an event ends for the reasons the receives report |
| SimpleServer.GenericSimpleServer.ReceiveOnce | LinxIpc/src/common/GenericSimpleServer.tpp:75-99 | One pass consumes at most one event: answers a PING, returns a match, skips anything else, or reports the failure or the waited-out time |
| Client.GenericClient.ReceiveOnce | LinxIpc/src/common/GenericClient.tpp:46-58 | One pass consumes at most one event and returns it exactly when it passes both filters |
| Client.GenericClient.Receive | LinxIpc/src/common/GenericClient.tpp:35-63 | The returned message is the first event passing both filters, all earlier ones were consumed messages that do not; null means a failure first, or the time is up: a wait for what was left was sat out, which falls short of the deadline only if that was no whole number of milliseconds, and then by less than one; it comes from the one time the socket had nothing to give, or after an event with the timeout passed; waits at most the timeout in total and ends within four overheads of it, under any flood |
| Client.GenericClient.SendReceive | LinxIpc/src/common/GenericClient.tpp:66-72 | Sends once; a failed send returns null and consumes nothing; otherwise it is a receive, with the same reasons for a null and the same bounds but for the send's overhead |
| Client.GenericClient.Attempt | LinxIpc/src/common/GenericClient.tpp:79-88 | One repetition of the handshake: one PING_REQ, success exactly on the first matching PING_RSP, and if the request could be sent a failure only after an error or 99 ms of listening at the socket |
| Client.GenericClient.Connect | LinxIpc/src/common/GenericClient.tpp:75-93 | Sends only PING_REQs and at least one; true exactly on the first matching PING_RSP consumed; otherwise it listened at the socket for 99 ms for every request that could be sent and was not cut short by an error; false only strictly after the deadline and at latest 100 ms and seven overheads after it; always returns under a finite timeout, even if every send fails |
| Handshake.ConnectedMeansHandled | LinxIpc/src/common/GenericClient.tpp:75-93 | Under loss, reordering and duplication, a connect that returned true means a server matching the identifier had handled a PING_REQ from this client; the named one itself when no other server compares equal to the identifier |
| Handshake.NamedServerExactly | LinxIpc/src/common/GenericClient.tpp:75-93 | Over all runs, connect returning true means the named server handled the PING if no other server compares equal to the identifier; and, the servers answering from unicast addresses, only if |
| Handshake.AnsweredByAnother | LinxIpc/src/common/GenericClient.tpp:39-42 | The failing run: another server with a unicast address that compares equal handles the PING_REQ and its PING_RSP is accepted |
| Handshake.GroupConnect | LinxIpc/include/UdpLinx.h:20-34 | For instance a client constructed for a multicast group, answered by a unicast server on the same port |
| Handshake.ResponsesAddUp | LinxIpc/src/common/GenericServer.tpp:31-36 | Responses in flight, received and lost equal those sent plus copies made of them; the requests a server answered are at most the requests sent plus copies made of those |
| Handshake.ConnectEnds | LinxIpc/src/common/GenericClient.tpp:79-92 | A connect that gave up or returned true takes no further PING_RSP, and no other client's connect is touched |
| Handshake.HandledTwice | LinxIpc/src/common/GenericServer.tpp:31-36 | With a copy made of it, one PING_REQ is handled and answered twice: the bound on answered requests is met |
| Handshake.FlowAndRolesKept | LinxIpc/src/common/GenericServer.tpp:31-36 | Every step of client, server, application or network keeps the packet balance and the roles of the PING ids |
| WireFormat.Serialize | LinxIpc/include/common/LinxMessage.h:21-35 | A buffer too small gives 0 and is unchanged; otherwise exactly the first getSize() bytes are written, the id in network order first, on a host of either endianness |
| WireFormat.Deserialize | LinxIpc/src/message/RawMessage.cpp:23-38 | Fewer than 4 bytes give null and leave the buffer; otherwise the id is read in network order and the rest is moved out as the payload |
| WireFormat.DecodeEncode | LinxIpc/src/message/RawMessage.cpp:23-38 | Deserialising a serialised message gives it back |
| WireFormat.EncodeDecode | LinxIpc/include/common/LinxMessage.h:21-35 | Serialising a deserialised buffer of 4 bytes or more gives its bytes back |
| WireFormat.Transfer | LinxIpc/include/message/RawMessage.h:31-35 | Through the two procedures on hosts of any endianness every message whose size fits arrives unchanged |
| WireFormat.NetworkOrder | LinxIpc/include/common/LinxMessage.h:30-31 | The bytes of htonl of an id do not depend on the host |
| WireFormat.BigEndianValue | LinxIpc/include/common/LinxMessage.h:30-31 | The first byte on the wire is the most significant |
| WireFormat.FixedReadsPrefix | LinxIpc/include/common/LinxMessage.h:60-69 | A fixed-size reader accepts exactly the payloads long enough and reads their first bytes |
| WireFormat.TypedRoundTrip | LinxIpc/include/message/MyMessage.h:29-47 | MyMessage to bytes, over the raw codec, to fromRawMessage: id and signed value arrive between hosts of any endianness; the whole message arrives if and only if the hosts have the same endianness or the float's byte pattern is a palindrome |
| WireFormat.PayloadOnTheWire | LinxIpc/include/message/MyMessage.h:33-41 | On any host the first four payload bytes spell the value in two's complement, most significant first, and the last four the float's pattern in the host's order |
| WireFormat.FloatLost | LinxIpc/include/message/MyMessage.h:33-47 | A float of 25.0 sent by a little-endian host reaches a big-endian one as another pattern |
| AfUnixAddress.CreateAddress | LinxIpc/src/unix/AfUnixSocket.cpp:148-153 | Fills a zeroed path with a NUL, the name up to its first NUL, and zeros; the length covers the whole name |
| AfUnixAddress.SenderIdentity | LinxIpc/src/unix/AfUnixSocket.cpp:103-105 | For names of at most 106 characters the decoded sender is the bound name if and only if it has no NUL, and the C string read is terminated |
| AfUnixAddress.ReplyReachesSender | LinxIpc/src/unix/AfUnixSocket.cpp:130-133 | A reply to the decoded sender uses exactly the address that was bound, and on names without NUL the address determines the name |
| AfUnixAddress.PositiveMeansMessage | LinxIpc/src/unix/AfUnixSocket.cpp:48-112 | A positive result is given for exactly the whole datagrams of at least 4 bytes; a closed socket always gives a negative one |
| AfUnixAddress.CodeTellsCause | LinxIpc/src/unix/AfUnixSocket.cpp:48-112 | Each other code is given in exactly one case: 0 for a timeout or a descriptor closed under the call, -1 for a closed socket, -2, -4, -5 and -6 for a failed poll, a failed receive, a wrong length and a datagram too short |

## Left out

- Kernel calls and the UDP socket class: a socket is its contract in `Socket.dfy`. A receive honours its timeout, each
  call takes at most a fixed overhead beyond its waiting, a send takes at least a nanosecond, and in
  `ServerSystem.dfy` a receive begun after close returns a non-positive value and one already waiting then comes back,
  because close shuts the socket down first and that wakes the poll.
- Handshake: `Config.servers` are the addresses servers answer from; that a datagram's source is a unicast address is the
  hypothesis `UnicastServers`, not a consequence.
- Client.GenericClient.Connect: an infinite timeout against a silent peer never returns, so a run is watched for a number
  of repetitions chosen by the caller and may be reported as still trying; every number is covered.
- Queue.LinxQueue.WaitForMessage: a thread that is never woken stays asleep for ever, so the call is given the finite
  list of sleeps it goes through and may be reported as still asleep after them; every list is covered.
- AfUnixAddress.CreateAddress: names of 108 characters or more would not fit the path and are excluded.
- WireFormat.Serialize: messages whose size does not fit 32 bits are excluded.
- ServerSystem: `start` and `stop` are steps of a transition system, not methods of the server class, because their
  effect is the other threads' running; the class holds the worker's loop and `receive`.
- The clock is an unbounded integer; a 64-bit nanosecond clock wraps after 292 years.
- Moves of unique pointers appear as out-parameters or as a vector left empty; aliasing of the moved objects is not
  modelled.
- The unlocked read in `size` and the non-atomic socket descriptor: each is one atomic step here.
- The floating-point meaning of a temperature: it is its 32-bit pattern.
- Parsing of dotted-quad text: a parser is an argument, and nothing depends on which.
- Factories, random client ids, logging, `LinxIpcHandler`, client equality, `getName`, `format` and `flush`: forwarding
  or input and output, which would add only easy claims.
