# A verified model of TeaVPN2's stateful core

This project models the parts of TeaVPN2 and of its bundled libraries that keep state across calls, and proves
what they keep. It holds:

- the UDP server's session engine: slot stack, slot array, hash table of linked buckets, private-address route
  table and session counter, with the packet handlers, the zombie reaper and the shutdown loop on top
  (`SlotStack`, `SessionEngine`, `SessionProofs`, `ServerSafety`, `PacketLaws`, `ActivityLaws`, `SessionMap`,
  `Server`, `EpollServer`);
- the bytes of an auth packet, the client's handshake and login loops, and whole runs of server, clients and
  network (`AuthPacket`, `Client`, `Protocol`, `Logins`);
- the server's start-up barrier (`Barrier`);
- liburing's submission and completion rings, its sizing arithmetic and its copy example (`Bits`,
  `SubmissionRing`, `CompletionRing`, `RingSizing`, `CopyLoop`, `CopyRuns`, `CopyProgram`);
- the INI parser (`IniText`, `IniLines`, `IniRoundTrip`, `IniParser`);
- the interface code's shell quoting and string trimming, and the aligning allocator (`ShellQuote`, `StrTrim`,
  `Allocator`).

Where the program updates objects or buffers in place the model does too: the server's tables are objects and
arrays, the buckets are linked objects, the rings are arrays with wrapping counters, the INI parser writes NULs
into a 200-character line buffer. Each such method is proved to compute a function on values, and the laws are
proved about those functions, over all inputs, all runs or all interleavings.

## What holds only under a condition

Some laws one would expect are not laws of the code. For each the exact condition is proved.

- A route cell can outlive its session: closing a session never clears the route of one whose address is
  0.0.0.0 (`ServerSafety.CloseRoutes`, `ServerSafety.LoginThenClose`).
- Throughout a run the route table is the inverse of the address assignment exactly if authenticated sessions
  never share the low 16 bits of their address (`ServerSafety.ReachableRoutes`).
- An authenticated client has had its own credentials accepted exactly if no other credentials with which a
  client was started at its endpoint are valid: an old reply, delivered again, is taken for its own
  (`Protocol.GenuineExactly`, with the run in `Protocol.StolenLogin`).
- An authenticated client has had a login accepted after its first request exactly if no AUTH_OK packet was sent to
  its endpoint before it started (`Logins.AfterStartExactly`, with the run in `Logins.ReplayedReply`).
- An accepted login used credentials that its endpoint has sent exactly if auth packets are long enough to reach the
  end of every valid password: the length of an auth packet is not checked, and what did not arrive is read from
  what the packet buffer held before (`Logins.AlwaysSentExactly`, with the run in `Logins.BorrowedLogin`; for one
  packet `AuthPacket.CarriesExactly`).
- A packet with a mapped route still goes to all sessions if the direct send fails with ENOENT
  (`ServerSafety.TunPacketTargets`).
- A completion wait can return zero without a completion on a ring with SQPOLL, with nothing to wait for and
  something to submit (`CompletionRing.ZeroMeansCompletionExactly`).
- The copy example has copied the whole file when it returns zero exactly if no submission of its main loop
  failed and no write came back short while draining, because the drain loop does not queue the rest again
  (`CopyRuns.CompleteExactly`; `CopyRuns.ShortCopy` is a run that loses a byte).
- The copy example can wait for ever, for requests that it has queued but not submitted or with no request at all.
  It never does exactly if the file is empty or none of these occurs: a failed allocation, a submission that the
  kernel does not take completely, an -EAGAIN and a short completion in the main loop
  (`CopyRuns.NeverStuckExactly`; `CopyRuns.DelayedRun` has a run for each of them and every other file).
- Advancing the completion ring leaves it intact exactly if no more entries are consumed than are pending
  (`CompletionRing.IoUringCq.CqAdvance`).
- The buffer that `escapeshellarg` allocates has room exactly if the argument has a character other than a single
  quote (`ShellQuote.LargeEnough`), and the function stays inside its buffer exactly if it has room
  (`ShellQuote.EscapeShellArg`).
- `roundup_pow2` gives the least power of two exactly for 1 to 2^31, and zero otherwise
  (`RingSizing.RoundupExactly`).
- An aligned allocation lies inside its block exactly if size plus 64 does not wrap around
  (`Allocator.InsideExactly`, `Allocator.Heap.Al64Malloc`).
- A thread leaves the start-up barrier before all have arrived exactly in a step in which it sees `stop` while one
  is missing (`Barrier.EarlyLeaveExactly`).
- An INI item printed on a line after the first parses back exactly if it has the form of `IniRoundTrip.Form`
  (`IniRoundTrip.RoundTripExactly`).

## How the environment enters

Every answer of the environment is an input: results of send, receive, malloc and TUN writes, the clock, the
credentials check, what the kernel posts or takes, and when. So is what the packet buffer of a thread holds beyond
the bytes that a receive has written. One packet handler, one reaper check and one
shutdown close is one atomic step. `sendto` may fail with any error except EBADMSG; its retries on EAGAIN are
folded into its final result. The network may lose, repeat and reorder packets but only delivers packets that were
sent. The kernel never takes more submissions than it is given and never transfers more bytes than it is asked
for. A loop that may run for ever takes its answers from a script and stops where the script ends, so its
contract describes every state it can reach. A 256 x 256 table is one sequence in row-major order.

The contracts of methods on objects keep an invariant in every call, so it holds after any sequence of calls.
The engine (`ServerSafety`), `Protocol`, `SubmissionRing`, `Barrier`, `Allocator` and `CopyRuns` state it for
explicit runs, and `EpollServer.Serve` shows that any sequence of calls on a started server is such a run.

## Model

| member | source | states |
|---|---|---|
| SlotStack.BtStack.Pop | src/teavpn2/stack.h:19-31 | the top index is removed and returned, -1 exactly on the empty stack |
| SlotStack.BtStack.Push | src/teavpn2/stack.h:34-45 | the index becomes the top, or -1 and no change exactly when the stack is full |
| SlotStack.BtStack.constructor | src/teavpn2/stack.h:48-63 | a new stack is empty with the given capacity |
| SessionEngine.CellIsLow16 | src/teavpn2/server/linux/udp_session.c:11-18 | two addresses share a table cell exactly when their low 16 bits agree |
| SessionEngine.LookupSound | src/teavpn2/server/linux/udp_session.c:103-127 | a found session is connected and has the key; none found means no connected session has it |
| SessionProofs.SlotsConserved | src/teavpn2/server/linux/udp_session.c:59-100 | free slots and connected sessions add up to all slots |
| SessionProofs.DeleteNeverFindsStackFull | src/teavpn2/server/linux/udp_session.c:184-197 | deleting a connected session always finds room on the free stack |
| SessionProofs.InitInv | src/teavpn2/server/linux/udp.c:303-383 | the initialised tables satisfy the whole invariant |
| SessionProofs.AdmitInv | src/teavpn2/server/linux/udp_session.c:59-100 | creating a session for a key that lookup does not find keeps slot partition, counter, chains and key uniqueness, also when a bucket cannot be allocated |
| SessionProofs.DeleteInv | src/teavpn2/server/linux/udp_session.c:184-197 | deleting a connected session keeps the whole invariant |
| SessionProofs.LookupRefines | src/teavpn2/server/linux/udp_session.c:103-127 | lookup answers exactly what the finite map of connected endpoints holds |
| SessionProofs.CreateRefines | src/teavpn2/server/linux/udp_session.c:59-100 | a create adds one entry for a free slot, or changes nothing: slots full only when the map is full, out of memory only when malloc failed |
| SessionProofs.DeleteRefines | src/teavpn2/server/linux/udp_session.c:130-197 | a delete removes the deleted session's entry and no other |
| SessionProofs.ViewSize | src/teavpn2/server/linux/udp_session.c:59-100 | the map has as many entries as sessions are connected |
| SessionProofs.ApplyRefines | src/teavpn2/server/linux/udp_session.c:21-197 | each table operation is the corresponding step of a finite map |
| SessionProofs.TableRefinesMap | src/teavpn2/server/linux/udp_session.c:21-197 | over any run of create, lookup and delete the chained table behaves as a finite map |
| SessionMap.InsertInChain | src/teavpn2/server/linux/udp_session.c:21-56 | the session is appended to the chain: into an empty head, else into a new bucket at the end, unless malloc fails |
| SessionMap.FindInChain | src/teavpn2/server/linux/udp_session.c:103-127 | the first bucket with the key is found, or there is none in the chain |
| SessionMap.RemoveFromChain | src/teavpn2/server/linux/udp_session.c:130-181 | exactly the given session leaves the chain, which stays well linked; an empty head never has a successor |
| SessionMap.DropHead | src/teavpn2/server/linux/udp_session.c:153-169 | an emptied head takes over its successor, keeping every other entry in order |
| SessionMap.Table.constructor | src/teavpn2/server/linux/udp.c:322-339 | the initial table has 65536 empty heads |
| SessionMap.Table.Insert | src/teavpn2/server/linux/udp_session.c:21-56 | only the chain of the address's cell grows, by the given session at its end |
| SessionMap.Table.Find | src/teavpn2/server/linux/udp_session.c:103-127 | the cell's chain is searched in order |
| SessionMap.Table.Remove | src/teavpn2/server/linux/udp_session.c:130-181 | only the chain of the session's cell changes, by losing that session |
| Server.InitSessionArray | src/teavpn2/server/linux/udp.c:303-319 | every slot is blank and knows its index |
| Server.InitSessionStack | src/teavpn2/server/linux/udp.c:342-369 | all indices are on the stack, the smallest on top |
| Server.SrvUdpState.Start | src/teavpn2/server/linux/udp.c:463-498 | the objects start out as the initial engine state |
| Server.SrvUdpState.CreateUdpSess | src/teavpn2/server/linux/udp_session.c:59-100 | the objects go from the engine state to its create, with the same session, error or rollback |
| Server.SrvUdpState.LookupUdpSess | src/teavpn2/server/linux/udp_session.c:103-127 | the session object of the engine's lookup is returned, or null |
| Server.SrvUdpState.Rollback | src/teavpn2/server/linux/udp_session.c:81-87 | after a failed bucket allocation the index is back on the stack and nothing else differs from the create's result |
| Server.SrvUdpState.Vacate | src/teavpn2/server/linux/udp_session.c:184-193 | the index is pushed, the session unlinked and its slot reset, and unlinking succeeds exactly if it was in its chain |
| Server.SrvUdpState.DeleteUdpSession | src/teavpn2/server/linux/udp_session.c:184-197 | on a connected session the objects go to the engine's delete, and unlinking never fails |
| Server.SrvUdpState.ResetSlot | src/teavpn2/server/linux/udp.h:306-311 | the slot's record is blank again and keeps its index |
| Server.SrvUdpState.AddIpv4RouteMap | src/teavpn2/server/linux/udp.h:394-410 | exactly the address's cell changes, to index plus one |
| Server.SrvUdpState.DelIpv4RouteMap | src/teavpn2/server/linux/udp.h:413-428 | exactly the address's cell changes, to zero |
| Server.SrvUdpState.GetIpv4RouteMap | src/teavpn2/server/linux/udp.h:431-444 | the cell's session index, or -ENOENT for a zero cell |
| EpollServer.CloseUdpSession | src/teavpn2/server/linux/udp_epoll.c:323-336 | the close packet is sent, a nonzero address's route cleared and the session deleted, as in the engine |
| EpollServer.HandleClientHandshake | src/teavpn2/server/linux/udp_epoll.c:420-519 | a good handshake is answered, any other rejected and the new session closed, as in the engine |
| EpollServer.HandleNewClient | src/teavpn2/server/linux/udp_epoll.c:522-559 | packets that cannot start a session are dropped; else a session is created and greeted, as in the engine |
| EpollServer.HandleClpktAuth | src/teavpn2/server/linux/udp_epoll.c:562-630 | credentials are checked, the session marked and routed or closed, as in the engine |
| EpollServer.DispatchPacket | src/teavpn2/server/linux/udp_epoll.c:698-741 | each packet type has the engine's effect and result |
| EpollServer.HandleKnownClient | src/teavpn2/server/linux/udp_epoll.c:744-783 | a bad packet closes the session, an error is passed on, else the packet is counted, as in the engine |
| EpollServer.HandleEventFromUdp | src/teavpn2/server/linux/udp_epoll.c:744-783 | the whole step for one packet on the objects is the engine's step and keeps the invariant |
| EpollServer.CountPacket | src/teavpn2/server/linux/udp_epoll.c:769-783 | the eight-bit loop counter advances, with a sync packet on every 32nd |
| EpollServer.ZrCheck | src/teavpn2/server/linux/udp_epoll.c:1049-1113 | one reaper check on the objects is the engine's check |
| EpollServer.ZombieReaperDoScan | src/teavpn2/server/linux/udp_epoll.c:1116-1139 | one reaper scan on the objects is the engine's scan and keeps the invariant |
| EpollServer.CloseClientSess | src/teavpn2/server/linux/udp_epoll.c:1355-1370 | the shutdown loop on the objects is the engine's and keeps the invariant |
| EpollServer.BroadcastPacket | src/teavpn2/server/linux/udp_epoll.c:827-850 | the sessions sent to and the result are those of the engine's broadcast |
| EpollServer.RouteTunPacket | src/teavpn2/server/linux/udp_epoll.c:805-869 | the sessions sent to and the result are those of the engine's routing |
| EpollServer.HandleEvent | src/teavpn2/server/linux/udp_epoll.c:744-1370 | one packet, reaper check or shutdown close takes the objects through one step of a run |
| EpollServer.Serve | src/teavpn2/server/linux/udp_epoll.c:744-1370 | any sequence of events on a started server takes the objects to the state that the same run of the engine ends in |
| ServerSafety.HandlePacketInv | src/teavpn2/server/linux/udp_epoll.c:744-783 | every packet keeps the whole invariant |
| ServerSafety.StepInv | src/teavpn2/server/linux/udp_epoll.c:744-1139 | every packet, reaper check and shutdown close keeps the whole invariant |
| ServerSafety.ReachablePartition | src/teavpn2/server/linux/udp_session.c:59-197 | in every reachable state the free stack and the connected sessions partition the slots without duplicates, and the counter is the number connected |
| ServerSafety.CloseRoutes | src/teavpn2/server/linux/udp_epoll.c:323-336 | a close keeps every nonzero cell sound exactly when the session's address is not 0.0.0.0 or no cell names it |
| ServerSafety.LoginThenClose | src/teavpn2/server/linux/udp_epoll.c:562-630 | a login with an address and a close leave sound routes exactly when the address is not 0.0.0.0 |
| ServerSafety.LoginRouteInv | src/teavpn2/server/linux/udp_epoll.c:602-605 | a login points the address's cell at its session and keeps the others sound |
| ServerSafety.StepRouteInv | src/teavpn2/server/linux/udp_epoll.c:323-1064 | every step without a 0.0.0.0 assignment keeps the route invariant, and the inverse property while no two sessions share a cell |
| ServerSafety.ReachableRoutes | src/teavpn2/server/linux/udp.h:394-444 | in every run without a 0.0.0.0 assignment each nonzero cell names a connected authenticated session with those low bytes; the table is the inverse of the assignment throughout exactly if cells are never shared |
| ServerSafety.BroadcastExact | src/teavpn2/server/linux/udp_epoll.c:827-850 | a broadcast tries each authenticated session once in index order, up to the first failure, and returns that failure |
| ServerSafety.AuthenticatedFromExact | src/teavpn2/server/linux/udp_epoll.c:827-850 | the list of recipients is increasing and holds exactly the authenticated slots |
| ServerSafety.TunPacketTargets | src/teavpn2/server/linux/udp_epoll.c:805-869 | a TUN packet goes only to connected authenticated sessions; with a route to the mapped one, with zero or that error as the result; only after ENOENT, and without a route, also to the authenticated ones in index order |
| ServerSafety.ReachableTunPacket | src/teavpn2/server/linux/udp_epoll.c:805-869 | all of this in every reachable state |
| ServerSafety.ScanExact | src/teavpn2/server/linux/udp_epoll.c:1066-1139 | a scan resets exactly the sessions idle for more than 180 seconds, or 30 if not authenticated, clears exactly their cells, and sends them close packets and the others 7, 5, 3 or 1 sync requests above 144, 108, 72 or 36 seconds |
| ServerSafety.ScanNothing | src/teavpn2/server/linux/udp_epoll.c:1116-1126 | with a zero counter the full loop would do nothing, so the early exit is justified |
| ServerSafety.ReaperScan | src/teavpn2/server/linux/udp_epoll.c:1066-1139 | the same for the whole scan with its early exit; afterwards no session is idle beyond its limit, the others are untouched, and their routes too while cells are not shared |
| ServerSafety.ShutdownFromExact | src/teavpn2/server/linux/udp_epoll.c:1355-1370 | shutdown closes every connected session exactly once and sends each its close packet |
| ServerSafety.ShutdownExact | src/teavpn2/server/linux/udp_epoll.c:1355-1370 | afterwards all slots are free, the counter is zero and every chain is empty |
| PacketLaws.KnownClientSpec | src/teavpn2/server/linux/udp_epoll.c:562-783 | which packets end their session; what each other type changes in the slot, routes and map, what is sent and what is returned |
| PacketLaws.NewClientSpec | src/teavpn2/server/linux/udp_epoll.c:420-559 | which packets start a session, what the new one holds, and what is sent and returned when it is greeted, rejected, or finds no slot or memory |
| PacketLaws.PacketExactly | src/teavpn2/server/linux/udp_epoll.c:744-783 | every packet does that to the session of its endpoint, or starts one, and changes no other connected slot |
| ActivityLaws.StepOnSession | src/teavpn2/server/linux/udp_epoll.c:698-1370 | a session is closed in a step exactly if a packet of its own ends it, a check finds it expired or it is shut down; else only a packet of its own changes it |
| ActivityLaws.AliveWhileInTouch | src/teavpn2/server/linux/udp_epoll.c:698-1113 | in every run with a clock that does not go back, a session that sends a sync packet or a request for one within 180 seconds of each check, or 30 before it is authenticated, is never closed by the reaper |
| ActivityLaws.ReachableResting | src/teavpn2/server/linux/udp.h:306-311 | in every reachable state a free slot holds nothing of an old session but a packet counter of at most one |
| ActivityLaws.NewSession | src/teavpn2/server/linux/udp_epoll.c:522-559 | a greeted session starts active now, unauthenticated, without address and name |
| AuthPacket.FieldsRead | src/teavpn2/client/linux/udp.h:193-202 | the server reads from the client's auth packet the credentials that were put in |
| AuthPacket.CarriesExactly | src/teavpn2/server/linux/udp_epoll.c:562-588 | the credentials read are the same whatever the buffer held exactly if the packet reaches the end of the password |
| Client.ChecksAgree | src/teavpn2/client/linux/udp.c:368-541 | of the packets the server prepares, the handshake check accepts the handshake reply only and the login check the AUTH_OK packet only |
| Client.ChecksExactly | src/teavpn2/client/linux/udp.c:368-541 | both checks accept exactly whole packets of their type, length and version, and tell a close packet from a bad one |
| Client.HandshakeInNumbers | src/teavpn2/client/linux/udp.c:469-501 | the handshake loop gives up after five timeouts, takes a reset for final from the third request on, and ends with the first other answer |
| Client.AuthInNumbers | src/teavpn2/client/linux/udp.c:602-624 | the login loop gives up after six timeouts and ends with the first other answer |
| Client.DoHandshake | src/teavpn2/client/linux/udp.c:467-501 | at most five requests; the loop goes on exactly while a retry is due and returns the last result |
| Client.DoAuth | src/teavpn2/client/linux/udp.c:608-624 | at most six requests; the loop goes on exactly while a retry is due and returns the last result |
| Protocol.StepEffect | src/teavpn2/server/linux/udp_epoll.c:420-630 | what one server step sends and records follows from the packet it handles and the session it is on |
| Protocol.RunInv | src/teavpn2/server/linux/udp_epoll.c:420-630 | the invariant of server, clients and network holds in every state of every run |
| Protocol.RunGoesOn | src/teavpn2/server/linux/udp_epoll.c:420-630 | every run goes on with every enabled event, so requiring the server's invariant of its states excludes nothing |
| Protocol.AuthenticationIsGenuine | src/teavpn2/client/linux/udp.c:467-624 | an authenticated client's endpoint was greeted, and on that session, uninterrupted, valid credentials of a client at that endpoint were accepted; its own if no others used there are valid |
| Protocol.GenuineExactly | src/teavpn2/client/linux/udp.c:504-624 | in all runs an authenticated client had its own credentials accepted exactly if no other credentials used at its endpoint are valid |
| Protocol.StolenLogin | src/teavpn2/client/linux/udp.c:504-624 | a run in which a restarted client takes an earlier client's replies for its own |
| Protocol.RequestsBounded | src/teavpn2/client/linux/udp.c:467-624 | in no run does a client send more than five handshakes or six login requests |
| Protocol.HandshakeMatches | src/teavpn2/client/linux/udp.c:467-501 | the client steps of a run are the turns of the handshake loop, with the same number of requests and result |
| Protocol.AuthMatches | src/teavpn2/client/linux/udp.c:608-624 | the client steps of a run are the turns of the login loop, with the same number of requests and result |
| Logins.AlwaysSentExactly | src/teavpn2/server/linux/udp_epoll.c:562-607 | in all runs with auth packets of at least n bytes every accepted login used credentials that its endpoint has sent, exactly if n bytes reach the end of every valid password |
| Logins.BorrowedLogin | src/teavpn2/server/linux/udp_epoll.c:562-588 | a run with a login by a shorter packet, whose rest the buffer held |
| Logins.AfterStartExactly | src/teavpn2/client/linux/udp.c:504-624 | however a run goes on with a client's first request, a login of the authenticated client was accepted after it, exactly if no AUTH_OK was sent to the endpoint before |
| Logins.ReplayedReply | src/teavpn2/client/linux/udp.c:504-624 | from every other state a run in which the client takes the old replies and no login is accepted |
| Barrier.StepInv | src/teavpn2/server/linux/udp_epoll.c:966-1032 | every atomic step of any thread keeps the barrier's invariant |
| Barrier.BarrierHolds | src/teavpn2/server/linux/udp_epoll.c:966-1032 | in every interleaving the counter is the number of threads between increment and decrement, and unless stopped none has left the wait before all arrived |
| Barrier.EarlyLeaveExactly | src/teavpn2/server/linux/udp_epoll.c:966-1007 | a step lets a thread leave too early exactly if it sees the stop flag while another thread has not arrived |
| Barrier.BarrierOpens | src/teavpn2/server/linux/udp_epoll.c:966-1007 | once all threads wait, the main thread passes, and then every other one can |
| Barrier.OnlyOwnStep | src/teavpn2/server/linux/udp_epoll.c:966-1370 | the flags are set by their own steps only, and a step moves one thread one phase on |
| Bits.AndMask | src/ext/liburing/src/queue.c:378-390 | masking with a power of two minus one is the remainder |
| Bits.AndHigh | src/ext/liburing/src/setup.c:221-248 | masking with the high bits of a word clears the low ones |
| Bits.MaskedCounter | src/ext/liburing/src/queue.c:378-390 | the masked index of a wrapped counter is that of the unbounded one |
| SubmissionRing.AcquireDecision | src/ext/liburing/src/queue.c:378-390 | acquiring succeeds exactly when the space left is nonzero, also across wrap-around |
| SubmissionRing.AcquireRefines | src/ext/liburing/src/include/liburing.h:659-678 | with any head value at least as recent as the last, an acquired slot is the next in order and none still pending |
| SubmissionRing.FillRefines | src/ext/liburing/src/queue.c:378-390 | filling an acquired entry changes that entry of the queue only |
| SubmissionRing.StageRefines | src/ext/liburing/src/queue.c:195-212 | one turn of the flush loop stages the next entry in order |
| SubmissionRing.PublishRefines | src/ext/liburing/src/queue.c:214-218 | storing the tail publishes what is staged |
| SubmissionRing.TakeRefines | src/ext/liburing/src/queue.c:195-232 | the kernel sees an entry exactly if one is published, and reads the oldest |
| SubmissionRing.StepRefines | src/ext/liburing/src/queue.c:195-390 | every step of either party is the same step of an unbounded queue |
| SubmissionRing.KernelReadsInOrder | src/ext/liburing/src/queue.c:195-390 | in any interleaving the kernel reads each acquired entry once, in order, as it was when published |
| SubmissionRing.FreshRingIsFifo | src/ext/liburing/src/queue.c:195-390 | from a new ring, all that was read is a prefix of all that was acquired |
| SubmissionRing.IoUringSq.GetSqe | src/ext/liburing/src/queue.c:378-390 | the in-place acquire appends one entry to the queue, in a slot that no pending entry has, exactly if there is space |
| SubmissionRing.IoUringSq.StageEntry | src/ext/liburing/src/queue.c:208-212 | the in-place turn of the flush loop stages one entry |
| SubmissionRing.IoUringSq.FlushSq | src/ext/liburing/src/queue.c:195-232 | a flush publishes everything acquired and returns at least the true number pending |
| SubmissionRing.IoUringSq.KernelTakeEntry | src/ext/liburing/src/queue.c:195-232 | the kernel takes the oldest published entry, or nothing if there is none |
| CompletionRing.PeekExact | src/ext/liburing/src/queue.c:43-78 | a peek loses nothing, consumes only internal timeouts, and yields the oldest other entry, nothing, or a failed timeout's error |
| CompletionRing.PeekBatch | src/ext/liburing/src/queue.c:155-189 | a batch peek yields the oldest entries, as many as asked for and ready, and consumes none |
| CompletionRing.WaitTurnExact | src/ext/liburing/src/queue.c:88-135 | one turn of the wait accounts for what the kernel took, and stops only with the ring's head, an error, or nothing under SQPOLL |
| CompletionRing.TurnExactly | src/ext/liburing/src/queue.c:88-135 | a turn enters the kernel exactly if more is waited for than is pending, an idle ring has overflowed, or there is something to submit and the kernel does not poll for it; then the kernel takes the submissions or fails; -EAGAIN without entry exactly when idle |
| CompletionRing.EverythingSubmitted | src/ext/liburing/src/queue.c:88-135 | without SQPOLL a wait that returns zero has submitted everything if the kernel always takes all |
| CompletionRing.GetCqeExact | src/ext/liburing/src/queue.c:88-135 | over any number of turns the remaining submit count is the initial one minus all taken, and a returned entry is the ring's head |
| CompletionRing.ZeroMeansCompletionExactly | src/ext/liburing/src/queue.c:88-135 | zero always comes with an entry exactly when the ring has no SQPOLL, or something is waited for, or nothing submitted |
| CompletionRing.IoUringCq.CqReady | src/ext/liburing/src/include/liburing.h:700-703 | the wrapped difference is the number of pending entries |
| CompletionRing.IoUringCq.CqAdvance | src/ext/liburing/src/include/liburing.h:190-202 | the head moves by that many, and the ring is intact exactly if no more entries were consumed than were pending |
| CompletionRing.IoUringCq.PeekCqe | src/ext/liburing/src/queue.c:43-78 | the loop over the ring in memory is the peek on the pending entries, across wrap-around |
| CompletionRing.IoUringCq.WaitOnce | src/ext/liburing/src/queue.c:88-135 | one turn on the ring in memory is one turn on the pending entries |
| CompletionRing.IoUringCq.GetCqeLoop | src/ext/liburing/src/queue.c:88-135 | the wait loop on the ring in memory is the one on the pending entries |
| CompletionRing.IoUringCq.PeekBatchCqe | src/ext/liburing/src/queue.c:155-189 | the batch read from the ring in memory is the batch of pending entries |
| RingSizing.Fls | src/ext/liburing/src/setup.c:221-248 | the five shifts compute the number of binary digits |
| RingSizing.BitLengthExact | src/ext/liburing/src/setup.c:221-248 | that number is the least exponent whose power of two is larger |
| RingSizing.RoundupExactly | src/ext/liburing/src/setup.c:250-253 | the result is the least power of two not smaller exactly for 1 to 2^31, else zero |
| RingSizing.NpagesExact | src/ext/liburing/src/setup.c:255-260 | the exponent gives the least power of two of pages that suffices, less than twice the pages needed |
| RingSizing.RingsSize | src/ext/liburing/src/setup.c:262-276 | for all inputs the 64-bit size of both queues in powers of two of pages; within the kernel's limits whole pages, at least both queues and less than twice what both need in pages |
| RingSizing.QueueSizes | src/ext/liburing/src/setup.c:262-276 | 320 bytes and 16 for each completion entry rounded up to 64, and 64 for each submission entry |
| RingSizing.EntriesExactly | src/ext/liburing/src/setup.c:315-344 | the least powers of two that hold the entries, up to 32768 and 65536; the completion queue has twice the submission entries unless asked otherwise |
| RingSizing.RefusedExactly | src/ext/liburing/src/setup.c:315-344 | a set-up is refused exactly if it is empty, too large and not to be clamped, or a power of two holds the completion entries but not the submission entries |
| RingSizing.MlockSizeParams | src/ext/liburing/src/setup.c:315-344 | refused exactly for an empty, too large unclamped or too small queue; else the size with those bounds for the clamped and rounded entries |
| CopyProgram.QueueReads | src/ext/liburing/examples/io_uring-cp.c:135-153 | the loop walks the transitions of queueing reads, until nothing is unread, 64 requests are under way or one cannot be queued |
| CopyLoop.QueueHasRoom | src/ext/liburing/examples/io_uring-cp.c:65-78 | the submission queue always has room for a record that is queued again, so the assertion never fires |
| CopyProgram.HandleCompletion | src/ext/liburing/examples/io_uring-cp.c:190-222 | a retried or short request is queued again for exactly the rest, a full read becomes a submitted write of the whole chunk, a full write is freed |
| CopyLoop.Partition | src/ext/liburing/examples/io_uring-cp.c:119-245 | bytes being read, being written, finished and unread add up to the file |
| CopyProgram.ReapAll | src/ext/liburing/examples/io_uring-cp.c:166-222 | the completion loop walks the transitions of waiting, peeking and handling completions, and ends where the run says |
| CopyLoop.ShortWriteHole | src/ext/liburing/examples/io_uring-cp.c:226-242 | a short write while draining leaves a byte that is never written |
| CopyRuns.CompletedGood | src/ext/liburing/examples/io_uring-cp.c:190-222 | a handled completion in the main loop keeps every record counted and every written byte right |
| CopyRuns.StepClean | src/ext/liburing/examples/io_uring-cp.c:119-245 | every transition but a failed submission and a short drained write keeps the conservation invariant |
| CopyRuns.StepSpoils | src/ext/liburing/examples/io_uring-cp.c:156-162 | a failed submission or a short drained write leaves a byte that nothing will write |
| CopyRuns.EveryState | src/ext/liburing/examples/io_uring-cp.c:119-245 | in every state of every run each written byte is right, and before such an event the records and counters conserve the file |
| CopyRuns.CompleteExactly | src/ext/liburing/examples/io_uring-cp.c:119-245 | a run that returns zero has copied everything exactly if no submission in the main loop failed and no drained write moved fewer bytes than asked |
| CopyRuns.ShortCopy | src/ext/liburing/examples/io_uring-cp.c:226-244 | a run of a two-byte file that returns zero with the second byte missing |
| CopyRuns.AssertionHolds | src/ext/liburing/examples/io_uring-cp.c:65-78 | in every run the submission queue has room when a request is queued again, so the assertion never fires |
| CopyRuns.NeverStuckExactly | src/ext/liburing/examples/io_uring-cp.c:119-245 | no run whose delays are of the given kinds waits where only an error can wake it, exactly if the file is empty or no kind is given |
| CopyRuns.StuckOnlyAfterDelay | src/ext/liburing/examples/io_uring-cp.c:119-245 | a run without failed allocations, incomplete submissions and -EAGAIN or short completions never gets there |
| CopyRuns.DelayedRun | src/ext/liburing/examples/io_uring-cp.c:135-206 | for every file that is not empty and each of these four kinds a run that gets there with delays of this kind only |
| CopyRuns.ReturnsExactly | src/ext/liburing/examples/io_uring-cp.c:156-245 | it returns one exactly after a failed wait, peek or completion other than a retried one, and zero exactly when no write is under way after a failed submission, while draining, or with nothing left to be read |
| CopyRuns.GoesOnExactly | src/ext/liburing/examples/io_uring-cp.c:126-245 | otherwise it queues reads while there are unread bytes and fewer than 64 requests, submits if it queued any, and handles completions until there is none |
| CopyProgram.Drain | src/ext/liburing/examples/io_uring-cp.c:226-244 | the drain loop walks the transitions of draining until the run ends, fails or has no completion |
| CopyProgram.CopyFile | src/ext/liburing/examples/io_uring-cp.c:119-245 | what it does is a run whose events are those the answers make happen, one by one; it returns exactly when the run ends; if it returns zero the copy is complete exactly if no event of the run spoils it |
| CopyProgram.OneOutcome | src/ext/liburing/examples/io_uring-cp.c:119-245 | two runs made by the same answers and followed to where the program stops have the same events, result and final state |
| CopyProgram.EveryRunHasAnswers | src/ext/liburing/examples/io_uring-cp.c:119-245 | every run is made by some answers |
| IniText.FindStopExact | src/ext/inih/inih.c:72-91 | the scan stops at the first wanted character or inline comment |
| IniText.RStrippedExact | src/ext/inih/inih.c:48-55 | only white space is stripped, and none is left at the end |
| IniText.LStrippedExact | src/ext/inih/inih.c:62-70 | only white space is skipped, and none is left at the start |
| IniText.ChunkExact | src/ext/inih/inih.c:275-298 | a chunk ends at its first line feed, when the buffer is full or with the text |
| IniText.LinesExact | src/ext/inih/inih.c:275-298 | the reader's chunks concatenate to the whole text and are at most 199 characters |
| IniText.ParseLinesExact | src/ext/inih/inih.c:146-250 | every line is processed in order whatever came before, and the first bad one is recorded |
| IniText.FirstBadLine | src/ext/inih/inih.c:107-251 | the result is zero exactly if no line is bad, else the number of the first one, with all later calls still made |
| IniLines.LineExactly | src/ext/inih/inih.c:167-243 | blank lines and comments do nothing; an indented line after a pair calls with its name; a bracket line is bad exactly without a closing bracket, any other exactly without a delimiter before its end or an inline comment; a call makes a line bad exactly if refused |
| IniLines.TextExactly | src/ext/inih/inih.c:107-251 | so for every line of a text, and the result is the number of the first bad line or zero |
| IniLines.ContentExact | src/ext/inih/inih.c:48-70 | what is parsed of a line is a middle part with only white space around it and none at its ends |
| IniRoundTrip.ParsedForm | src/ext/inih/inih.c:177-237 | whatever is parsed as a section or pair has the printable form |
| IniRoundTrip.RoundTripExactly | src/ext/inih/inih.c:169-237 | a section, pair, continuation, blank or comment line after the first parses back to itself exactly if it has that form |
| IniRoundTrip.LinesOfPrint | src/ext/inih/inih.c:275-298 | the reader delivers printed items one per line |
| IniRoundTrip.PrintThenParse | src/ext/inih/inih.c:107-251 | parsing printed well-formed items calls the handler with exactly the sections, names, values and line numbers of their pairs and continuations, and for nothing else |
| IniParser.RStrip | src/ext/inih/inih.c:48-55 | the string in the buffer is stripped in place and nothing outside it changes |
| IniParser.LSkip | src/ext/inih/inih.c:62-70 | the returned position holds the left-stripped string |
| IniParser.FindCharsOrComment | src/ext/inih/inih.c:72-91 | the returned position is where the scan of the string stops |
| IniParser.Strncpy0 | src/ext/inih/inih.c:94-104 | the destination holds the string, cut off to fit |
| IniParser.ReadLine | src/ext/inih/inih.c:275-298 | the buffer holds the next chunk, and there is one exactly if text is left |
| IniParser.Strip | src/ext/inih/inih.c:169-177 | the returned position holds the line without byte order mark and surrounding white space |
| IniParser.SectionLine | src/ext/inih/inih.c:190-206 | the section buffer holds the cut section name exactly if a closing bracket is found |
| IniParser.PairLine | src/ext/inih/inih.c:207-224 | name and value stand apart in the buffer exactly if there is a delimiter |
| IniParser.TrimValue | src/ext/inih/inih.c:214-220 | the value loses its inline comment and outer white space while the name stays |
| IniParser.ScanLine | src/ext/inih/inih.c:167-243 | one round of the loop on the buffers is one line of the parse on strings |
| IniParser.ParseText | src/ext/inih/inih.c:107-251 | the whole parser on its buffers gives the result and the calls of the parse on strings |
| ShellQuote.EscapeShellArg | src/teavpn2/net/linux/iface.c:102-161 | for any buffer it returns the quoted length and stays inside exactly if there is room, and then the buffer holds the quoted argument and a NUL; the rest of it is untouched |
| ShellQuote.ShellReadsBack | src/teavpn2/net/linux/iface.c:102-161 | a shell reads the output as one word that stands for exactly the argument |
| ShellQuote.QuotedLength | src/teavpn2/net/linux/iface.c:121-155 | the output is as long as the argument plus three per quote plus two |
| ShellQuote.LargeEnough | src/teavpn2/net/linux/iface.c:110-114 | the allocated buffer has room exactly if some character is not a single quote |
| StrTrim.StrTrimLMove | src/teavpn2/net/linux/iface.c:31-76 | the array holds the trimmed string at its start and nothing after the string's NUL changes |
| StrTrim.TrimExact | src/teavpn2/net/linux/iface.c:31-76 | the trimmed string is a middle part with only white space around it and none at its ends |
| Allocator.InsideExactly | src/teavpn2/allocator.c:40-57 | the pointer is aligned and its region inside the block exactly if the requested size did not wrap around |
| Allocator.MallocGood | src/teavpn2/allocator.c:40-57 | a new allocation keeps all live ones sound |
| Allocator.RunSound | src/teavpn2/allocator.c:14-71 | in every run each live pointer is aligned inside its block, and the byte before it recovers the block's base |
| Allocator.Heap.Al64Malloc | src/teavpn2/allocator.c:40-57 | exactly one block, one shift byte and one live region are added, or nothing when malloc fails; all live regions are sound afterwards exactly if the requested size did not wrap around |
| Allocator.Heap.Al64Calloc | src/teavpn2/allocator.c:14-37 | the same for a zeroed block, with nothing else in memory changed but the shift byte, and NULL when the product overflows |
| Allocator.Heap.Al64Free | src/teavpn2/allocator.c:60-71 | free gets exactly the base of the pointer's block |

## Left out

- Sockets, epoll, TUN devices, signals, thread creation, file opening and logging: foreign effects; their results are inputs.
- Interleavings inside one packet handler or one reaper check: the locks cover single table operations, so each handler is one step.
- The packet buffer between two packets: what it holds beyond a packet is an input, not followed from packet to packet; text fields such as the reject message and the printable source address are not modelled.
- `free` of buckets, `err_c`, the emergency flags and the retry loop inside `send_to_client`.
- `al64_realloc`: called nowhere in the repository; its shift can change without the data moving.
- `sane_strncpy` and `strtrim_move` of `iface.c`: one-call wrappers that keep no state.
- The netmask loop and interface commands of `iface.c`, the GUI, option parsing and `print.c`.
- liburing's `register.c`, `syscall.c`, the mapping parts of `setup.c`, the `io_uring_prep_*` helpers and its tests.
- Weak memory: every load and store of a ring or an atomic is one step of a sequentially consistent interleaving.
- Barrier.BarrierHolds: thread shut-down after the event loop is modelled only up to the decrement.
- ServerSafety.ReaperScan: the results of sending sync requests, which the reaper ignores, are not modelled; all are listed as sent.
- ShellQuote.EscapeShellArg: a write outside the buffer is reported and has no other effect; what the source overwrites there is not modelled.
- Allocator.Heap.Al64Malloc: `malloc` returns NULL or a block of its own, of the size asked for.
- CopyProgram.CopyFile: the bytes of a request move when its completion is handled, not at some time before; a completion reports no more bytes than were asked for.
- IniParser.ParseText: the text has no NUL, as a C string; reading from a file with `fgets` is not modelled.
- EpollServer.RouteTunPacket: the packet's parsing is an input (whether it is IPv4, and its destination).
