# Mgx, verified

A Dafny model of the core of the Mgx C++ network framework, with proofs about it. Each
module models one component:

- `Framing`: TCP packet reassembly, as a four-state machine driven by `recv` results of any
  size, against a parser of the whole byte stream.
- `Streams`: streams in which anything may come, as lists of packets and refused headers.
- `Dispatch`: packet building and the chain of CRC, generation and handler checks; packets
  end to end.
- `Crc32`, `CrcDivision` (with `Bytes`): the table-driven CRC-32 against the bit-by-bit
  register, the errors it detects, and the register against polynomial division.
- `ThreadPool`: the queue, mutex, size counter and semaphore, one shared-state statement at
  a time, in every interleaving, with waits interrupted by signals.
- `Ownership`: connections and thread pool together: where each packet buffer is, and what
  each connection delivers.
- `ConnPool`, `Generations`: the connection pool with delayed reclamation, event tags and
  the generation stamps of packets, replies and timers.
- `Heartbeat`: the timer queue that re-arms entries while it is drained, and the pass that
  recycles silent connections.
- `Scheduler`, `SchedulerRuns`: coroutines, ready list, sleep tree, epoll set and
  `schedule`; whole runs of it.
- `CoroutineLives`: how a coroutine was put away decides when and by what it is resumed next.
- `Digits`, `Printf`, `PrintedNumbers`, `Log` (with `CStrings`): the number printer, the
  bounded formatter as the truncation of an unbounded one, what its numbers mean, and the
  log line.
- `Conversions`: what the directives without numbers print.
- `Handlers`: how the handlers log what a peer sent.
- `Doubles`, `FixedPoint`: the double arithmetic of `%f`.
- `HttpHeaders`: the header parser and the header printer.

Code that updates state in place is modelled by classes, arrays and loops whose contracts
equate the new state with a function of the old one; the properties are proved about these
functions. Verify with `dafny verify dfyconfig.toml`.

## Assumptions

- One event-loop handler call, one iteration of the reclaiming loop and one timer drain with
  its pass are atomic. The code does not lock all of these. The thread pool is modelled at
  the grain of single statements.
- The generation check of the send loop and the send behind it are one step
  (`net/mgx_socket.cpp:317-342`); the code lets a connection be recycled in between.
- The generation counter `m_cur_seq` is an unbounded natural number.
- The packet header is 8 bytes, packed and little-endian; connection addresses are even.
- The clock does not go back. Callers recycle only connections that were handed out and
  close only connections in use; what the code does otherwise is stated by the
  if-and-only-if lemmas `RecyclePartition` and `ClosePartition`.
- epoll reports only registered descriptors, each at most once in a batch, and a coroutine
  waits on a descriptor that no other coroutine waits on.
- C arguments are read on a machine with 32-bit `int` and 64-bit `long` and pointers.
- Every double operation is rounded to nearest, ties to even, by itself: no fused
  multiply-add, no extended precision.

## Findings

Properties that do not hold of the code as one would expect, each with an input or a run and
the exact condition:

- `Dispatch.RegisterReplyRefused`: the register reply is larger than the framing accepts;
  `SizeLimitExact`.
- `ThreadPool.InterruptedPop`: a `sem_wait` interrupted by a signal (its result is ignored,
  handlers are installed without SA_RESTART in `signal/mgx_signal.cpp:43`, and no signal is
  blocked, `process/mgx_process_cycle.cpp:26-34`) lets a worker pop an empty queue;
  `SafeExactly`.
- `ConnPool.CloseWhileRecycling`: closing a connection that waits for reclamation leads to
  the same connection being handed out twice; `ClosePartition`.
- `ConnPool.StaleEventAccepted`: a stale event is accepted again in the hand-out after the
  next; `TagFreshness`.
- `Heartbeat.DrainEnds`: without the clamp on the wait the drain loop would not end.
- `SchedulerRuns.StrandedAtOnce`: EPOLLERR strands the waiting coroutine for good;
  `AbandonedExactly` and `StrandedForever`.
- `Printf.TrailingPercent`: a format that ends in the middle of a directive is read past its
  end; `SafeInEveryRoom`.
- `FixedPoint.PointFifteen`: `%f` with one place rounds a number below 0.15 to 0.2;
  `FixedExact`.
- `Log.EchoedPercent`: a log line with a directive in it is formatted a second time without
  arguments; `EchoIsSafe`.
- `Handlers.HandlerLogs`: a register or login packet without a body, or with a body without
  a NUL, makes its handler log from a null pointer or past the end of the buffer, when
  debug messages are logged.

## Model

| member | source | states |
|---|---|---|
| `Framing.ParseAppend` | net/mgx_socket_request.cpp:15-75 | Parsing a byte stream can be suspended anywhere and resumed with the bytes left over: parsing `s + t` is parsing `s`, then parsing its leftover followed by `t`. |
| `Framing.ParsePackets` | net/mgx_socket_request.cpp:107-139 | Every packet the parser delivers has the length its header states, between 8 and 29000 bytes. |
| `Framing.RecvParses` | net/mgx_socket_request.cpp:15-75 | One `recv` of any legal size does to the bytes held back exactly what the stream parser does to them, and leaves state, cursor and rest count consistent. |
| `Framing.RunStamps` | net/mgx_socket_request.cpp:126-128 | Every message delivered in one generation carries the counter of its connection in that generation, and so does a packet still being received. |
| `Framing.ChunkingIndependence` | net/mgx_socket_request.cpp:15-75 | For every starting state and every way of cutting the stream into `recv` results, packets delivered and bytes held back are those of the parser on the whole stream, and every packet is stamped with the connection's counter. |
| `Framing.HeldBack` | net/mgx_socket_request.cpp:15-75 | What a consistent receive state holds back contains no complete packet and no refused header. |
| `Framing.CutsAgree` | net/mgx_socket_request.cpp:15-75 | Two ways of cutting one stream end with the same packets, the same partial bytes and the same rest count. |
| `Framing.Connection.constructor` | net/mgx_socket_conn.cpp:43-53 | A new connection owns no packet buffer. |
| `Framing.Connection.GetOneToUse` | net/mgx_socket_conn.cpp:13-22 | A handed-out connection starts at a packet boundary, whatever partial packet preceded it, with its counter raised by one and its buffer account unchanged. |
| `Framing.Connection.PutOneToFree` | net/mgx_socket_conn.cpp:23-37 | A freed connection owns no buffer; one buffer is released exactly if it was in the middle of a packet body; the counter goes up by one. |
| `Framing.Connection.ProcessPacket` | net/mgx_socket_request.cpp:142-152 | The packet buffer goes to the thread pool with its stamp, ownership moves with it, and the state is that of a packet boundary. |
| `Framing.Connection.ProcessHeader` | net/mgx_socket_request.cpp:107-140 | A complete header is refused, delivered, or starts a body with a buffer of exactly the stated size that begins with the header; the in-place result is the machine function's. |
| `Framing.Connection.Store` | net/mgx_socket_request.cpp:17-19 | The received bytes follow those already there, and every write lies inside the header buffer or the packet buffer. |
| `Framing.Connection.HeaderBytes` | net/mgx_socket_request.cpp:22-46 | The two header states in place do what the machine function says and keep validity and the buffer account. |
| `Framing.Connection.BodyBytes` | net/mgx_socket_request.cpp:47-71 | The two body states in place do what the machine function says and keep validity and the buffer account. |
| `Framing.Connection.ReadRequest` | net/mgx_socket_request.cpp:15-105 | One readiness event with any `recv` outcome: data moves the machine by one step, anything else changes nothing and decides between keep, recycle and close; the connection keeps its packet buffer, gives it up, or has one that did not exist before; buffers allocated are as many as handed over, deleted and owned. |
| `Streams.RefusedIsSkipped` | net/mgx_socket_request.cpp:111-121 | A header of a wrong size is dropped, all 8 bytes of it and nothing else. |
| `Streams.ParsePieces` | net/mgx_socket_request.cpp:107-152 | A stream of any packets and refused headers with an incomplete piece behind it is parsed into exactly the packets, with that piece held back. |
| `Streams.EveryStream` | net/mgx_socket_request.cpp:15-152 | Every byte stream is such a list of packets and refused headers with an incomplete piece behind it. |
| `Streams.OneWay` | net/mgx_socket_request.cpp:15-152 | It is so in only one way. |
| `Streams.AnythingArrives` | net/mgx_socket_request.cpp:15-152 | However such a stream is cut into `recv` results, exactly the packets of the list are delivered, in order and with the connection's counter; the incomplete piece is held, and the connection is at a packet boundary exactly if there is none. |
| `Ownership.InitialInv` | net/mgx_socket_conn.cpp:39-54 | In the fresh system no buffer is anywhere and no connection owns one. |
| `Ownership.Step` | net/mgx_socket_request.cpp:107-152 | Every handler call, hand-out, freeing, recycling and pool statement keeps: each allocated buffer is in exactly one place, and a connection in use owns one exactly while it is in a packet body. |
| `Ownership.OneOwner` | net/mgx_socket_request.cpp:122-151 | In every run of connections and pool threads together, a buffer allocated is in exactly one of connection, caller, queue, worker and deleted; it is deleted at most once; a connection at a header or free owns none; no two connections share one. |
| `Ownership.ExactlyOnce` | misc/mgx_thread_pool.cpp:70-84 | In these runs no buffer is pushed twice or finished twice, and what was taken is finished or with exactly one worker, in the order pushed. |
| `Ownership.DeliveredStamp` | net/mgx_socket_request.cpp:126-145 | The message that goes to the pool carries the connection and the stamp its buffer was given when the header was complete. |
| `Ownership.CurrentExactly` | net/mgx_socket_request.cpp:126-128 | Whatever happens after a packet header was complete, also while the body is still coming, the stamp of the buffer is the counter of its connection if and only if that was not handed out, recycled or freed since. |
| `Ownership.ReachedIsLabelled` | net/mgx_socket_request.cpp:107-152 | Every state a fresh system reaches has one place per buffer, and a connection that owns a buffer is the one in its message header with the same stamp. |
| `Ownership.Reassembled` | net/mgx_socket_request.cpp:15-152 | In every run of the whole system, whatever other connections and threads do in between, a connection that is neither freed nor handed out delivers the packets of its own bytes and holds back the rest of them. |
| `Ownership.EachConnection` | net/mgx_socket_request.cpp:15-152 | From its hand-out on a connection delivers exactly the packets among the packets and refused headers its peer sends, cut and interleaved in any way. |
| `Dispatch.ThMsgProcess` | bussiness/mgx_logic_socket.cpp:38-78 | The chain of checks run with the CRC object gives the verdict of the specification in every case (no-body CRC, CRC error, stale, bad type, null handler, handled). |
| `Dispatch.EncodeFields` | bussiness/mgx_logic_socket.cpp:80-89 | An encoded packet reads back with its size, type, CRC field and body. |
| `Dispatch.WireFormat` | bussiness/mgx_logic_socket.cpp:80-89 | The layout of a packet byte by byte: size and type as little-endian shorts, CRC word, body. |
| `Dispatch.EncodedIsHandled` | bussiness/mgx_logic_socket.cpp:118-129 | An encoded packet passes the integrity check, and reaches a handler, with its kind and body, exactly if its stamp is current and its kind is below 3. |
| `Dispatch.IntegrityExact` | bussiness/mgx_logic_socket.cpp:45-58 | A packet passes the integrity check if and only if it is the encoding of some packet; otherwise it is discarded for its CRC field if it has no body and for a CRC error if it has one. |
| `Dispatch.HandledExactly` | bussiness/mgx_logic_socket.cpp:38-78 | A packet reaches a handler if and only if its stamp is current and it is, byte for byte, the encoding of a packet of kind 0, 1 or 2, and the handler gets the kind and body of that packet. |
| `Dispatch.AlteredCrcIsRejected` | bussiness/mgx_logic_socket.cpp:45-58 | A packet whose CRC field alone was altered, in any way, is discarded whatever the counters are, with or without a body. |
| `Dispatch.TamperedIsRejected` | bussiness/mgx_logic_socket.cpp:51-58 | A packet whose body was altered only within 32 consecutive bits is discarded with a CRC error whatever the counters are. |
| `Dispatch.ParseFlatten` | net/mgx_socket_request.cpp:107-152 | A stream of acceptable packets is cut back into exactly these packets with nothing left over. |
| `Dispatch.Arrives` | net/mgx_socket_request.cpp:15-152 | However the stream of acceptable packets is chunked, exactly these packets are delivered, each stamped with the connection's counter, and the connection is at a packet boundary. |
| `Dispatch.EndToEnd` | bussiness/mgx_logic_socket.cpp:38-78 | Any list of packets of at most 29000 bytes, encoded and fed in any chunks, reaches the dispatch as the same list, and with the connection's counter unchanged each passes the integrity and generation checks and is decided by its kind. |
| `Dispatch.EndToEndReplaced` | bussiness/mgx_logic_socket.cpp:38-78 | If one packet of a list is replaced by other bytes of its length with the same size field, these bytes arrive in its place and all others are delivered as sent. |
| `Dispatch.EndToEndTampered` | bussiness/mgx_logic_socket.cpp:38-78 | With one body altered within 32 consecutive bits, framing is undisturbed, all other packets are delivered as sent, and the altered one reaches no handler. |
| `Dispatch.EndToEndAlteredCrc` | bussiness/mgx_logic_socket.cpp:38-78 | With the CRC field of one packet altered in any way, all other packets are delivered as sent and that one reaches no handler. |
| `Dispatch.SizeLimitExact` | net/mgx_socket_request.cpp:111-121 | An encoded packet comes out of the receiver again if and only if it is at most 29000 bytes long. |
| `Dispatch.RegisterReplyRefused` | bussiness/mgx_logic_socket.cpp:118-129 | The 65008-byte register reply is not received by a peer that frames as this repository does. |
| `Crc32.PolyValue` | misc/mgx_crc32.cpp:24-24 | The polynomial of the model is the number 0xEDB88320. |
| `Crc32.BitStepLinear` | misc/mgx_crc32.cpp:22-27 | One register step is linear over exclusive or. |
| `Crc32.BitStepInjective` | misc/mgx_crc32.cpp:22-27 | One register step is injective. |
| `Crc32.FeedAppend` | misc/mgx_crc32.cpp:32-38 | Feeding bits composes over concatenation. |
| `Crc32.RegisterAppend` | misc/mgx_crc32.cpp:32-38 | The CRC of a concatenation is the CRC of the second part started from the CRC of the first, as the `crc` argument allows. |
| `Crc32.TableStep` | misc/mgx_crc32.cpp:35-35 | The table expression for one byte equals feeding its eight bits, low bit first. |
| `Crc32.Crc.constructor` | misc/mgx_crc32.cpp:18-30 | Every one of the 256 table entries is the index stepped eight times. |
| `Crc32.Crc.GetCrc32` | misc/mgx_crc32.cpp:32-38 | The table loop equals the bit-by-bit register for every input and every start value. |
| `Crc32.BurstDetected` | misc/mgx_crc32.cpp:32-38 | Two different equal-length inputs that differ only within a window of 32 bits, in low-bit-first order, have different registers from every start value. |
| `Crc32.FourBytesDetected` | misc/mgx_crc32.cpp:32-38 | Two different equal-length inputs that differ only within 4 consecutive bytes have different CRCs. |
| `Crc32.Residue` | misc/mgx_crc32.cpp:32-38 | Appending the register value in little-endian order brings the register to zero. |
| `CrcDivision.GeneratorIsPoly` | misc/mgx_crc32.cpp:24-24 | The constant of the table is the generator x^32 + x^26 + ... + 1 without its highest term, highest power in the lowest bit. |
| `CrcDivision.FeedDivides` | misc/mgx_crc32.cpp:32-38 | Feeding the bits of a message is polynomial division: shifted message with the start value added in front = quotient * generator + register. |
| `CrcDivision.DivisionUnique` | misc/mgx_crc32.cpp:32-38 | Quotient and remainder of that division are determined. |
| `CrcDivision.RegisterIsRemainder` | misc/mgx_crc32.cpp:32-38 | From any start value a word is the remainder if and only if it is the result of `get_crc32`. |
| `CrcDivision.Rfc1952Complement` | misc/mgx_crc32.cpp:32-38 | A word is the CRC of section 8 of RFC 1952, defined as the complement of the remainder of the message polynomial with its first 32 coefficients complemented, if and only if its complement is what `get_crc32` returns from 0xffffffff. |
| `ThreadPool.InitialInv` | misc/mgx_thread_pool.cpp:20-26 | The freshly created pool satisfies the invariant. |
| `ThreadPool.TokenNeverDiscarded` | misc/mgx_thread_pool.cpp:53-54 | Without interrupted waits, a worker whose `sem_wait` returned always finds the size positive, although it reads it without the mutex. |
| `ThreadPool.PopNeverEmpty` | misc/mgx_thread_pool.cpp:70-72 | Without interrupted waits, a worker inside the mutex always finds a message to pop. |
| `ThreadPool.InvStep` | misc/mgx_thread_pool.cpp:49-155 | Every enabled statement of every thread except an interrupted wait is safe and keeps mutual exclusion, the token equation (queue length = semaphore value + unspent tokens of workers + posts still owed by producers), the counter relation and message conservation. |
| `ThreadPool.LooseStep` | misc/mgx_thread_pool.cpp:49-155 | With interrupted waits, every safe statement keeps mutual exclusion, the counter relation, message conservation, and that the queue is no longer than tokens, workers under way and posts owed together. |
| `ThreadPool.InvRun` | misc/mgx_thread_pool.cpp:49-155 | After every interleaving without interrupted waits, of any number of workers and producers, the invariant holds and whatever can happen next is safe. |
| `ThreadPool.LooseRun` | misc/mgx_thread_pool.cpp:49-155 | After every interleaving with any number of interrupted waits, as long as no statement was undefined, what survives interruptions holds. |
| `ThreadPool.InterruptedPop` | misc/mgx_thread_pool.cpp:53-72 | Concrete run: one message, two workers and one interrupted `sem_wait` end with a worker about to pop the empty queue. |
| `ThreadPool.SafeExactly` | misc/mgx_thread_pool.cpp:53-72 | With interrupted waits, no run of a fresh pool reaches an undefined statement if and only if there is at most one worker or no caller. |
| `ThreadPool.FifoExactlyOnce` | misc/mgx_thread_pool.cpp:59-87 | In every interleaving, interrupted or not, messages are taken in the order pushed, none is lost, and each taken message is finished or with a worker, as often as it was taken. |
| `ThreadPool.StepsUseWork` | misc/mgx_thread_pool.cpp:49-155 | Every statement except a new call lowers the work measure, and an interruption raises it by at most six. |
| `ThreadPool.RunsAreBounded` | misc/mgx_thread_pool.cpp:49-155 | Without new calls the length of a run has a bound known beforehand, which each interruption raises by seven. |
| `ThreadPool.LockHolderCanMove` | misc/mgx_thread_pool.cpp:55-76 | Whoever owns the mutex has an enabled next statement. |
| `ThreadPool.QuietMeansDone` | misc/mgx_thread_pool.cpp:49-155 | With at least one worker, a pool in which only a new call or an interruption can happen has an empty queue and has finished exactly the messages pushed, interrupted before or not. |
| `ThreadPool.Pool.constructor` | misc/mgx_thread_pool.cpp:20-26 | The created pool is in the initial state and satisfies the invariant. |
| `ThreadPool.Pool.Step` | misc/mgx_thread_pool.cpp:49-155 | In place, from the invariant every enabled statement but an interruption is safe and restores it; every safe statement keeps what survives interruptions. |
| `ConnPool.InitValid` | net/mgx_socket_conn.cpp:39-54 | The initial pool of n connections is a valid partition with right counters, all n of them free. |
| `ConnPool.GetValid` | net/mgx_socket_conn.cpp:65-88 | `get_conn` keeps the pool valid, and the connection it returns is in use and carries the descriptor passed. |
| `ConnPool.RecyclePartition` | net/mgx_socket_conn.cpp:119-139 | `insert_recy_conn_queue` keeps the partition exactly if the connection is not free. |
| `ConnPool.ClosePartition` | net/mgx_socket_conn.cpp:141-148 | `close_conn` keeps the partition exactly if the connection is in use (neither recycling nor free). |
| `ConnPool.ReclaimValid` | net/mgx_socket_conn.cpp:168-171 | Freeing a recycling connection keeps the pool valid. |
| `ConnPool.StepValid` | net/mgx_socket_conn.cpp:39-180 | Every step the callers may take keeps the pool valid. |
| `ConnPool.Conservation` | net/mgx_socket_conn.cpp:39-180 | In every valid state each connection is in exactly one of free, recycling and in use, and the three sizes add up to the total counter. |
| `ConnPool.StepSeq` | net/mgx_socket_conn.cpp:13-37 | A step raises the generation counter of exactly the connections it hands out, recycles or frees, and leaves fields and place of all others alone. |
| `ConnPool.SeqMonotone` | net/mgx_socket_conn.cpp:13-37 | Generation counters never go down in a run. |
| `ConnPool.StampCurrent` | net/mgx_socket_conn.cpp:119-139 | After any run a stamp equals the connection's counter if and only if nothing in between handed it out, recycled or freed it. |
| `ConnPool.HandedFd` | net/mgx_socket_conn.cpp:70-85 | The connection `get_conn` returns carries the descriptor passed, whether it was free or is created. |
| `ConnPool.FdOfLastGet` | net/mgx_socket_conn.cpp:65-116 | After any run a connection that is not free has the descriptor of the last `get_conn` that returned it, or, if none did, the one it had. |
| `ConnPool.FdIsAccepted` | net/mgx_socket_conn.cpp:39-116 | In every run of a fresh pool a connection that is not free was handed out, and its descriptor is that of its last hand-out. |
| `ConnPool.ReusedInOrder` | net/mgx_socket_conn.cpp:71-72 | Free connections are reused in order: whatever happens in between, the free connection at place k is returned by exactly the (k+1)-th `get_conn` to come. |
| `ConnPool.FreedBehind` | net/mgx_socket_conn.cpp:108-116 | A connection that becomes free does so behind all that are free. |
| `ConnPool.DelayedReuse` | net/mgx_socket_conn.cpp:156-177 | A connection recycled at time t is not returned by `get_conn` on a clock reading below t + wait, however the run goes on. |
| `ConnPool.PackTag` | net/mgx_socket.cpp:229-229 | For even addresses the packed event tag unpacks to the same address and instance bit. |
| `ConnPool.TagFreshness` | net/mgx_socket.cpp:253-265 | An event tagged in one hand-out is let through later exactly if the connection is not free then and the number of hand-outs in between is even; so it is rejected while the connection is free and during the next hand-out. |
| `ConnPool.StaleEventAccepted` | net/mgx_socket.cpp:253-265 | Concrete run on one connection: an event tagged in the first hand-out is rejected while it is free and in the second hand-out, and accepted in the third for another descriptor. |
| `ConnPool.CloseWhileRecycling` | net/mgx_socket_conn.cpp:141-148 | Concrete run: a connection closed while it is recycling is freed twice and then handed out to two sockets. |
| `ConnPool.ConnectionPool.constructor` | net/mgx_socket_conn.cpp:39-54 | The in-place pool starts as the initial pool and is valid. |
| `ConnPool.ConnectionPool.Get` | net/mgx_socket_conn.cpp:65-88 | In-place `get_conn`: new state, returned connection, validity. |
| `ConnPool.ConnectionPool.InsertRecy` | net/mgx_socket_conn.cpp:119-139 | In-place `insert_recy_conn_queue`: new state and validity. |
| `ConnPool.ConnectionPool.CloseConn` | net/mgx_socket_conn.cpp:141-148 | In-place `close_conn`: new state and validity. |
| `ConnPool.ConnectionPool.RecyIteration` | net/mgx_socket_conn.cpp:160-177 | One element of the reclaiming loop is freed exactly if its waiting time has passed, and otherwise nothing changes. |
| `Generations.ReceivedStamp` | net/mgx_socket_request.cpp:126-128 | A message received on a connection, however cut, is a packet and carries the connection's counter. |
| `Generations.HandledInSameGeneration` | bussiness/mgx_logic_socket.cpp:60-64 | A received packet that passes the dispatch check after any run was received in the hand-out in which it is handled. |
| `Generations.HandledIf` | bussiness/mgx_logic_socket.cpp:38-78 | A received packet is handled after a run if and only if nothing in between handed out, recycled or freed its connection and its bytes are the encoding of a packet of a known kind. |
| `Generations.ReplyExactly` | net/mgx_socket.cpp:317-342 | The reply to a received packet is let onto the socket after a run if and only if nothing in between touched the connection. |
| `Generations.ReplyToTheSamePeer` | net/mgx_socket.cpp:315-322 | A reply that passes the send check goes out on the descriptor the packet came from, with no hand-out, recycling or freeing since the packet's header. |
| `Generations.ReplyToTheAcceptedSocket` | net/mgx_socket.cpp:317-342 | From the fresh pool on, a reply that is let onto the socket goes to the descriptor of the last accept that got this connection before the packet was received. |
| `Generations.OldGenerationIsDropped` | bussiness/mgx_logic_socket.cpp:60-64 | After the connection was handed out, recycled or freed, an older packet is handled nowhere and its reply is not sent. |
| `Generations.TimerOfTheSameGeneration` | net/mgx_socket_time.cpp:76-79 | A heartbeat timer passes the test of the pass after any run if and only if nothing in between handed its connection out, recycled or freed it, and the silence is long enough. |
| `Heartbeat.ClampWait` | net/mgx_socket.cpp:54-55 | The configured wait is never below 5 in use. |
| `Heartbeat.InsertSorted` | net/mgx_socket_time.cpp:19-19 | Emplacing keeps the timer queue sorted by deadline. |
| `Heartbeat.InsertBetween` | net/mgx_socket_time.cpp:17-20 | A new timer stands behind all timers due no later and before all due later. |
| `Heartbeat.RearmOne` | net/mgx_socket_time.cpp:96-117 | Taking and re-arming the next due entry takes the queue with j entries re-armed to the one with j + 1, which is given entry by entry. |
| `Heartbeat.TurnsAreRearmed` | net/mgx_socket_time.cpp:66-67 | j turns of the drain loop give the queue with its j first entries re-armed behind all entries due by then. |
| `Heartbeat.RearmedStamps` | net/mgx_socket_time.cpp:96-117 | Re-arming keeps how often each (connection, stamp) pair occurs. |
| `Heartbeat.DueAfter` | net/mgx_socket_time.cpp:66-67 | After any number of turns of the drain loop: with a positive wait one entry fewer is due per turn, and otherwise as many are due as in the beginning. |
| `Heartbeat.DrainEnds` | net/mgx_socket_time.cpp:66-67 | The drain loop ends if and only if nothing is due or the wait is positive. |
| `Heartbeat.TimerQueue.constructor` | net/mgx_socket.cpp:54-55 | The queue starts empty with the clamped wait. |
| `Heartbeat.TimerQueue.Add` | net/mgx_socket_time.cpp:10-22 | The new entry is emplaced; cached size and head time stay right. |
| `Heartbeat.TimerQueue.Delete` | net/mgx_socket_time.cpp:24-36 | The first entry of the connection goes, if there is one; cached size and head time stay right. |
| `Heartbeat.EraseOf` | net/mgx_socket_time.cpp:25-33 | Deleting takes the first timer of the connection and no timer of another. |
| `Heartbeat.TimerQueue.GetOverTime` | net/mgx_socket_time.cpp:96-117 | Nothing is returned exactly if nothing is due; otherwise the head is returned and re-armed; either way the queue makes one turn of the drain. |
| `Heartbeat.TimerQueue.DrainLoop` | net/mgx_socket_time.cpp:66-67 | With a positive wait the loop ends, returns every due entry exactly once in deadline order, makes as many turns as entries were due, and keeps size and head caches right. |
| `Heartbeat.RearmedDrained` | net/mgx_socket_time.cpp:62-71 | After that every deadline is above the current time, the size is unchanged, and each (connection, stamp) pair occurs as often as before. |
| `Heartbeat.RearmedIsRenewed` | net/mgx_socket_time.cpp:66-67 | Draining puts off every due timer once to the reading plus the wait, and changes nothing else but the order. |
| `Heartbeat.TimerOkStep` | net/mgx_socket_conn.cpp:119-139 | No pool step makes a timer's stamp run ahead of its connection or be current for a connection not in use. |
| `Heartbeat.ExpireExact` | net/mgx_socket_time.cpp:73-87 | The pass recycles exactly the connections with a drained timer of their present generation and more than three waits of silence, each once; every other connection keeps fields and place. |
| `Heartbeat.TimerQueue.ReclaimPass` | net/mgx_socket_time.cpp:73-87 | The in-place pass over the drained entries equals the pass function on pool and timers. |
| `Heartbeat.TimerQueue.MonitorRound` | net/mgx_socket_time.cpp:54-89 | One round of the monitor thread in place equals the round on pool and timers: nothing when the head time is not passed, otherwise the drain and the pass over the drained entries. |
| `Heartbeat.RoundReclaims` | net/mgx_socket_time.cpp:54-89 | A round recycles exactly the connections that have a timer of their present generation due and have been silent for more than three waits. |
| `Heartbeat.ExpireTimers` | net/mgx_socket_time.cpp:73-88 | The pass takes the first timer of each connection it recycles and no timer of another. |
| `Heartbeat.RoundTimers` | net/mgx_socket_time.cpp:57-91 | The timers a round leaves: as before if no deadline has passed; otherwise every due one put off once, in order of deadline, less the first timer of each connection recycled. |
| `Heartbeat.RecycleTakesTimer` | net/mgx_socket_conn.cpp:119-123 | Recycling a connection takes its first timer away, also if it was recycled before; every other pool step leaves the timers alone. |
| `Heartbeat.AddKeepsOk` | net/mgx_socket_time.cpp:10-22 | A timer added for a connection in use with its present counter fits pool and timers. |
| `Heartbeat.EveryRoundIsReady` | net/mgx_socket_time.cpp:10-94 | Over every history of started timers, pool steps and monitor rounds of a fresh pool, the next round finds every timer of a generation that was, and a current one of a connection in use. |
| `Scheduler.InsertSleepOrdered` | misc/mgx_coroutine_scheduler.cpp:45-48 | Inserting keeps the sleep tree ordered by deadline with ties in insertion order. |
| `Scheduler.Partition` | misc/mgx_coroutine.cpp:42-52 | In every invariant state a live coroutine is in exactly one of ready list, sleep tree, epoll set, running and abandoned, and a deleted one in none. |
| `Scheduler.InitialInv` | misc/mgx_coroutine_scheduler.cpp:6-17 | The fresh scheduler satisfies the invariant. |
| `Scheduler.WakeSleeper` | misc/mgx_coroutine.cpp:132-140 | When a sleeper wakes, the first entry of the sleep tree, which it erases, is its own. |
| `Scheduler.WakeReady` | misc/mgx_coroutine_scheduler.cpp:111-117 | Taking and resuming the front of the ready list keeps the invariant. |
| `Scheduler.WakeWaiter` | misc/mgx_cosocket.cpp:72-77 | Resuming a waiting coroutine, which deregisters itself, keeps the invariant. |
| `Scheduler.PutAwayInv` | misc/mgx_coroutine.cpp:111-140 | However a running coroutine stops (yield, sleep, wait, exit), the invariant holds again. |
| `Scheduler.StillReported` | misc/mgx_coroutine_scheduler.cpp:125-134 | While a batch of events is handled, every later event still refers to a live, registered coroutine. |
| `Scheduler.ScheduleProper` | misc/mgx_coroutine_scheduler.cpp:96-135 | Every resume in a call of `schedule` is of a live coroutine put away in the matching way, and of a sleeper only at a clock reading that has reached its deadline. |
| `Scheduler.WakesTheEarliest` | misc/mgx_coroutine_scheduler.cpp:100-109 | A sleeper wakes exactly if one is due, and it is the one with the least deadline, ties in insertion order. |
| `SchedulerRuns.OneCall` | misc/mgx_coroutine_scheduler.cpp:111-117 | One call moves the ready coroutine at position k > 0 up by one without resuming it and resumes the one at position 0. |
| `SchedulerRuns.BoundedWaiting` | misc/mgx_coroutine_scheduler.cpp:96-135 | Over any run the coroutine at position k is resumed in the (k+1)-th call and in none before, whatever the others do. |
| `SchedulerRuns.EveryRun` | misc/mgx_coroutine_scheduler.cpp:96-135 | Before and after every call of every run the partition holds, and every resume of every run is proper. |
| `SchedulerRuns.ReachesOnlyProper` | misc/mgx_coroutine_scheduler.cpp:6-17 | From the fresh scheduler, through any coroutines created from outside and any calls of `schedule`, every state reached satisfies the invariant with no coroutine running. |
| `SchedulerRuns.SleeperAdvances` | misc/mgx_coroutine_scheduler.cpp:100-109 | One call moves a due sleeper that is not at the front of the sleep tree one place forward. |
| `SchedulerRuns.SleeperIsSpared` | misc/mgx_coroutine_scheduler.cpp:100-109 | One call does not resume a due sleeper that is not at the front of the sleep tree. |
| `SchedulerRuns.SleepersBoundedWaiting` | misc/mgx_coroutine_scheduler.cpp:100-109 | With a clock that does not go back and no negative sleeps, a due sleeper at position k of the sleep tree is resumed in exactly the (k+1)-th call. |
| `SchedulerRuns.BatchAbandons` | misc/mgx_coroutine_scheduler.cpp:125-134 | After a batch a coroutine is abandoned if and only if it was before or an event of the batch reported an error for it. |
| `SchedulerRuns.AbandonedExactly` | misc/mgx_coroutine_scheduler.cpp:125-134 | Over any run a coroutine is abandoned by the end of a turn if and only if it was at the beginning or some turn so far reported EPOLLERR for it. |
| `SchedulerRuns.StrandedForever` | misc/mgx_coroutine_scheduler.cpp:128-131 | A coroutine for which some turn reported EPOLLERR stays alive and is resumed in no later turn. |
| `SchedulerRuns.StrandedAtOnce` | misc/mgx_coroutine_scheduler.cpp:128-131 | Concrete run from the fresh scheduler: the first coroutine waits for a descriptor that reports EPOLLERR, and is abandoned. |
| `CoroutineLives.TraceIs` | misc/mgx_coroutine_scheduler.cpp:96-135 | Each part of `schedule` resumes exactly the first due sleeper, the front of the ready list, or the coroutine of an event without error, in the status that belongs to it, and nobody else. |
| `CoroutineLives.Creates` | misc/mgx_coroutine.cpp:29-33 | Creating n coroutines puts n new ones behind the ready list, in order, and changes nothing about those there are. |
| `CoroutineLives.StretchPuts` | misc/mgx_coroutine.cpp:42-140 | A stretch leaves its coroutine as the last thing it did says: behind the ready list after `yield`, asleep until the reading plus the time asked for after `msleep`, registered under its descriptor after a wait, deleted after its function returned. |
| `CoroutineLives.StepKeeps` | misc/mgx_coroutine_scheduler.cpp:96-135 | A coroutine that a step does not resume stays as it was put away, with its deadline or descriptor. |
| `CoroutineLives.StepAnswers` | misc/mgx_coroutine_scheduler.cpp:96-135 | A step that resumes a coroutine does so in the way it was put away for, a sleeper at a reading of at least its deadline. |
| `CoroutineLives.NextResume` | misc/mgx_coroutine.cpp:111-140 | Over every run of steps: after `yield` the next resume comes from the ready list; after `msleep(ms)` at reading `now` it comes at a reading of at least `now + ms`; after a wait it comes by an event; after the function returned there is none. |
| `CoroutineLives.EndedForever` | misc/mgx_coroutine.cpp:42-52 | A coroutine whose function has returned is in no place from then on, and no step of any run resumes it. |
| `CoroutineLives.CallIsSteps` | misc/mgx_coroutine_scheduler.cpp:96-135 | A call of `schedule` is a run of these steps, with the same resumes and the same state after it. |
| `CoroutineLives.TurnsAreSteps` | misc/mgx_coroutine_scheduler.cpp:96-135 | A whole run of the main loop, with coroutines created between the calls, is a run of these steps. |
| `Scheduler.CoScheduler.constructor` | misc/mgx_coroutine_scheduler.cpp:6-17 | The in-place scheduler starts empty and satisfies the invariant. |
| `Scheduler.CoScheduler.Create` | misc/mgx_coroutine.cpp:29-33 | Creating coroutines appends them to the ready list with status ready. |
| `Scheduler.CoScheduler.RunScript` | misc/mgx_coroutine.cpp:42-52 | What a running coroutine does before it switches back. |
| `Scheduler.CoScheduler.ScheduleOnce` | misc/mgx_coroutine_scheduler.cpp:96-135 | The in-place `schedule` equals the three-phase specification and keeps the invariant. |
| `Scheduler.CoScheduler.HandleEvents` | misc/mgx_coroutine_scheduler.cpp:125-134 | The event loop in place equals the batch specification. |
| `Digits.NumeralRoundTrip` | app/mgx_printf.cpp:19-62 | The digits of every number in every radix read back as the number. |
| `Digits.NumeralFirst` | app/mgx_printf.cpp:19-62 | There is no leading zero except for the number 0. |
| `Digits.NumeralLength` | app/mgx_printf.cpp:19-62 | A number has at most k digits exactly if it is below the k-th power of the base. |
| `Digits.NumeralAlphabet` | app/mgx_printf.cpp:38-61 | Decimal numbers consist of 0-9, `x` gives 0-9 and a-f, `X` gives 0-9 and A-F. |
| `Digits.ScratchTight` | app/mgx_printf.cpp:8-17 | 20 bytes of scratch suffice for every uint64 in every radix, and the largest uses all of them. |
| `Digits.PaddedRoundTrip` | app/mgx_printf.cpp:64-81 | The padded field has length max(width, digit count) and reads back as the number. |
| `Digits.Render` | app/mgx_printf.cpp:17-62 | The digit loops leave the numeral right-aligned in the scratch area and never leave it. |
| `Digits.PadLeft` | app/mgx_printf.cpp:64-70 | The padding loop writes the wanted padding, as far as there is room. |
| `Digits.SprintfNum` | app/mgx_printf.cpp:4-81 | Exactly as much of the padded number as there is room for is written, and nothing else changes. |
| `Digits.PrintedThen` | app/mgx_printf.cpp:83-346 | Two truncated writes, one after the other, are the truncated write of the concatenation. |
| `Printf.ScanDigits` | app/mgx_printf.cpp:111-113 | The digit loop reads a width as the specification does. |
| `Printf.ScanFlags` | app/mgx_printf.cpp:115-153 | The flag loop computes sign, radix, fraction width and string length as the specification does, or stops at a missing `*` argument. |
| `Printf.EmitCString` | app/mgx_printf.cpp:156-162 | The `%s` loop writes what fits of the string, and over-reads exactly if there is no NUL within the room and the readable bytes are not more than the room. |
| `Printf.EmitNumber` | app/mgx_printf.cpp:326-336 | The unchecked minus sign and the number are together truncated to the room. |
| `Doubles.FractionIsDouble` | app/mgx_printf.cpp:257-257 | Taking the whole part off a double is exact. |
| `Doubles.RoundIsDouble` | app/mgx_printf.cpp:257-257 | The nearest double of a nonnegative number is a double, subnormal numbers included. |
| `Printf.ScaleLoop` | app/mgx_printf.cpp:252-255 | The scale loop computes the power of ten in a machine word. |
| `FixedPoint.ScaleVanishes` | app/mgx_printf.cpp:252-255 | The scale is zero exactly from 64 places on. |
| `FixedPoint.SmallRounds` | app/mgx_printf.cpp:257-257 | Below 2^52, rounding the product, adding a half, rounding and truncating gives the number rounded half up or one more, and one more exactly if the product rounds to the next half or to the double before one half. |
| `FixedPoint.AddHalfExact` | app/mgx_printf.cpp:257-257 | Below 2^64 the two roundings give the number rounded half up exactly if: below 2^52, the above does not happen; below 2^53, the right result is even; from there on, the right result is a double. |
| `FixedPoint.FixedExact` | app/mgx_printf.cpp:248-263 | For every double and every precision, the printed numbers are the number rounded half up at its last place if and only if: without precision, the fraction is below a half; up to 19, the scaled fraction rounds well as above; from 20 to 63, the scaled fraction is below a half; from 64 on, never. |
| `FixedPoint.OneTooLarge` | app/mgx_printf.cpp:248-263 | Where it is wrong with 1 to 19 places and a scaled fraction below 2^52, it is exactly one unit of the last place too large. |
| `FixedPoint.PointFifteen` | app/mgx_printf.cpp:248-263 | Concrete input: the double next to 0.15 is below it and prints as 0.2 with one place. |
| `FixedPoint.FractionWidth` | app/mgx_printf.cpp:272-273 | Up to 19 places the printed fraction takes no more digits than asked for. |
| `Printf.EmitFixed` | app/mgx_printf.cpp:240-278 | Sign, whole part, point and fraction are together truncated to the room. |
| `Printf.Emit` | app/mgx_printf.cpp:155-336 | Each conversion writes the truncation of its unbounded text, and is safe exactly if the text is clean for the room. |
| `Printf.VslPrintf` | app/mgx_printf.cpp:83-346 | For every readable format memory, argument list and room: the end never passes `last`, nothing outside the room changes, exactly the first min(room, length) bytes of the unbounded output are written, and a step with undefined effect (a read outside the format memory included) is reached exactly if the room exceeds the limit of the unbounded output. |
| `Printf.DoneExactlyIfWellTyped` | app/mgx_printf.cpp:83-346 | The unbounded output is complete if and only if the format ends inside its memory and every directive finds an argument that suits it. |
| `Printf.SafeInEveryRoom` | app/mgx_printf.cpp:83-346 | A call is free of undefined steps in every room if and only if the format is well typed for its arguments. |
| `Printf.TrailingPercent` | app/mgx_printf.cpp:320-323 | A C string of plain text and a lone `%` is formatted safely exactly if the room ends no later than the text. |
| `Printf.LonePercent` | app/mgx_printf.cpp:320-323 | A directive cut off by a NUL prints the NUL and goes on behind it. |
| `Printf.PlainRun` | app/mgx_printf.cpp:340-342 | Characters other than `%` come out as they are. |
| `PrintedNumbers.SignedReadsBack` | app/mgx_printf.cpp:326-336 | A signed field reads back as its number; a negative one is at least one longer than its width. |
| `PrintedNumbers.IntegerReadsBack` | app/mgx_printf.cpp:173-238 | Every integer conversion prints its argument, for every value of the C type it reads. |
| `PrintedNumbers.WidthRoundTrip` | app/mgx_printf.cpp:111-113 | A width written in decimal is read as that width while it fits a machine word. |
| `PrintedNumbers.WidthWraps` | app/mgx_printf.cpp:111-113 | A width or number of places of any length is read modulo 2 to the 64. |
| `PrintedNumbers.IntegerFormatReadsBack` | app/mgx_printf.cpp:100-338 | `%`, optional zero, any width, optional u/x/X and an integer conversion: for every value of the type the output is at least as wide as asked and reads back as the value. |
| `PrintedNumbers.IntegerAlphabet` | app/mgx_printf.cpp:326-338 | What an integer conversion prints is a minus sign, padding and digits of its form: a-f for `x`, A-F for `X`. |
| `PrintedNumbers.FixedTextReadsBack` | app/mgx_printf.cpp:265-274 | A fixed-point text, padded and signed in any way, has its point before the last digits asked for, and its digits read back as the two numbers it was made of. |
| `PrintedNumbers.FixedReadsBack` | app/mgx_printf.cpp:240-278 | A `%f` conversion of a double with 1 to 19 places prints a text that reads back as the number rounded half up at its last place if and only if the double product rounds well. |
| `PrintedNumbers.FixedFormatReadsBack` | app/mgx_printf.cpp:100-278 | `%`, optional zero, any width, `.`, 1 to 19 places and `f`: the whole format is printed without an undefined step, and reads back as the rounded number if and only if the double product rounds well. |
| `PrintedNumbers.CutReadsBack` | app/mgx_printf.cpp:240-278 | Without places a `%f` conversion cuts the number off at its point: the text reads back as the whole part, with a minus sign exactly if the number is negative. |
| `PrintedNumbers.CutFormatReadsBack` | app/mgx_printf.cpp:100-278 | The same for the whole format with optional zero and any width. |
| `Conversions.AddressPrints` | app/mgx_printf.cpp:280-286 | Wherever it stands in a format, `%p` prints every address below 2 to the 64, and the null pointer, as 16 characters out of 0-9 and A-F that read back in base 16 as the address. |
| `Conversions.CharacterPrints` | app/mgx_printf.cpp:288-293 | `%c` prints the lowest byte of its argument. |
| `Conversions.LetterPrints` | app/mgx_printf.cpp:295-323 | `%N` prints a newline, `%Z` a NUL, `%%` a percent sign, and `%` with any other letter that takes no argument that letter. |
| `Conversions.StringPrints` | app/mgx_printf.cpp:156-163 | `%s` prints the bytes before the first NUL, whatever stands behind it. |
| `Conversions.MemoryPrints` | app/mgx_printf.cpp:165-168 | `%*s` prints the first n bytes of its memory, NULs or not, if that many can be read, and is undefined otherwise. |
| `Conversions.QuotedPrints` | app/mgx_printf.cpp:314-342 | A text without NULs with each `%` doubled is printed as the text itself, whatever the arguments. |
| `Conversions.QuotingIsSafe` | app/mgx_printf.cpp:83-346 | So any such text can be passed as a format without arguments and meets no undefined step. |
| `Log.HeadText` | app/mgx_log.cpp:98-98 | The head format prints space, bracketed tag, process number and colon, and meets no undefined step. |
| `Log.Terminate` | app/mgx_log.cpp:105-108 | Newline and NUL always fit: the line is the first SIZE - 2 bytes of the text and a newline, with nothing but NULs behind it. |
| `Log.LogLine` | app/mgx_log.cpp:93-108 | The log line is time, head and message truncated to SIZE - 2 bytes, a newline and a NUL; it fails exactly if the message meets an undefined step within its room. |
| `Log.StderrLine` | app/mgx_log.cpp:20-34 | The same for the standard error line with its tag. |
| `Log.Echo` | app/mgx_log.cpp:119-122 | The second pass reads the line without its newline and the NULs behind it as a format without arguments: what is printed, and exactly when it meets an undefined step. |
| `Log.EchoIsSafe` | app/mgx_log.cpp:119-122 | For a line without NULs and any room the second pass meets an undefined step if and only if some directive takes an argument, for a `*` or its conversion, and fewer characters and directives stand before it than there is room; a directive cut off by the end of the line is harmless. |
| `Log.EchoedLonePercent` | app/mgx_log.cpp:119-122 | A line of plain text and a lone `%` only gains a NUL in the second pass. |
| `Log.EchoedPercent` | bussiness/mgx_logic_socket.cpp:111-111 | A line of plain text followed by `%` and any conversion that takes an argument, as a peer can put into a message, is safe in the second pass exactly if the room ends no later than the text. |
| `Handlers.LoggedBody` | bussiness/mgx_logic_socket.cpp:111-111 | Logging a body with `%s` behind a text is defined if and only if the room ends with the text, or there is a body and it has a NUL or is longer than the room left; without a body the pointer is null. |
| `Handlers.HandlerLogs` | bussiness/mgx_logic_socket.cpp:107-145 | A register or login packet with a current stamp reaches its handler with its body whatever that is, and the log there is defined if and only if there is a body and it has a NUL or fills the rest of the line. |
| `HttpHeaders.TrimOfTrimmed` | include/mgx_string.h:9-14 | Trimming leaves trimmed text alone and takes off the space printed before a value. |
| `HttpHeaders.TrimExact` | include/mgx_string.h:9-14 | Trimming takes the spaces off both ends of a text. |
| `HttpHeaders.TrimTakesSpaces` | include/mgx_string.h:9-14 | Every text is spaces, its trimmed form and spaces: nothing but spaces is taken off. |
| `HttpHeaders.ParseWellFormed` | http/mgx_http_socket.cpp:236-251 | Whatever the head contains, the parsed keys and values are trimmed and free of CR, LF and NUL, and keys of colons. |
| `HttpHeaders.RoundTrip` | http/mgx_http_socket.cpp:280-283 | Printing a header map in any order and parsing it gives the map back if and only if the map is well formed. |
| `HttpHeaders.Stable` | http/mgx_http_socket.cpp:236-251 | Parsing, printing in any order and parsing again gives the first result. |
| `HttpHeaders.HeadIsFound` | http/mgx_http_socket.cpp:236-251 | Of a head with any spaces around keys and values, any CRs and LFs between lines, and lines without a colon, the parser finds each key with the value of its last line, empty without a colon; keys in no line keep their values. |
| `HttpHeaders.PrintIs` | http/mgx_http_socket.cpp:280-283 | A field is printed as key, colon, space, value, CR and LF, behind the fields before it. |
| `HttpHeaders.Strtok` | http/mgx_http_socket.cpp:239-239 | The next nonempty line is found and terminated in place, and the lines that remain are the remaining lines. |
| `HttpHeaders.Request.ParseRequestHead` | http/mgx_http_socket.cpp:236-251 | The in-place `strtok` loop fills the map as the pure parser does on the original buffer. |
| `HttpHeaders.PrintHeaders` | http/mgx_http_socket.cpp:280-283 | The header loop appends the printed fields in iteration order. |

## Left out

- ThreadPool.TokenNeverDiscarded: is stated for runs without interrupted waits, because it fails with them.
- ThreadPool.PopNeverEmpty: is stated for runs without interrupted waits; `ThreadPool.SafeExactly` is the exact condition with them.
- ThreadPool.InvStep: excludes the interrupted wait; `ThreadPool.LooseStep` is the statement with it.
- ThreadPool.InvRun: excludes interrupted waits; `ThreadPool.LooseRun` is the statement with them.
- ThreadPool.FifoExactlyOnce: counts buffers as numbers that may repeat; that they do not is `Ownership.ExactlyOnce`.
- Framing.Connection.ReadRequest: accounts for buffers of one connection by number; which buffer is where is in `Ownership`.
- Generations.ReceivedStamp: is about packets received whole in one generation; packets whose body comes in a later one are in `Ownership.CurrentExactly`.
- Generations.ReplyToTheSamePeer: takes the check and the send as one step, as said under Assumptions.
- The outgoing byte stream: `send_msg_handler` resumes from the start of the buffer and the
  stale branch of the send loop deletes the wrong element, so bytes sent do not equal the
  messages in order; only the generation check before sending is modelled.
- Thread pool shutdown (no tokens are posted for it) and the advisory counter
  `m_running_cnt`.
- Progress of the reclaiming loop, which spins on an element whose time has not come; one
  iteration on one element is modelled.
- At most one timer per connection, which the code does not keep up, and the deallocation of
  timer headers.
- `get_epoll_wait_timeout_ms`: how long epoll may block does not affect what is resumed.
- The status EXITED exists only between the end of a coroutine and its deletion in the same
  call; the model deletes at once.
- The timed form of `connect` beyond its single sleep.
- The two body states of the reassembly share one method and the four digit loops share
  one loop: they differ in names and operand widths only.
- Infinities and NaN as arguments of `%f`. Negating the least 64-bit integer gives 2 to the
  63.
- `%p` of a memory argument: addresses are passed as integers. A wrong kind of argument is an
  undefined step.
- Log levels, time formatting and the write to the log file.
- Reading HTTP requests (line, head and body), which keeps no state across partial reads, and
  the status line and body of responses.
- Context switching, stack allocation, clocks, sockets and file descriptors.
- Configuration files, daemon, process titles, MySQL and Redis wrappers, web pages: they
  would add easy members only.
