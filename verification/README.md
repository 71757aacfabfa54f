# MiniRPC: a verified model

A Dafny model of MiniRPC, an epoll-based RPC framework in C++. It covers the five parts of the
framework whose behaviour spans many operations:

- the byte path: the growable two-cursor buffer, the 24-octet frame format, decoding of a stream that
  arrives in arbitrary pieces, and the output side of a connection with partial writes and epoll interest;
- the call protocol: client channel, connection, server and worker pool as one step machine down to the
  bytes on the wire;
- the two concurrent engines: the thread pool and the event loop's cross-thread mailbox;
- the lease registry over whole timed histories;
- load balancing: round robin, the consistent-hash ring, and failover over a refreshed node list.

Objects that run on one thread or under one lock (buffer, codec, connection, poller, registry, ring,
balancer, channel, server) are classes with mutable fields, loops and invariants; each method is proved
against a specification function and the promises are proved about those functions. Concurrent parts (thread
pool, event loop, the whole RPC system) are step machines: `Enabled` says when a step may happen, `Apply` what
it does, `Reaches` that a schedule leads from one state to another. A region under a mutex, a system call or a
notification is one step, and every interleaving of steps is a schedule, so each theorem about `Reaches` is
about all runs. `RpcLinks` ties the whole system to its parts: its client steps are the channel's wait, its
server steps are the message callback, and its queued and running requests are the tasks of the thread pool.

The operating system (write, send, readv, poll, epoll, eventfd, the clock), protobuf and the services
appear as parameters: a method takes what the kernel answers, a step carries it, `Rpc.World` holds the
serializers and the registered services.

## Findings

Several plausible properties do not hold of the code as it stands. For each the model keeps the code's
behaviour and proves the exact condition under which the property holds:

- `Frames.RoundTripExactly`: the encoder checks nothing, so messages with another magic or version or a
  body above 64 MB are written but never read back.
- `LoadBalancer.RoundRobinEvenExactly`: round robin is uneven across a wrap of its 64-bit counter unless the
  node count divides 2^64; `UnevenAtTheWrap` has three nodes.
- `NodeKeys.AddressRecoveredExactly`: the registry accepts 32-bit ports, but a channel is opened to the port
  modulo 65536. So two nodes can be one address (`SameAddressExactly`, `TwoKeysOneAddress`), and a failover to
  another node then reaches the same one.
- `EventLoop.SleepsExactlyOnOwnJobs`: work that the loop thread queues for itself while looping can sit
  behind a blocked `epoll_wait`; no other work can.
- `ThreadPool.NeverStrandsExactly`: a fixed pool with no initial thread, or any pool whose maximum is zero,
  accepts tasks that nobody will run, unless its queue bound is zero too.
- `Connection.HalfCloseCutsOffExactly`: a half-close that runs after the connection was closed cuts off
  accepted bytes, because the guard looks at the write interest and not at the buffer. This needs a caller of
  shutdown() on another thread, which the interface allows; the framework's own call is on the loop thread,
  where the half-close runs at once.
- `Connection.HalfCloseHappensExactly`: a shutdown that finds bytes unsent on an open connection is lost.
  Nothing repeats it when the buffer drains, so the sending direction is never shut;
  `DrainedButNeverHalfClosed` is such a run.
- `Connection.WaitingBytesCanGoExactly`: a reply that was posted before the sending direction was shut and
  runs after it is accepted, waits, and is never written, while epoll keeps reporting the socket writable;
  `LateReplyIsAcceptedAndLost` is such a run.
- `RegistryTraces.EvictorInvisibleExactly`: a heartbeat that arrives after the lease has run out revives the
  node or is refused, depending on when the evictor last ran; `LateHeartbeatShowsTheEvictor` has a history.
- `RpcChannel.Channel.CallMethod`: with a negative retry count a call makes no attempt and yet leaves the
  controller un-failed.
- `RpcSystem.FailureWithCodeZeroLooksLikeSuccess`: a service that calls SetFailed with the success code is
  reported to the caller as a success with an empty payload; by `RpcSystem.CallGetsItsOwnAnswer` that and a
  service that returns are the only successes.

Where the documentation and the code differ, the model follows the code: the header comment of
LoadBalancer.h names FNV-1a, but the ring uses `std::hash`; the ring theorems hold for any hash function.

What is assumed of protobuf is `Rpc.Faithful`: a response of less than 2 GB survives the trip, and nothing
longer is written. `Rpc.FaithfulWorldExists` shows that the assumption can be met.

## Model

| member | source | states |
|---|---|---|
| `Bytes.ReadsBack` | src/codec/Codec.cpp:12-43 | a field that fits its width is read back unchanged from its network-order octets |
| `Bytes.WritesBack` | src/codec/Codec.cpp:12-43 | any received octets are the encoding of the value they are read as, which is below 256^n |
| `Bytes.OctetAt` | src/codec/Codec.cpp:12-25 | octet i on the wire is the i-th most significant one, as htons, htonl and htobe64 arrange it |
| `Frames.RoundTripExactly` | src/codec/Codec.cpp:47-93 | decode(encode(m) ++ rest) gives m with its body length filled in and leaves rest, exactly for the right magic, version 1 and at most 64 MB |
| `Frames.OversizeIsRejected` | src/codec/Codec.cpp:81-83 | a body above 64 MB whose length fits the 32-bit field is rejected from its header on, whatever and however much follows |
| `Frames.ReencodesConsumedBytes` | src/codec/Codec.cpp:58-93 | re-encoding a decoded message reproduces the consumed bytes octet for octet |
| `Frames.ProperPrefixNeedsMore` | src/codec/Codec.cpp:59-62 | no proper prefix of an encoded message decodes or fails |
| `Frames.StreamsAreUniquelyDecodable` | src/codec/Codec.cpp:47-56 | two lists of acceptable messages with the same bytes are the same messages |
| `Frames.EncodingIsLaidOut` | include/minirpc/codec/Protocol.h:11-19 | every octet on the wire: magic at 0, version at 4, type at 5, flags at 6, sequence number at 8, body length at 16, reserved at 20, each most significant octet first, and the body from 24 |
| `Frames.DecodingReadsTheLayout` | src/codec/Codec.cpp:63-92 | the message decoded has the fields that lie at those offsets, the body behind them and the rest behind the body |
| `Frames.DecodesByOctets` | src/codec/Codec.cpp:58-93 | which of nothing, a message and the three errors comes of any bytes, told from the octets alone |
| `Streams.DecodeIsStable` | src/codec/Codec.cpp:58-93 | bytes that arrive later never change a message or an error already decided |
| `Streams.DrainResumes` | src/rpc/RpcServer.cpp:66-88 | draining, receiving more and draining again is draining the longer input; after an error the new bytes just pile up behind it |
| `Streams.DrainConservesBytes` | src/rpc/RpcServer.cpp:66-88 | the messages of a decoding loop, re-encoded, and the leftover are the input; all of them are acceptable |
| `Streams.DrainOfEncodings` | src/rpc/RpcServer.cpp:66-88 | a stream of acceptable messages and a half packet yields exactly those messages and leaves the half packet |
| `Streams.ChunkingIsInvisible` | src/rpc/RpcServer.cpp:65-88 | for every splitting of the stream into reads: same messages, same leftover, same first error as decoding it at once |
| `Streams.ErrorIsSticky` | src/rpc/RpcServer.cpp:84-87 | after an error no later read yields a message, and the error and the offending bytes stay |
| `NetBuffer.QueueConserves` | include/minirpc/net/Buffer.h:10-14 | the abstract byte queue is first in, first out and loses nothing over any sequence of uses |
| `NetBuffer.Buffer.constructor` | src/net/Buffer.cpp:11-14 | empty, with the asked-for room behind the prepend area |
| `NetBuffer.Buffer.Retrieve` | src/net/Buffer.cpp:16-22 | drops len bytes from the front, or all of them |
| `NetBuffer.Buffer.RetrieveAll` | src/net/Buffer.cpp:24-27 | nothing unread, read cursor back at the prepend area |
| `NetBuffer.Buffer.RetrieveAsString` | src/net/Buffer.cpp:33-38 | splits the contents into the returned bytes and what stays, at min(len, readable) |
| `NetBuffer.Buffer.RetrieveAllAsString` | src/net/Buffer.cpp:29-31 | returns all unread bytes and leaves none |
| `NetBuffer.Buffer.Compact` | src/net/Buffer.cpp:44-49 | the overlapping slide to the prepend area keeps the unread bytes |
| `NetBuffer.Buffer.EnsureWritableBytes` | src/net/Buffer.cpp:40-54 | makes room for len bytes, by sliding or growing, without changing the unread bytes; does nothing if there is room |
| `NetBuffer.Buffer.Append` | src/net/Buffer.cpp:56-60 | adds exactly the bytes at the end of the unread ones |
| `NetBuffer.Buffer.ReadFd` | src/net/Buffer.cpp:62-85 | appends exactly what the kernel delivered, also when it spills into the stack buffer; an error changes nothing |
| `NetBuffer.UseBuffer` | src/net/Buffer.cpp:11-85 | any sequence of appends, reads and retrievals behaves as the byte queue and keeps 8 <= reader <= writer <= size |
| `Codec.Encode` | src/codec/Codec.cpp:47-56 | appends the frame of the message to the buffer |
| `Codec.TryDecode` | src/codec/Codec.cpp:58-93 | takes a whole message out of the buffer or touches nothing; the three errors as specified |
| `Codec.EncodeHeader` | src/codec/Codec.cpp:47-54 | field by field, appends the 24 header octets with the body's own length |
| `Codec.DrainBuffer` | src/rpc/RpcServer.cpp:68-83 | the decoding loop on the cursor buffer terminates and computes Drain |
| `Codec.ReceiveStream` | src/net/TcpConnection.cpp:120-128 | reading a stream through the real buffer in pieces of any legal size gives the decoding of the whole prefix delivered, and enough non-empty reads deliver everything |
| `EventLoop.MailboxIsFifo` | src/net/EventLoop.cpp:62-79 | in every schedule executed ++ rest of batch ++ pending is the push history |
| `EventLoop.RunKeepsInv` | src/net/EventLoop.cpp:36-125 | every schedule keeps push order, wakeups for announced work, and the debts of the current iteration |
| `EventLoop.NoAnnouncedJobSleeps` | src/net/EventLoop.cpp:41-51 | at epoll_wait with work handed over from another thread, the eventfd is non-zero or a producer is between push and write |
| `EventLoop.IterationRunsEverythingPushedBefore` | src/net/EventLoop.cpp:115-125 | whatever was pushed before epoll_wait returned is executed, in order, before the loop polls again |
| `EventLoop.PollsAgain` | src/net/EventLoop.cpp:41-51 | from everywhere past epoll_wait the loop thread gets back to it in a number of its own steps bounded by the work there is, the eventfd emptied if it had fired |
| `EventLoop.SleepsExactlyOnOwnJobs` | src/net/EventLoop.cpp:70-79 | the loop can block on pending work without a wakeup due exactly when the loop thread itself queued all of it |
| `ThreadPool.PoolConserves` | src/thread/ThreadPool.cpp:68-157 | in every schedule the three counters are exact and bounded, each accepted task is in exactly one of queued, held by one worker, finished, and is dequeued once |
| `ThreadPool.RunKeepsInv` | src/thread/ThreadPool.cpp:68-157 | every schedule keeps the counters, the whereabouts of tasks, the dequeue log, the notifications and the staffing |
| `ThreadPool.NoLostNotification` | src/thread/ThreadPool.cpp:68-140 | nobody sleeps un-notified on work or on room (unless the notifier is on its way); a cached pool below its maximum has an idle worker per queued task |
| `ThreadPool.WorkIsPickedUp` | src/thread/ThreadPool.cpp:114-138 | with work queued, a worker can take the most urgent task now or all live workers are busy, and there is one |
| `ThreadPool.NeverStrandsExactly` | src/thread/ThreadPool.cpp:86-111 | no schedule leaves tasks queued without a worker, exactly for configurations that allow one or that refuse all tasks |
| `ThreadPool.MoreUrgentGoesFirst` | include/minirpc/thread/ThreadPool.h:36-44 | of two tasks ever queued together the more urgent is dequeued first, over whole runs |
| `ThreadPool.StartsWithItsThreads` | src/thread/ThreadPool.cpp:190-192 | a started pool has as many threads as asked for and allowed, all idle |
| `ThreadPool.FixedPoolKeepsItsThreads` | src/thread/ThreadPool.cpp:100-111 | in every schedule a fixed pool has exactly those threads |
| `ThreadPool.GrowsAndShrinksExactly` | src/thread/ThreadPool.cpp:86-111 | a submission adds a thread exactly to a cached pool below its maximum with more tasks than idle threads; a sleeper may give up exactly in a cached pool above its initial size; only such a pool loses idle threads, and only without work |
| `NodeKeys.DecimalReadsBack` | src/rpc/LoadBalanceChannel.cpp:33-33 | atoi undoes to_string |
| `NodeKeys.NodeKeyIsInjective` | src/registry/RegistryServiceImpl.cpp:41-44 | equal host:port keys mean equal host and port, colons in the host included |
| `NodeKeys.AddressRecoveredExactly` | src/rpc/LoadBalanceChannel.cpp:106-111 | splitting the key at its last colon gives back the host always, and the port exactly below 65536, for every port the registry accepts |
| `NodeKeys.SameAddressExactly` | src/rpc/LoadBalanceChannel.cpp:106-111 | two keys lead to one address exactly if they name one host and ports that agree modulo 65536 |
| `NodeKeys.TwoKeysOneAddress` | src/rpc/LoadBalanceChannel.cpp:106-111 | ports 80 and 65616 of a host: two keys, one address |
| `LoadBalancer.RoundRobin.Next` | include/minirpc/rpc/LoadBalancer.h:17-22 | hands out the counter modulo the node count and advances it with 64-bit wrap; zero without nodes |
| `LoadBalancer.RoundRobin.SetNodeCount` | include/minirpc/rpc/LoadBalancer.h:16-16 | only the node count changes, the counter runs on |
| `LoadBalancer.RoundRobinEvenExactly` | include/minirpc/rpc/LoadBalancer.h:13-22 | n consecutive calls on n nodes hit every index exactly once, exactly when the counter does not wrap among them or n divides 2^64 |
| `LoadBalancer.UnevenAtTheWrap` | include/minirpc/rpc/LoadBalancer.h:17-22 | three nodes with the counter at its last value are not served evenly |
| `LoadBalancer.PicksVary` | src/rpc/LoadBalanceChannel.cpp:90-96 | n >= 2 consecutive calls never all give one index, wrap or not |
| `HashRing.ConsistentHash.SetNodes` | src/rpc/LoadBalancer.cpp:13-22 | builds the ring of the list, later nodes over earlier ones |
| `HashRing.ConsistentHash.SelectNode` | src/rpc/LoadBalancer.cpp:24-34 | lower_bound with wrap-around refines the simple rule: the owner of the point at least clockwise distance modulo 2^64 |
| `HashRing.LookupIsNearest` | src/rpc/LoadBalancer.cpp:28-33 | lower_bound, or the first point past the end, is the point at least clockwise distance |
| `HashRing.ServedBy` | src/rpc/LoadBalancer.cpp:28-33 | the simple rule is well defined: one node, whichever nearest point is taken |
| `HashRing.OwnerIsLastListed` | src/rpc/LoadBalancer.cpp:16-21 | a point is on the ring exactly if some listed node hashes there, and the last listed one owns it |
| `HashRing.PointsAreHashes` | src/rpc/LoadBalancer.cpp:16-21 | the points on the ring are exactly the hashes of key#0, key#1 and so on of the listed keys, up to the number of replicas |
| `HashRing.VirtualNamesDiffer` | src/rpc/LoadBalancer.cpp:18-18 | no two virtual nodes have one name |
| `HashRing.SelectionIsListed` | src/rpc/LoadBalancer.cpp:24-34 | every selection is a listed node; the ring is empty exactly without nodes or replicas |
| `HashRing.RemovalMovesOnlyItsKeys` | src/rpc/LoadBalancer.cpp:13-34 | filtering a node out leaves every key it did not own where it was, for any hash function |
| `HashRing.InsertionMovesKeysOnlyToIt` | src/rpc/LoadBalancer.cpp:13-34 | adding a node at any position moves keys only onto it |
| `NodeOrder.NodeOrderTotal` | src/registry/RegistryServiceImpl.cpp:143-148 | the listing order is strict and total on host and port |
| `NodeOrder.NodeOrderTransitive` | src/registry/RegistryServiceImpl.cpp:143-148 | the listing order is transitive |
| `NodeOrder.StringOrderIsLexicographic` | src/registry/RegistryServiceImpl.cpp:143-148 | hosts go by the first character that differs, a host before its extensions |
| `NodeOrder.ListedByHostThenPort` | src/registry/RegistryServiceImpl.cpp:143-148 | in a listing the smaller host comes first, and on one host the smaller port |
| `NodeOrder.ListingIsUnique` | src/registry/RegistryServiceImpl.cpp:138-151 | a set of nodes has one listing, whatever order the hash table is walked in |
| `NodeOrder.ListingExists` | src/registry/RegistryServiceImpl.cpp:143-148 | nodes with distinct addresses can be listed strictly sorted |
| `Registry.KeysKeepNodesApart` | src/registry/RegistryServiceImpl.cpp:91-92 | filed by key, the nodes of a service have distinct addresses |
| `Registry.RegistryService.PurgeExpired` | src/registry/RegistryServiceImpl.cpp:46-66 | the nested sweep keeps exactly the fresh entries and drops services left empty, in any walking order |
| `Registry.RegistryService.Register` | src/registry/RegistryServiceImpl.cpp:80-99 | writes or overwrites the node's entry with the current time |
| `Registry.RegistryService.Unregister` | src/registry/RegistryServiceImpl.cpp:101-123 | removes the node, and the service with its last node; unknown ones are ignored |
| `Registry.RegistryService.Heartbeat` | src/registry/RegistryServiceImpl.cpp:157-178 | succeeds exactly for a node on file and then refreshes only its time |
| `Registry.RegistryService.Discover` | src/registry/RegistryServiceImpl.cpp:125-155 | sweeps, then lists exactly the fresh nodes of the service, strictly sorted |
| `Registry.RegistryService.LiveNodeCount` | src/registry/RegistryServiceImpl.cpp:180-195 | counts the fresh entries of the service |
| `RegistryTraces.LeaseExactness` | src/registry/RegistryServiceImpl.cpp:46-66 | on every history a node is on file exactly if it has an unbroken lease, with its latest registration's data and latest refresh |
| `RegistryTraces.DiscoverExactness` | src/registry/RegistryServiceImpl.cpp:125-155 | on every history Discover lists, strictly sorted, exactly the nodes with an unbroken lease refreshed within the timeout |
| `RegistryTraces.PunctualNodeIsListed` | src/registry/RegistryServiceImpl.cpp:157-174 | a node whose refreshes each come within the timeout is never missing |
| `RegistryTraces.OnlyRegisterBringsBack` | src/registry/RegistryServiceImpl.cpp:166-170 | a node once gone returns only through Register |
| `RegistryTraces.CountAgreesWithDiscover` | src/registry/RegistryServiceImpl.cpp:180-195 | the live count equals the length of the Discover answer at the same moment |
| `RegistryTraces.EvictorInvisibleExactly` | src/registry/RegistryServiceImpl.cpp:68-78 | placing evictor ticks anywhere changes no answer, exactly when no heartbeat meets an expired entry still on file |
| `RegistryTraces.LateHeartbeatShowsTheEvictor` | src/registry/RegistryServiceImpl.cpp:157-178 | register at 0, beat at 10, timeout 5: the answer depends on the evictor |
| `RegistryTraces.Serve` | src/registry/RegistryServiceImpl.cpp:46-195 | the object handles one event as the history semantics say |
| `RegistryTraces.ServeAll` | src/registry/RegistryServiceImpl.cpp:46-195 | serving a whole history with the object gives its answers and its final state |
| `LoadBalanceChannel.SortedListsHaveDistinctKeys` | src/rpc/LoadBalanceChannel.cpp:53-62 | strictly sorted node lists have distinct keys |
| `LoadBalanceChannel.DiscoveredKeysAreDistinct` | src/rpc/LoadBalanceChannel.cpp:42-62 | every list the registry can give has distinct keys |
| `LoadBalanceChannel.LoadBalanceChannel.RefreshNodes` | src/rpc/LoadBalanceChannel.cpp:42-69 | node list, round-robin count and ring agree after it; a failed discovery keeps the old list |
| `LoadBalanceChannel.LoadBalanceChannel.SelectNodeKey` | src/rpc/LoadBalanceChannel.cpp:71-83 | picks a listed node: the ring's owner under consistent hashing, the next in turn otherwise and for empty requests |
| `LoadBalanceChannel.LoadBalanceChannel.SelectNodeKeyForRetry` | src/rpc/LoadBalanceChannel.cpp:85-98 | among two or more distinct nodes finds a listed one other than the failed one, wherever the counter stands |
| `LoadBalanceChannel.ChannelTable.ChannelFor` | src/rpc/LoadBalanceChannel.cpp:100-115 | one channel per node, cached or newly opened to the address its key spells, sharing nothing with the others |
| `LoadBalanceChannel.ChannelTable.CallOn` | src/rpc/LoadBalanceChannel.cpp:144-150 | a call through the node's channel: the callback runs once, a success was settled by that node's reply to the attempt made last, the controller shows the outcome, the other channels stay sound |
| `LoadBalanceChannel.LoadBalanceChannel.CallMethod` | src/rpc/LoadBalanceChannel.cpp:117-170 | first attempt on a listed node, on the list in use, renewed if it was empty or as old as the refresh interval and the registry answered; with a controller and retries allowed, a second exactly without a callback, after a timeout, a close or the codes 1, 3 and 4, and with another node to go to; after anything else the call is over and the list stays; if the refreshed list has distinct keys, as every list of the registry has, it runs on a listed node with another key; a callback runs exactly once over all attempts; the controller shows the last attempt, or the no-service code without nodes; what the channel table gains is new |
| `LoadBalanceChannel.MakeCalls` | src/rpc/LoadBalanceChannel.cpp:42-170 | a client's whole life, from construction through any number of calls: list, counter and ring agree, every channel is sound, the callback has run once for every call, and every call worked with a list the registry gave, younger than the refresh interval unless it had just asked in vain or this is the answer |
| `LoadBalanceChannel.LoadBalanceChannel.TryNodes` | src/rpc/LoadBalanceChannel.cpp:137-169 | the same from a list that is not empty: the callback is handed to every attempt, so with one there is a single attempt |
| `LoadBalanceChannel.LoadBalanceChannel.FailOver` | src/rpc/LoadBalanceChannel.cpp:140-165 | the second attempt runs on a listed node other than the one that failed, and the list is refreshed if it fails too |
| `Connection.OutputIsConserved` | src/net/TcpConnection.cpp:63-99 | under any partial or failing writes, written ++ unsent is what was accepted, and EPOLLOUT is watched exactly while bytes are unsent, until close |
| `Connection.WrittenIsWhatTheKernelTook` | src/net/TcpConnection.cpp:63-162 | what counts as written is the front of what was accepted, as long as the kernel's positive answers add up to: no byte is lost or sent twice |
| `Connection.OpenConnectionsAreRead` | src/net/TcpConnection.cpp:37-49 | a connection is open from its establishment until a shutdown, a close or its destruction, and watched for reading exactly while open or shutting down |
| `Connection.HalfCloseIsClean` | src/net/TcpConnection.cpp:113-118 | until close, a posted shutdown shuts the sending side exactly when everything accepted is written |
| `Connection.HalfCloseCutsOffExactly` | src/net/TcpConnection.cpp:101-118 | some run half-closes over given unsent bytes exactly for the closed state: the peer closes between shutdown() and its posted half |
| `Connection.HalfCloseHappensExactly` | src/net/TcpConnection.cpp:101-162 | whatever happens later, the sending side is shut in the end exactly if nothing was unsent, or the connection was closed, when the posted half ran |
| `Connection.DrainedButNeverHalfClosed` | src/net/TcpConnection.cpp:113-162 | a run in which everything is written after shutdown() and the sending side stays open |
| `Connection.WaitingBytesCanGoExactly` | src/net/TcpConnection.cpp:63-172 | bytes that wait can still be written, in some continuation, exactly if the connection is neither closed nor half-closed |
| `Connection.AcceptedAfterHalfCloseIsLost` | src/net/TcpConnection.cpp:63-99 | what is accepted after the half-close only piles up in the buffer, and the socket stays watched for writability until close |
| `Connection.LateReplyIsAcceptedAndLost` | src/net/TcpConnection.cpp:51-118 | a run in which a message is accepted after the half-close and nothing can ever write it |
| `Connection.EpollPoller.UpdateChannel` | src/net/EpollPoller.cpp:52-70 | ADD, MOD or DEL leave the kernel watching exactly the channel's events and every other channel as before |
| `Connection.EpollPoller.RemoveChannel` | src/net/EpollPoller.cpp:72-79 | the channel leaves table and kernel set, the others stay |
| `Connection.TcpConnection.ConnectEstablished` | src/net/TcpConnection.cpp:37-41 | connected and watched for reading; the poller's other channels stay as they were |
| `Connection.TcpConnection.SendInLoop` | src/net/TcpConnection.cpp:63-99 | writes directly only if nothing waits, queues the rest and watches for writability; the poller's other channels stay as they were |
| `Connection.TcpConnection.WriteDirectly` | src/net/TcpConnection.cpp:70-92 | the fast path writes a prefix only when nothing waits; a failed write takes nothing |
| `Connection.TcpConnection.Enqueue` | src/net/TcpConnection.cpp:93-98 | what was not taken goes behind what already waits, and writability is watched for; the poller's other channels stay as they were |
| `Connection.TcpConnection.HandleWritable` | src/net/TcpConnection.cpp:143-162 | moves what the kernel took from the buffer to the wire and stops watching when it is empty; the poller's other channels stay as they were |
| `Connection.TcpConnection.HandleClosed` | src/net/TcpConnection.cpp:164-172 | disconnected and no longer watched; the poller's other channels stay as they were |
| `Connection.TcpConnection.ConnectDestroyed` | src/net/TcpConnection.cpp:43-49 | the same, if still connected; the poller's other channels stay as they were |
| `Connection.TcpConnection.BeginShutdown` | src/net/TcpConnection.cpp:101-111 | only a connected connection starts disconnecting |
| `Connection.TcpConnection.FinishShutdown` | src/net/TcpConnection.cpp:113-118 | shuts the sending side unless writes are being watched for |
| `Connection.TcpConnection.Perform` | src/net/TcpConnection.cpp:37-172 | whichever handler runs, the connection moves as specified and every other channel of the poller is watched as before |
| `Connection.ServeAll` | src/net/EventLoop.cpp:41-51 | any number of connections on one loop and poller, handlers interleaved in any way: each goes exactly the way of its own handlers and the others do not notice |
| `Connection.OpenAll` | src/net/TcpConnection.cpp:37-41 | new connections share nothing but the poller |
| `Connection.Session` | src/net/TcpConnection.cpp:37-172 | from new connections on, whatever the interleaving and the partial writes: on every object, written ++ output buffer is what its own sends were accepted for, written is as long as the kernel said, and the poller watches it for writability exactly while bytes wait, until close |
| `Rpc.SplitsExactly` | src/rpc/RpcServer.cpp:99-109 | a method name splits exactly as service, dot, dot-free method, both non-empty |
| `Rpc.FailuresByStage` | src/rpc/RpcServer.cpp:90-148 | what the caller is told: 2 for an envelope, name or payload that does not parse, 5 for an unknown service, 6 for an unknown method, the service's own code if it fails, its payload if it returns, for answers that protobuf can serialize |
| `Rpc.TextsByStage` | src/rpc/RpcServer.cpp:110-145 | the texts that go with the codes |
| `Rpc.NoNameExactly` | src/rpc/RpcServer.cpp:99-106 | a name is refused exactly if it is not service, dot, dot-free method |
| `Rpc.RefusalIsToldAsOne` | src/rpc/RpcServer.cpp:79-82 | a request the pool does not take reaches the caller as code 1 |
| `Rpc.FramesOnTheWire` | src/rpc/RpcServer.cpp:161-174 | requests are type 1 and responses type 2, with the sequence number at 8 and the envelope from 24 |
| `Rpc.SearchFindsFirstReply` | src/rpc/RpcChannel.cpp:176-203 | the search settles on the first decoded reply with the sequence number and keeps the bytes behind it |
| `Rpc.SearchDropsStaleReplies` | src/rpc/RpcChannel.cpp:176-203 | without such a reply every message is dropped and the search stops as the decoding loop does |
| `RpcServer.Server.HandleRequest` | src/rpc/RpcServer.cpp:90-151 | every path sends exactly one reply, under the request's own sequence number |
| `RpcServer.Server.SendEnvelope` | src/rpc/RpcServer.cpp:161-174 | one response frame with the given sequence number, dropped once the connection is shutting down |
| `RpcServer.Server.SendError` | src/rpc/RpcServer.cpp:153-159 | one reply with the code, the text and no payload |
| `RpcServer.Server.OnMessage` | src/rpc/RpcServer.cpp:65-88 | requests go to the pool in order, refused ones are answered at once, other types are ignored, a codec error shuts down |
| `RpcChannel.Channel.SendAll` | src/rpc/RpcChannel.cpp:56-73 | succeeds exactly if the sends take all the bytes before an error, a send of nothing or their end; otherwise exactly what they took is on the wire |
| `RpcChannel.TakenIsSumOfCleanFront` | src/rpc/RpcChannel.cpp:56-73 | what a script takes is the sum of its sends up to the first that fails or takes nothing |
| `RpcChannel.Channel.Scan` | src/rpc/RpcChannel.cpp:174-207 | the decoding loop on the buffer computes the search and drops all other messages |
| `RpcChannel.Channel.WaitResponse` | src/rpc/RpcChannel.cpp:133-209 | comes to exactly what the events it met come to: the first reply with the awaited number, a codec error, a broken or closed connection, or a timeout after all of them; the controller shows it |
| `RpcChannel.Channel.WaitOnce` | src/rpc/RpcChannel.cpp:140-203 | one round of the loop: interruptions go on, poll errors are system errors, hang-ups and failed reads mean closed |
| `RpcChannel.WaitIsSearch` | src/rpc/RpcChannel.cpp:170-203 | however the reply stream is cut into reads and interrupted, and whatever earlier waits left unread, a wait that receives something decides what searching all of it at once decides; one that receives nothing decides nothing |
| `RpcChannel.DisturbanceEnds` | src/rpc/RpcChannel.cpp:146-172 | a hang-up, a failed read or an empty read ends a wait as closed and a failed poll with code 1, unless what had arrived by then decides it |
| `RpcChannel.SearchResumes` | src/rpc/RpcChannel.cpp:174-203 | searching, receiving more and searching on is searching the longer input |
| `RpcChannel.Channel.ReadAndScan` | src/rpc/RpcChannel.cpp:168-203 | a readable socket that delivers nothing means closed; otherwise what fits is read, and the search over it decides |
| `RpcChannel.Channel.OneAttempt` | src/rpc/RpcChannel.cpp:102-122 | one fresh sequence number, one frame or a prefix of it on the wire, success only from its own reply, disconnected only after a failed send |
| `RpcChannel.Channel.FailController` | src/rpc/RpcChannel.cpp:211-221 | a controller, if there is one, shows the outcome's code |
| `RpcChannel.Channel.CallMethod` | src/rpc/RpcChannel.cpp:75-131 | at most maxRetries + 1 attempts with consecutive numbers, some exactly if it can connect and retries are not negative; disconnected at the end exactly if it could not connect or the last frame was not taken; every attempt before the last one timed out, and the outcome is what the last one came to; a success was settled by the reply to it; callback once; controller failed exactly on failure unless retries are negative, with code 3 after a timeout and 4 after a close |
| `RpcChannel.Channel.AttemptLoop` | src/rpc/RpcChannel.cpp:100-127 | the retry loop, with the same account of its waits |
| `RpcSystem.CallGetsItsOwnAnswer` | src/rpc/RpcChannel.cpp:101-126 | in every interleaving a call that ends in success, or with an error code only a reply can bring, was decided by the reply to its own last attempt; if that reply fits a protobuf message, a success delivers what the service returned for the call's own envelope (or nothing, if it failed with code 0), and an error is the code the handler gave for it |
| `RpcSystem.RetryCanComplete` | src/rpc/RpcChannel.cpp:101-126 | for every k up to maxRetries + 1 some schedule has k - 1 attempts time out, drops their late replies and ends the call with what the service made of attempt k, if request and reply are within the frame limit |
| `RpcSystem.TimeoutMeansAllAttemptsMade` | src/rpc/RpcChannel.cpp:101-126 | in every schedule a call that ends in a timeout has made all maxRetries + 1 attempts |
| `RpcSystem.CallsThatNeverGetThrough` | src/rpc/RpcChannel.cpp:101-121 | in every schedule, with negative retries nothing is sent and calls end with code 1; a failed send ends its call with code 1 |
| `RpcSystem.StaleReplyIsDropped` | src/rpc/RpcChannel.cpp:176-203 | a reply to any other attempt decides no call |
| `RpcSystem.EveryRequestIsAccountedFor` | src/rpc/RpcServer.cpp:65-88 | decoded requests = queued + running + answered as multisets, and every reply is genuine |
| `RpcSystem.NoRequestIsAnsweredTwice` | src/rpc/RpcServer.cpp:153-174 | no request gets two replies |
| `RpcSystem.QuietServerHasAnsweredAll` | src/rpc/RpcServer.cpp:65-174 | once nothing is on its way to an open server, queued or running, every attempt sent has exactly one reply on the wire |
| `RpcSystem.ExecutionsAreBounded` | src/rpc/RpcChannel.cpp:101-126 | in every schedule the handler is started at most maxRetries + 1 times for a call, runs still under way included |
| `RpcSystem.FailureWithCodeZeroLooksLikeSuccess` | src/rpc/RpcServer.cpp:140-150 | a run in which the service fails with code 0 and the call ends in success with an empty payload |
| `RpcLinks.DecodingIsSearch` | src/rpc/RpcChannel.cpp:174-203 | the system's client steps after a read come to what the channel's search comes to |
| `RpcLinks.WaitIsSystemRun` | src/rpc/RpcChannel.cpp:133-209 | the channel's whole wait, errors and hang-ups included, is a run of the system's client that comes to the same decision and leaves the same bytes |
| `RpcLinks.RoundIsSystemSteps` | src/rpc/RpcChannel.cpp:140-203 | so is every round of it |
| `RpcLinks.DecodingIsDispatch` | src/rpc/RpcServer.cpp:65-88 | the system's server steps leave what the message callback leaves: requests submitted, refusals sent, bytes unread, connection shut after a codec error |
| `RpcLinks.PoolStepIsSystemStep` | src/thread/ThreadPool.cpp:68-157 | submitting a task is dispatching a request, giving up is refusing it, taking and ending a task are starting and finishing its handler; no other step of the pool shows |
| `RpcLinks.RunTogetherStaysStaffed` | src/rpc/RpcServer.cpp:65-151 | whatever pool and system do together is a schedule of each, and they agree on what is queued and running |
| `RpcLinks.PoolAndSystemAgree` | src/rpc/RpcServer.cpp:65-151 | the same from the start of both, so the theorems about either machine hold at once |
| `RpcLinks.RefusalsAreTimeOuts` | src/rpc/RpcServer.cpp:73-82 | in every joint run the refusals sent are exactly the submissions that gave up |
| `RpcLinks.RefusedOnlyWhenFull` | src/thread/ThreadPool.cpp:68-80 | a request is refused only while the queue holds as many requests as it may |

## Left out

- Runs of one channel across a reconnect: `close()` keeps the input buffer, so the call theorems are stated per connection.
- Runs with 2^64 or more attempts on one channel: the call theorems need sequence numbers that have not wrapped.
- Thread-pool start, shutdown and destruction: the pool is modelled while it runs, and Start is one step; so is the creation of a thread, which the code counts before it registers its id.
- The callback queue of the thread pool and the futures of submit: they add no interplay with the task queue.
- `quit()` of the event loop, and functors that run directly because they are already on the loop thread.
- Replies of 2 GB and more, which protobuf refuses to serialize: only that a call is decided by its own reply is stated for them.
- Services that throw: the model's services return or set the controller failed.
- The input side of TcpConnection beyond reading and draining, TcpServer, EventLoopPool, Socket, InetAddress, Logger: they only pass data on.
- RpcServiceNode: it is a source of Register, Heartbeat and Unregister events.
- The thread pool and the event loop are modelled on values, as step machines over all interleavings, so update in place and aliasing are not captured there.
- Whether a failover brings success, and how evenly a hash function spreads keys.
- Node lists of 2^64 and more entries.
- The registry channel inside the balancing channel: what Discover answers is a parameter there.
- C++ object lifetimes (shared_ptr, weak_ptr, detached threads).
- std::priority_queue, std::sort, std::map::lower_bound and hash tables are represented by what they promise, not by their algorithms.
- What atoi gives for a port above 2^31 - 1 is undefined in C; the model takes it modulo 2^32, as common libraries do. Whatever it is, its low 16 bits are not the port.
