# rnetlib, modelled in Dafny

rnetlib is a header-only C++ library that puts one channel abstraction over
four transports:

- **socket**: BSD sockets, with a poll(2)-driven event loop;
- **RDMA**: rdma_cm with ibverbs, copying through one registered buffer per
  direction;
- **verbs**: rdma_cm with ibverbs, sending small messages eagerly and larger
  ones by scatter/gather straight from registered regions;
- **OFI**: libfabric, the same eager/rendezvous protocol over tagged messages.

This project models each transport's channel, its memory-region
registration, its event loop and its connection set-up. The answers of the
operating system, the NIC and the fabric are parameters of the model. For
each operation it proves what the result is in terms of those answers, which
requests the operation hands over, and what state it leaves behind. Where a
contract states less than that, "## Left out" names the member.

The model has one module per header of the library:

| module | models |
|---|---|
| `EagerBuffers` | the eager buffer |
| `VerbsMemoryRegions`, `RdmaMemoryRegions` | ibverbs region registration and its access mask |
| `SocketChannels` | the socket channel and its iovec loops |
| `SocketEventLoops` | the poll loop |
| `SocketClients` | blocking and asynchronous connect |
| `RdmaChannels` | the RDMA channel |
| `RdmaEventLoops` | the connection-manager event loop |
| `RdmaServers`, `VerbsServers` | the passive sides |
| `VerbsChannels` | the verbs channel |
| `VerbsWorkRequests` | the verbs channel's posting and polling loops |
| `OfiEndpoints` | the libfabric endpoint |
| `OfiChannels` | the OFI channel |

The shared modules are:

- `Common`: Option, promises, 32/64-bit wrap-around;
- `ScatterGather`: scatter/gather entries and the byte stream they describe;
- `Rendezvous`: the header/body split of a region list, used by both
  eager/rendezvous channels;
- `ByteCodec` and `RemoteRegions`: the little-endian layout of remote-region
  descriptors;
- `Ibv`: ibverbs structures and the NIC oracle.

Everything outside the process is a parameter of the model: the kernel's
writev/readv/poll/connect, the NIC's post and completion results, libfabric's
post results, completion queue and memory registration, and the connection
manager's calls and events. Each is a function or a finite queue indexed by
call number, so every contract holds for every behaviour of the outside
world.

Addresses are naturals, with NULL = 0. A `std::promise` is a value that is
either unset or set, and every object that owns one keeps a ghost log of its
callback invocations and promise settings. The invariant `SetOnce` says the
promise is set at most once and that the setting is the last step.

## Model

| member | source | states |
|---|---|---|
| ByteCodec.EncodeLE | include/rnetlib/rdma/rdma_channel.h:167-169 | an integer below 256^k is laid out as exactly k bytes |
| ByteCodec.DecodeLE | include/rnetlib/rdma/rdma_channel.h:186-188 | the value read from k bytes is below 256^k |
| ByteCodec.DecodeEncodeLE | include/rnetlib/rdma/rdma_channel.h:160-191 | reading back a stored integer gives the integer |
| ByteCodec.EncodeDecodeLE | include/rnetlib/verbs/verbs_server.h:43 | every byte string is the layout of the integer read from it |
| Common.SettlePromise | include/rnetlib/socket/socket_client.h:113-119 | invoking callbacks and then setting an unset promise leaves it set exactly once, by the last step |
| Common.SetCountAppend | include/rnetlib/rdma/rdma_server.h:66-98 | promise settings of two step logs add up |
| Common.Wrap32 | include/rnetlib/verbs/verbs_channel.h:33 | the unsigned 32-bit result is below 2^32 and equals the exact result whenever that fits |
| Common.Wrap64 | include/rnetlib/ofi/ofi_endpoint.h:355 | the unsigned 64-bit result is below 2^64 and equals the exact result whenever that fits |
| EagerBuffers.CopyLen | include/rnetlib/eager_buffer.h:16-26 | a copy moves min(len, EAGER_THRESHOLD) bytes: never more than asked, never more than the buffer |
| EagerBuffers.Overwrite | include/rnetlib/eager_buffer.h:22-26 | a write replaces exactly the prefix it copies and keeps the rest of the buffer |
| EagerBuffers.ReadAfterWrite | include/rnetlib/eager_buffer.h:16-26 | reading m bytes after writing them returns what was written |
| EagerBuffers.EagerBuffer.constructor | include/rnetlib/eager_buffer.h:12-14 | a fresh buffer registered for local read and write |
| EagerBuffers.EagerBuffer.Read | include/rnetlib/eager_buffer.h:16-20 | copies CopyLen(len) bytes from the buffer to dst[addr..] and changes nothing else of dst |
| EagerBuffers.EagerBuffer.Write | include/rnetlib/eager_buffer.h:22-26 | the buffer afterwards is its old contents with the copied prefix overwritten by src[addr..] |
| EagerBuffers.EagerBuffer.RoundTrip | include/rnetlib/eager_buffer.h:16-26 | writing n bytes and reading m <= n delivers the first CopyLen(m) bytes written |
| VerbsMemoryRegions.VerbsAccess | include/rnetlib/verbs/verbs_local_memory_region.h:22-34 | the ibverbs mask has local write iff local or remote write was asked for, remote read and remote write iff asked for, and no other bit |
| VerbsMemoryRegions.LocalReadRequestsNothing | include/rnetlib/verbs/verbs_local_memory_region.h:22-34 | MR_LOCAL_READ adds no access bit |
| VerbsMemoryRegions.Register | include/rnetlib/verbs/verbs_local_memory_region.h:17-43 | a zero length gives an empty region without calling the driver; otherwise null exactly when ibv_reg_mr fails, else a region with the range, the driver's keys and the computed mask |
| VerbsMemoryRegions.VerbsLocalMemoryRegion.Deregistered | include/rnetlib/verbs/verbs_local_memory_region.h:45-49 | the destructor deregisters exactly when there is a registration, and deregisters that range |
| VerbsMemoryRegions.EmptyRegion | include/rnetlib/verbs/verbs_local_memory_region.h:51-57 | the empty region reports null address, zero length and zero keys, and deregisters nothing |
| RdmaMemoryRegions.RdmaAccess | include/rnetlib/rdma/rdma_local_memory_region.h:23-34 | same bit rules as the verbs mask |
| RdmaMemoryRegions.SameAccessAsVerbs | include/rnetlib/rdma/rdma_local_memory_region.h:23-34 | the two region types compute the same mask for every flag set |
| RdmaMemoryRegions.Register | include/rnetlib/rdma/rdma_local_memory_region.h:20-42 | null exactly when ibv_reg_mr fails, else a region with the range, the keys and the mask |
| RdmaMemoryRegions.Deregistered | include/rnetlib/rdma/rdma_local_memory_region.h:44-48 | an existing region always deregisters its own range |
| RdmaMemoryRegions.ZeroLengthIsRegistered | include/rnetlib/rdma/rdma_local_memory_region.h:20-42 | unlike the verbs region, a zero-length RDMA region is registered with the driver and keeps its keys |
| RemoteRegions.EncodeRmrs | include/rnetlib/remote_memory_region.h:8-15 | an array of descriptors occupies 24 bytes per descriptor |
| RemoteRegions.DecodeRmrs | include/rnetlib/verbs/verbs_channel.h:352-354 | |s| / 24 descriptors are read, every field below 2^64 |
| RemoteRegions.DecodeRecord | include/rnetlib/remote_memory_region.h:13-15 | a 24-byte record reads as address, key, length in that order |
| RemoteRegions.DecodeEncodeRmrs | include/rnetlib/verbs/verbs_channel.h:341-354 | the receiver of the descriptor bytes recovers the sender's array |
| ScatterGather.Span | include/rnetlib/verbs/verbs_channel.h:373-429 | an entry covers exactly `length` consecutive addresses |
| ScatterGather.AddrsLength | include/rnetlib/verbs/verbs_channel.h:373-429 | the byte stream of an entry list is as long as its total length |
| ScatterGather.SpanCut | include/rnetlib/verbs/verbs_channel.h:148-155 | cutting an entry after k bytes and resuming at addr + k describes the same bytes |
| ScatterGather.EntryWithinSgeLen | include/rnetlib/verbs/verbs_channel.h:117-166 | no entry is longer than the total of its list |
| Rendezvous.NonEmptyPositive | include/rnetlib/verbs/verbs_channel.h:123-127 | every region kept is non-empty and every non-empty region is kept |
| Rendezvous.NonEmptyAddrs | include/rnetlib/verbs/verbs_channel.h:123-127 | dropping empty regions does not change the byte stream |
| Rendezvous.Split | include/rnetlib/verbs/verbs_channel.h:117-166 | the header holds between 1 and EAGER_THRESHOLD bytes, and without a header there is no body |
| Rendezvous.SplitBodyPositive | include/rnetlib/verbs/verbs_channel.h:123-127 | the body never holds an empty region |
| Rendezvous.SplitCovers | include/rnetlib/verbs/verbs_channel.h:117-166 | header then body describe exactly the regions' bytes, in order; no header only when there are no bytes |
| Rendezvous.SplitLength | include/rnetlib/verbs/verbs_channel.h:117-166 | header and body together carry the regions' total length |
| Rendezvous.SplitSnoc | include/rnetlib/ofi/ofi_channel.h:51-94 | appending a region either starts the split (no header yet) or appends it, if non-empty, to the body |
| Rendezvous.SplitCons | include/rnetlib/verbs/verbs_channel.h:168-231 | the split of a list by its first region |
| Rendezvous.HeadIffBytes | include/rnetlib/verbs/verbs_channel.h:168-231 | there is a header exactly when the regions hold a byte |
| Rendezvous.SplitStep | include/rnetlib/verbs/verbs_channel.h:168-231 | one more region moves the split by one step of the scanning loop |
| Rendezvous.SplitOne | include/rnetlib/verbs/verbs_channel.h:103-105 | the split of a single region: its eager prefix and, beyond the threshold, the rest |
| Rendezvous.ScanIsSplit | include/rnetlib/verbs/verbs_channel.h:168-231 | the scanning loop after i regions has computed the split of the first i, with a header exactly when the running total is non-zero |
| Rendezvous.ScanAll | include/rnetlib/verbs/verbs_channel.h:168-231 | the scan over all regions is their split |
| SocketChannels.TotalLenSplit | include/rnetlib/socket/socket_channel.h:175-201 | the total of an iovec array is the total of any prefix plus the total of the rest |
| SocketChannels.SkipCovered | include/rnetlib/socket/socket_channel.h:181-189 | skips the entries a transfer completed; what is left over is less than the first unfinished entry |
| SocketChannels.HandedSnoc | include/rnetlib/socket/socket_channel.h:178-189 | each window handed to the kernel is non-empty and at most IOV_MAX entries, and only a window that moved bytes is followed by another |
| SocketChannels.Consume | include/rnetlib/socket/socket_channel.h:175-201 | after a transfer of n bytes the offset skips the entries completed, the first unfinished one is advanced by the leftover and still non-empty, and the bytes left drop by exactly n |
| SocketChannels.ConsumeKeepsAccounted | include/rnetlib/socket/socket_channel.h:185-199 | consuming what the kernel reported keeps "bytes moved plus bytes left is the original total" |
| SocketChannels.AccountedComplete | include/rnetlib/socket/socket_channel.h:175-201 | the loop reaches the end of the array exactly when every byte was reported |
| SocketChannels.TransferStep | include/rnetlib/socket/socket_channel.h:179-199 | each call hands the kernel at most IOV_MAX non-empty entries, and a reported transfer strictly reduces the bytes left |
| SocketChannels.TransferIOV | include/rnetlib/socket/socket_channel.h:175-229 | the windows handed to the kernel are exactly the reference transcript of the loop over the original array, and the bytes moved are the sum of the kernel's answers to them; the result is the array length iff those answers cover every byte, the index reached before a would-block, or 0 after a failing answer; moved plus left is the original total |
| SocketChannels.TransferLoop | include/rnetlib/socket/socket_channel.h:178-198 | the loop hands the kernel the transcript's windows, stops at the end of the array or at the first answer that is not progress (and returns that answer), and keeps the sum of the answers plus the bytes left equal to the original total |
| SocketChannels.TransferEnds | include/rnetlib/socket/socket_channel.h:178-200 | the index returned is the array length exactly when the reported bytes are the total; a failure is the last call's answer, and an early stop without failure is a would-block |
| SocketChannels.Transfer | include/rnetlib/socket/socket_channel.h:33-47 | Send/Recv return len iff len > 0 and the kernel's answers over the transcript add up to len, else 0; those answers never exceed len |
| SocketChannels.TransferV | include/rnetlib/socket/socket_channel.h:71-91 | SendV/RecvV return the regions' total iff it is positive and the kernel's answers add up to it, else 0 |
| SocketChannels.FirstWindow | include/rnetlib/socket/socket_channel.h:178-179 | the first call of a transfer is handed the first min(n, IOV_MAX) entries of the array, unchanged |
| SocketChannels.NothingToMove | include/rnetlib/socket/socket_channel.h:178-197 | with no bytes to move, the first call is not progress, so the end of the array is never reached |
| SocketChannels.Drain | include/rnetlib/socket/socket_channel.h:131-146 | unless the transfer fails, what is left is the unfinished tail of the queue, each entry ending where it did, and the kernel's answers plus the bytes left are the queue's total; after a failure no entry is erased; the queue empties iff the answers cover every byte |
| SocketChannels.SocketChannel.GetEventType | include/rnetlib/socket/socket_channel.h:156-167 | POLLOUT iff sends are queued, POLLIN iff receives are queued, nothing else |
| SocketChannels.SocketChannel.OnError | include/rnetlib/socket/socket_channel.h:148-150 | any error unregisters the channel |
| SocketChannels.SocketChannel.ISend | include/rnetlib/socket/socket_channel.h:57-62 | queues one send, registers with the loop and returns len |
| SocketChannels.SocketChannel.IRecv | include/rnetlib/socket/socket_channel.h:64-69 | queues one receive, registers and returns len |
| SocketChannels.SocketChannel.ISendV | include/rnetlib/socket/socket_channel.h:93-102 | queues every region and registers only if there was one; returns the count |
| SocketChannels.SocketChannel.IRecvV | include/rnetlib/socket/socket_channel.h:104-113 | as ISendV on the receive queue |
| SocketChannels.SocketChannel.OnEvent | include/rnetlib/socket/socket_channel.h:131-146 | a ready direction drains its queue as Drain states (the kernel's answers plus the bytes left are the old total), the other keeps its queue; MAY_BE_REMOVED iff both queues are empty afterwards |
| SocketEventLoops.Answer | include/rnetlib/socket/socket_event_loop.h:56-78 | a descriptor that is not ready is skipped; on a hang-up, error or invalid descriptor OnError answers, else OnEvent |
| SocketEventLoops.RoundsOnlyRemove | include/rnetlib/socket/socket_event_loop.h:56-78 | dispatch never adds a handler and survivors keep their descriptor |
| SocketEventLoops.KeptUnlessRemovable | include/rnetlib/socket/socket_event_loop.h:72-76 | a handler that never answers MAY_BE_REMOVED stays registered through every round |
| SocketEventLoops.SocketEventLoop.constructor | include/rnetlib/socket/socket_event_loop.h:85 | no handler registered |
| SocketEventLoops.BuildFds | include/rnetlib/socket/socket_event_loop.h:40-42 | every registered descriptor appears exactly once, with its handler's current event mask |
| SocketEventLoops.FdsInterest | include/rnetlib/socket/socket_event_loop.h:40-45 | a pollfd array listing each registered descriptor once with its handler's events is, as a map, the round's interest set |
| SocketEventLoops.Dispatch | include/rnetlib/socket/socket_event_loop.h:56-78 | the handler map that is left is the one-round function of the map dispatched on |
| SocketEventLoops.PollRound | include/rnetlib/socket/socket_event_loop.h:37-78 | poll is handed the round's interest set (each registered descriptor with its handler's events), the loop body returns its answer and, when descriptors were ready, the map one round leaves |
| SocketEventLoops.PollStep | include/rnetlib/socket/socket_event_loop.h:37-78 | one round from the map the earlier rounds left: either it continues with the next round's map, or it stops with kErrFailed after a negative poll answer or kErrTimedOut after 0 |
| SocketEventLoops.PollRounds | include/rnetlib/socket/socket_event_loop.h:34-82 | the loop ends with 0 exactly when no handler is left, with kErrFailed or kErrTimedOut after a failing or timed-out poll of the interest set, and the map is what the completed rounds left, each of which polled a ready descriptor |
| SocketEventLoops.SocketEventLoop.WaitAll | include/rnetlib/socket/socket_event_loop.h:34-82 | 0 exactly when no handler is left; a failing poll gives kErrFailed and a timeout kErrTimedOut; every earlier round had ready descriptors; the handlers are those the rounds left |
| SocketClients.ConnOutcome | include/rnetlib/socket/socket_client.h:121-145 | kConnEstablished iff the socket opened and connect succeeded at once, kConnSuccess iff it is in progress, else kConnFailed |
| SocketClients.SocketClient.constructor | include/rnetlib/socket/socket_client.h:31-32 | an unset promise, no callback, no socket calls made yet |
| SocketClients.SocketClient.Open | include/rnetlib/socket/socket_common.h:81-142 | succeeds exactly when the OS gives a descriptor, which becomes the client's |
| SocketClients.SocketClient.Close | include/rnetlib/socket/socket_common.h:76-79 | records the current descriptor as closed and changes nothing else |
| SocketClients.SocketClient.Connect | include/rnetlib/socket/socket_client.h:36-59 | null when Open fails, null after closing the socket when connect fails, else a channel over the connected descriptor |
| SocketClients.SocketClient.NonBlockingConnect | include/rnetlib/socket/socket_client.h:121-145 | returns ConnOutcome of the OS answers and closes the socket exactly when it opened and the connect failed |
| SocketClients.SocketClient.OnEstablished | include/rnetlib/socket/socket_client.h:113-119 | the callback, if any, gets the channel before the promise is set to it |
| SocketClients.SocketClient.Fail | include/rnetlib/socket/socket_client.h:167-175 | the promise is set to null, once |
| SocketClients.SocketClient.OnConnect | include/rnetlib/socket/socket_client.h:147-178 | SO_ERROR 0 establishes; ECONNREFUSED closes and reconnects, staying registered only while in progress; any other error fails; the handler stays iff the promise is still unset |
| SocketClients.SocketClient.Reconnect | include/rnetlib/socket/socket_client.h:155-170 | after ECONNREFUSED: closes and reconnects; stays registered iff the new connect is in progress, else sets the promise to the channel or to null, once |
| SocketClients.SocketClient.OnEvent | include/rnetlib/socket/socket_client.h:80-86 | POLLOUT runs OnConnect; any other readiness drops the handler and leaves the promise |
| SocketClients.SocketClient.OnError | include/rnetlib/socket/socket_client.h:88-94 | a hang-up or error runs OnConnect; anything else drops the handler |
| SocketClients.SocketClient.ConnectAsync | include/rnetlib/socket/socket_client.h:61-78 | in progress: registered with the loop, promise unset; established at once: callback then promise; failed: promise null |
| RdmaEventLoops.FirstMatchSpec | include/rnetlib/rdma/rdma_event_loop.h:49-58 | the index found belongs to a handler whose identifier is the event's or the listening identifier it came on, and no handler before it has either |
| RdmaEventLoops.FirstMatchIsFirst | include/rnetlib/rdma/rdma_event_loop.h:49-58 | any index that owns the event with no owner before it, or the end when none owns it, is the one the scan finds |
| RdmaEventLoops.EraseAt | include/rnetlib/rdma/rdma_event_loop.h:78-80 | erasing one entry removes that one element and keeps the order of the rest |
| RdmaEventLoops.AfterEventErasesOwner | include/rnetlib/rdma/rdma_event_loop.h:61-85 | a MAY_BE_REMOVED answer erases exactly the owner, keeping order; any other outcome leaves the list |
| RdmaEventLoops.AfterEventShrinks | include/rnetlib/rdma/rdma_event_loop.h:61-85 | dispatching one event registers no handler more often than before |
| RdmaEventLoops.RoundShrinks | include/rnetlib/rdma/rdma_event_loop.h:42-88 | one more round of the loop adds no registration |
| RdmaEventLoops.RoundKeeps | include/rnetlib/rdma/rdma_event_loop.h:61-85 | a handler that cannot answer MAY_BE_REMOVED to a round's event keeps every registration through that round |
| RdmaEventLoops.RoundsOnlyRemove | include/rnetlib/rdma/rdma_event_loop.h:39-91 | dispatch never adds a handler nor registers one more often |
| RdmaEventLoops.RoundsLength | include/rnetlib/rdma/rdma_event_loop.h:39-91 | after k rounds at most k registrations are gone |
| RdmaEventLoops.AfterEventKeeps | include/rnetlib/rdma/rdma_event_loop.h:61-85 | a handler that does not answer MAY_BE_REMOVED keeps every registration through the round |
| RdmaEventLoops.KeptUnlessRemovable | include/rnetlib/rdma/rdma_event_loop.h:39-91 | a handler that never answers MAY_BE_REMOVED keeps all its registrations through every round |
| RdmaEventLoops.FindHandler | include/rnetlib/rdma/rdma_event_loop.h:49-58 | the std::find_if scan returns FirstMatch |
| RdmaEventLoops.Dispatch | include/rnetlib/rdma/rdma_event_loop.h:61-85 | the list after the owner's answer: a connect request passes the new identifier, established passes NULL, connection errors go to OnError, other events to OnEvent |
| RdmaEventLoops.Round | include/rnetlib/rdma/rdma_event_loop.h:44-87 | a round that continues has acknowledged its event and applied it; one that ends does so with kErrFailed (no event or no owner) or 0 (list empty), acknowledging exactly a fetched event |
| RdmaEventLoops.RdmaEventLoop.constructor | include/rnetlib/rdma/rdma_event_loop.h:31 | no handler, no identifier migrated, no event acknowledged |
| RdmaEventLoops.RdmaEventLoop.AddHandler | include/rnetlib/rdma/rdma_event_loop.h:33-37 | migrates the handler's identifier onto the loop's channel and appends the handler |
| RdmaEventLoops.RdmaEventLoop.WaitAll | include/rnetlib/rdma/rdma_event_loop.h:39-91 | 0 exactly when no handler is left; kErrFailed exactly when a fetch fails or no handler owns the event; the handlers are what the rounds left |
| RdmaEventLoops.DispatchRounds | include/rnetlib/rdma/rdma_event_loop.h:42-89 | the loop ends as Finished says, having acknowledged every event it dispatched plus the one it found no owner for |
| RdmaServers.RdmaServer.constructor | include/rnetlib/rdma/rdma_server.h:18-19 | no identifiers held, promise unset |
| RdmaServers.RdmaServer.Listen | include/rnetlib/rdma/rdma_server.h:23-39 | destroys any held identifier, creates one and listens with backlog 1024; true iff both calls succeed |
| RdmaServers.RdmaServer.Accept | include/rnetlib/rdma/rdma_server.h:41-55 | null when no request; null after destroying the new identifier when rdma_accept fails; else a channel over it |
| RdmaServers.RdmaServer.AcceptAsync | include/rnetlib/rdma/rdma_server.h:57-64 | stores the callback and registers with the loop under its current identifier |
| RdmaServers.RdmaServer.Fail | include/rnetlib/rdma/rdma_server.h:76-84 | the promise is set to null, once |
| RdmaServers.RdmaServer.OnEvent | include/rnetlib/rdma/rdma_server.h:66-98 | stays registered iff a connect request got its QP and was accepted; either failure sets null; established hands the accepted identifier to the callback and then the promise, clearing it; other events change nothing |
| RdmaServers.RdmaServer.OnConnectRequest | include/rnetlib/rdma/rdma_server.h:67-87 | adopts the new identifier, destroying any earlier one; stays registered iff QP creation and accept both succeed, else the promise is null |
| RdmaServers.RdmaServer.Establish | include/rnetlib/rdma/rdma_server.h:88-95 | the accepting identifier becomes the channel, given to the callback before the promise |
| RdmaServers.RdmaServer.OnError | include/rnetlib/rdma/rdma_server.h:100-103 | sets the promise to null and asks to be removed |
| VerbsServers.PeerDesc | include/rnetlib/verbs/verbs_server.h:43 | the peer's descriptor is the 64-bit integer whose little-endian bytes are the first eight bytes of the private data |
| VerbsServers.VerbsServer.constructor | include/rnetlib/verbs/verbs_server.h:16-17 | no identifiers held, no pending channel, promise unset |
| VerbsServers.VerbsServer.ResetChannel | include/rnetlib/verbs/verbs_server.h:44 | replacing the pending channel destroys exactly the old one's identifier |
| VerbsServers.VerbsServer.Listen | include/rnetlib/verbs/verbs_server.h:21-34 | as the RDMA server's listen |
| VerbsServers.VerbsServer.Accept | include/rnetlib/verbs/verbs_server.h:36-52 | a request makes a pending channel with the private data's descriptor; a failed accept leaves it pending and returns null; else it is moved out |
| VerbsServers.VerbsServer.AcceptAsync | include/rnetlib/verbs/verbs_server.h:54-61 | stores the callback and registers under the pending channel's or the listening identifier |
| VerbsServers.VerbsServer.Fail | include/rnetlib/verbs/verbs_server.h:98-106 | the promise is set to null, once |
| VerbsServers.VerbsServer.OnEvent | include/rnetlib/verbs/verbs_server.h:87-119 | a connect request makes a pending channel without descriptor, whose identifier the loop then follows; established hands it to the callback and then the promise; other events change nothing |
| VerbsServers.VerbsServer.OnConnectRequest | include/rnetlib/verbs/verbs_server.h:88-109 | a new pending channel replaces and destroys any earlier one; stays registered iff QP creation and accept both succeed, else the promise is null |
| VerbsServers.VerbsServer.Establish | include/rnetlib/verbs/verbs_server.h:110-116 | the pending channel goes to the callback and then into the promise, leaving none pending |
| VerbsServers.VerbsServer.OnError | include/rnetlib/verbs/verbs_server.h:121-124 | sets the promise to null and asks to be removed |
| RdmaChannels.Chunk | include/rnetlib/rdma/rdma_channel.h:49-78 | the remaining bytes go inline if they fit the inline limit, else at most one buffer's worth; never 0 while bytes remain |
| RdmaChannels.SendChunksSum | include/rnetlib/rdma/rdma_channel.h:45-82 | Send's chunks add up to the length |
| RdmaChannels.RecvChunksSum | include/rnetlib/rdma/rdma_channel.h:84-103 | Recv's chunks add up to the length and none exceeds the buffer |
| RdmaChannels.ChunksAgree | include/rnetlib/rdma/rdma_channel.h:45-103 | with an inline limit within the buffer, sender and receiver cut a message into the same chunks |
| RdmaChannels.InlineBeyondBuffer | include/rnetlib/rdma/rdma_channel.h:49-76 | with an inline limit above the buffer size, sender and receiver cut a message of that length differently |
| RdmaChannels.Delivered | include/rnetlib/rdma/rdma_channel.h:45-103 | when each receive completion lands the chunk the matching send carried, Recv reassembles exactly the sent bytes |
| RdmaChannels.DeliveredPrefix | include/rnetlib/rdma/rdma_channel.h:84-103 | the first k received chunks are the first bytes of the message |
| RdmaChannels.DeliveredStep | include/rnetlib/rdma/rdma_channel.h:99 | the bytes copied for chunk k are the next chunk of the message |
| RdmaChannels.EncodeSyn | include/rnetlib/rdma/rdma_channel.h:160-172 | the record is 20 bytes: address, key cast to 32 bits, length |
| RdmaChannels.DecodeSyn | include/rnetlib/rdma/rdma_channel.h:174-191 | the descriptor read back has a 64-bit address and length and a 32-bit key |
| RdmaChannels.DecodeEncodeSyn | include/rnetlib/rdma/rdma_channel.h:160-191 | a record read back describes the region it was written for |
| RdmaChannels.BaseBuffer.Entry | include/rnetlib/rdma/rdma_channel.h:201-204 | the buffer's scatter/gather entry is its address, 1024 bytes and its key |
| RdmaChannels.BaseBuffer.constructor | include/rnetlib/rdma/rdma_channel.h:198-205 | a fresh 1024-byte buffer registered with the given access |
| RdmaChannels.BaseBuffer.Write | include/rnetlib/rdma/rdma_channel.h:209-214 | copies min(len, 1024) bytes in and keeps the rest of the buffer |
| RdmaChannels.BaseBuffer.Read | include/rnetlib/rdma/rdma_channel.h:216-221 | copies min(len, 1024) bytes out and changes nothing else of dst |
| RdmaChannels.RdmaChannel.constructor | include/rnetlib/rdma/rdma_channel.h:22-33 | takes the QP's inline limit, registers both buffers and posts one receive |
| RdmaChannels.RdmaChannel.PostSend | include/rnetlib/rdma/rdma_channel.h:277-286 | true exactly when the post and its completion succeed |
| RdmaChannels.RdmaChannel.SendRound | include/rnetlib/rdma/rdma_channel.h:49-78 | one pass sends the next chunk, inline from memory or through the send buffer |
| RdmaChannels.RdmaChannel.Send | include/rnetlib/rdma/rdma_channel.h:45-82 | returns the bytes of the chunks that completed; all of them exactly when every post and completion succeeded; the requests carry the chunks in order |
| RdmaChannels.RdmaChannel.SendRounds | include/rnetlib/rdma/rdma_channel.h:48-79 | Send's loop keeps the chunk plan and the counts of posts and polls |
| RdmaChannels.SendDone | include/rnetlib/rdma/rdma_channel.h:45-82 | where the loop stops: the offset is the sum of the chunks sent, the whole length exactly when every chunk went through, and otherwise the next post or its completion failed |
| RdmaChannels.RdmaChannel.PostRecv | include/rnetlib/rdma/rdma_channel.h:89-92 | true iff the NIC accepted the receive |
| RdmaChannels.RdmaChannel.PollRecv | include/rnetlib/rdma/rdma_channel.h:94-97 | on a successful completion the receive buffer holds what landed |
| RdmaChannels.RdmaChannel.RecvRound | include/rnetlib/rdma/rdma_channel.h:89-99 | one pass copies min(rest, 1024) bytes exactly when post and completion succeed |
| RdmaChannels.RdmaChannel.Recv | include/rnetlib/rdma/rdma_channel.h:84-103 | returns the bytes of the chunks received; all exactly when every post and completion succeeded; memory holds the landed chunks and is unchanged elsewhere |
| RdmaChannels.RdmaChannel.RecvRounds | include/rnetlib/rdma/rdma_channel.h:88-100 | Recv's loop keeps the chunk plan and the counts |
| RdmaChannels.RdmaChannel.SendRegion | include/rnetlib/rdma/rdma_channel.h:105-107 | Send over the region's range |
| RdmaChannels.RdmaChannel.RecvRegion | include/rnetlib/rdma/rdma_channel.h:109-111 | Recv into the region's range |
| RdmaChannels.RdmaChannel.Write | include/rnetlib/rdma/rdma_channel.h:113-134 | one RDMA WRITE of the whole region, inline when it fits; the length iff post and completion succeed |
| RdmaChannels.RdmaChannel.Read | include/rnetlib/rdma/rdma_channel.h:136-154 | one RDMA READ, never inline, with the same result rule |
| RdmaChannels.RdmaChannel.SynRemoteMemoryRegion | include/rnetlib/rdma/rdma_channel.h:160-172 | sends one message whose first 20 bytes are the region's record |
| RdmaChannels.RdmaChannel.AckRemoteMemoryRegion | include/rnetlib/rdma/rdma_channel.h:174-191 | a descriptor decoded from the landed record exactly when the receive succeeds, else null |
| RdmaChannels.RdmaChannel.SingleChunk | include/rnetlib/rdma/rdma_channel.h:45-103 | a message of at most one buffer is a single chunk on both sides |
| RdmaChannels.RdmaChannel.RunStep | include/rnetlib/rdma/rdma_channel.h:47-101 | one more pass succeeds when its post and its completion do |
| VerbsWorkRequests.CountOk | include/rnetlib/verbs/verbs_channel.h:491-508 | the successful completions among n polls, at most n |
| VerbsWorkRequests.CountOkAll | include/rnetlib/verbs/verbs_channel.h:479-489 | all requested completions arrived iff every poll succeeded |
| VerbsWorkRequests.CountOkSplit | include/rnetlib/verbs/verbs_channel.h:491-508 | counting a + b polls is counting a and then b |
| VerbsWorkRequests.PollCQ | include/rnetlib/verbs/verbs_channel.h:491-508 | returns the number of successful completions; a failed one is skipped |
| VerbsWorkRequests.SingleEntryTiles | include/rnetlib/verbs/verbs_channel.h:402-424 | for a single-entry write or read, each request's remote address starts where the bytes before it end |
| VerbsWorkRequests.CutCovers | include/rnetlib/verbs/verbs_channel.h:421-425 | cutting an entry and resuming with its rest describes the same bytes |
| VerbsWorkRequests.PackWr | include/rnetlib/verbs/verbs_channel.h:384-396 | gathers whole entries while they fit the message size, else cuts the next so the request holds exactly max_msg_sz bytes |
| VerbsWorkRequests.FillRequest | include/rnetlib/verbs/verbs_channel.h:377-405 | one request: 1 to max_sge entries within the message size, and it plus the rest of the list describe the old list's bytes |
| VerbsWorkRequests.FilledWhole | include/rnetlib/verbs/verbs_channel.h:385-397 | without a cut the request takes max_sge entries or all that are left, at least one, within the message size, and it plus the rest of the list describe the list's bytes from the offset |
| VerbsWorkRequests.FilledCut | include/rnetlib/verbs/verbs_channel.h:387-392 | a cut shortens the last entry to exactly max_msg_sz bytes in all, and its remainder starts where the shortened entry ends |
| VerbsWorkRequests.CarryRemainder | include/rnetlib/verbs/verbs_channel.h:421-425 | the cut entry becomes its remainder and the rest of the list is kept |
| VerbsWorkRequests.StepCovers | include/rnetlib/verbs/verbs_channel.h:381-425 | a request and the rest of the list after it describe the list's bytes from the old offset |
| VerbsWorkRequests.SendProgressDone | include/rnetlib/verbs/verbs_channel.h:373-429 | PostSend's requests are well formed and carry a prefix of the list's bytes, all of them once nothing is left |
| VerbsWorkRequests.RecvProgressDone | include/rnetlib/verbs/verbs_channel.h:431-477 | PostRecv's requests are well formed and carry a prefix of the list's bytes, all of them once nothing is left |
| VerbsWorkRequests.SendProgressSnoc | include/rnetlib/verbs/verbs_channel.h:373-429 | one more posted request keeps PostSend's invariant |
| VerbsWorkRequests.RecvProgressSnoc | include/rnetlib/verbs/verbs_channel.h:431-477 | one more posted request keeps PostRecv's invariant |
| VerbsChannels.HandedIsSplit | include/rnetlib/verbs/verbs_channel.h:117-166 | below 4 GiB the 32-bit length cast loses nothing: the partition handed to the NIC is the split and describes exactly the regions' bytes |
| VerbsChannels.ScanRecvRegions | include/rnetlib/verbs/verbs_channel.h:177-203 | RecvV's scan yields the total length, the header region and the cast body of the split |
| VerbsChannels.ScanRegion | include/rnetlib/verbs/verbs_channel.h:178-202 | one region moves the scan by one split step |
| VerbsChannels.ScanHanded | include/rnetlib/verbs/verbs_channel.h:123-157 | SendV's scan over all regions yields their total length and the header and 32-bit-cast body handed to the NIC |
| VerbsChannels.LeavesOne | include/rnetlib/verbs/verbs_channel.h:222 | polling all but one outstanding receive leaves one in 32-bit arithmetic, even when none was outstanding |
| VerbsChannels.VerbsChannel.constructor | include/rnetlib/verbs/verbs_channel.h:22-46 | max_recv_wr is the smaller queue depth and max_send_wr one less (32-bit); both sge limits are the smaller one; one eager receive is posted |
| VerbsChannels.VerbsChannel.PollSendCQ | include/rnetlib/verbs/verbs_channel.h:479-483 | the outstanding count drops by the successful completions, in 32-bit arithmetic; true iff every completion polled succeeded; polling all outstanding sends succeeds iff none is left |
| VerbsChannels.VerbsChannel.PollRecvCQ | include/rnetlib/verbs/verbs_channel.h:485-489 | the same on the receive queue: the count drops by the successes, true iff every completion polled succeeded |
| VerbsChannels.VerbsChannel.PollAllButOneRecv | include/rnetlib/verbs/verbs_channel.h:222 | polls num_recv_wr_ - 1 receives in 32-bit arithmetic; true iff every one completed, and then exactly one is outstanding |
| VerbsChannels.VerbsChannel.PostSend | include/rnetlib/verbs/verbs_channel.h:373-429 | returns the whole list's length iff every ibv_post_send and every capacity poll succeeded, and then the requests carried exactly the list's bytes; whatever happens the requests are well formed and carry a prefix of them, a single entry being cut into one-entry requests (the corrected return value, see Findings) |
| VerbsChannels.VerbsChannel.PostSendAsWritten | include/rnetlib/verbs/verbs_channel.h:373-429 | the return value as written: a full length whenever everything succeeded, but for one entry within max_msg_sz it is 1 even when the post or the capacity poll failed and nothing was posted |
| VerbsChannels.VerbsChannel.SendRounds | include/rnetlib/verbs/verbs_channel.h:377-426 | PostSend's loop keeps its progress invariant and the completion accounting; the entries reached are the whole list iff every post and poll succeeded, while the offset as written can run ahead of them |
| VerbsChannels.VerbsChannel.SendRound | include/rnetlib/verbs/verbs_channel.h:378-425 | a posted request keeps PostSend's progress invariant and moves the list on or shortens the current entry; posted iff its poll and post succeeded |
| VerbsChannels.VerbsChannel.SendRequest | include/rnetlib/verbs/verbs_channel.h:377-419 | one request, with its opcode, inline flag, remote address and key, posted iff the capacity poll and ibv_post_send succeeded |
| VerbsChannels.VerbsChannel.FillWr | include/rnetlib/verbs/verbs_channel.h:378-405 | the request packs 1 to max_send_sge entries within max_msg_sz, inline when small enough, with the remote address and key the opcode calls for |
| VerbsChannels.VerbsChannel.PostSendWr | include/rnetlib/verbs/verbs_channel.h:407-419 | at capacity one completion is polled first; the request is posted iff that poll and ibv_post_send succeed, and then one more send is outstanding |
| VerbsChannels.VerbsChannel.PostRecv | include/rnetlib/verbs/verbs_channel.h:431-477 | as PostSend for receive requests: the whole length iff every post and poll succeeded, and then the requests carry exactly the list's bytes |
| VerbsChannels.VerbsChannel.PostRecvAsWritten | include/rnetlib/verbs/verbs_channel.h:431-477 | as PostSendAsWritten: one entry within max_msg_sz yields 1 even when nothing was posted |
| VerbsChannels.VerbsChannel.RecvRounds | include/rnetlib/verbs/verbs_channel.h:435-474 | PostRecv's loop keeps its progress invariant and the accounting; the whole list is reached iff every post and poll succeeded |
| VerbsChannels.VerbsChannel.RecvRound | include/rnetlib/verbs/verbs_channel.h:435-474 | a posted receive keeps PostRecv's progress invariant; posted iff its poll and post succeeded |
| VerbsChannels.VerbsChannel.RecvRequest | include/rnetlib/verbs/verbs_channel.h:435-473 | one receive request within max_recv_sge and max_msg_sz, posted iff its poll and post succeeded |
| VerbsChannels.VerbsChannel.PostRecvWr | include/rnetlib/verbs/verbs_channel.h:456-468 | as PostSendWr with ibv_post_recv and the receive queue |
| VerbsChannels.VerbsChannel.Send | include/rnetlib/verbs/verbs_channel.h:58-76 | len iff every post and poll succeeded, else 0, and then no send is outstanding; up to EAGER_THRESHOLD bytes are staged in the send buffer and exactly that buffer is sent; a longer message is handed to the NIC as the header and body of its one-region split |
| VerbsChannels.VerbsChannel.Recv | include/rnetlib/verbs/verbs_channel.h:78-101 | len iff every post and poll succeeded, else 0; memory is unchanged on failure and holds min(len, EAGER_THRESHOLD) bytes of the eager buffer on success; a longer message posts its body and then the eager buffer |
| VerbsChannels.VerbsChannel.RecvEager | include/rnetlib/verbs/verbs_channel.h:79-97 | refills the eager receive, polls all but one outstanding receive and copies len bytes out of the eager buffer, returning len iff all succeeded; memory unchanged otherwise |
| VerbsChannels.VerbsChannel.SendV | include/rnetlib/verbs/verbs_channel.h:117-166 | returns the regions' total iff every post and poll succeeded, else 0; then no send is outstanding and the requests carried the header of the regions' split and then its body, byte for byte |
| VerbsChannels.VerbsChannel.SendHeader | include/rnetlib/verbs/verbs_channel.h:123-157 | true iff every post and poll so far succeeded; then the length counted is the regions' total, header and body are their 32-bit-cast split, and the requests carried exactly the header |
| VerbsChannels.VerbsChannel.SendStep | include/rnetlib/verbs/verbs_channel.h:124-156 | one region moves SendV's scan by one split step; only the first non-empty region is posted, as the header, and true iff its post and poll succeeded |
| VerbsChannels.VerbsChannel.SendFirst | include/rnetlib/verbs/verbs_channel.h:131-145 | the header is min(len, EAGER_THRESHOLD) bytes of the first non-empty region, sent and waited for |
| VerbsChannels.VerbsChannel.PostHeader | include/rnetlib/verbs/verbs_channel.h:134-145 | one send of the header, waited for; true iff post and poll succeeded, and then the request carried exactly the header |
| VerbsChannels.VerbsChannel.RecvV | include/rnetlib/verbs/verbs_channel.h:168-231 | the total iff every post and poll succeeded, else 0; then one receive is outstanding, the body and then the eager buffer were posted, and the header bytes are copied to the first region; memory is unchanged on failure |
| VerbsChannels.VerbsChannel.RecvBody | include/rnetlib/verbs/verbs_channel.h:205-225 | posts the body, refills the eager receive and polls all but one; true iff all succeeded, and then the receives carry the body and the eager buffer, in order |
| VerbsChannels.VerbsChannel.PostRecvList | include/rnetlib/verbs/verbs_channel.h:205-220 | true iff the whole list was posted, which is exactly when every post and poll succeeded; then the receives carry the list's bytes |
| VerbsChannels.VerbsChannel.Write | include/rnetlib/verbs/verbs_channel.h:243-260 | len iff every post and poll succeeded, else 0; small writes send the staged send buffer, large ones the caller's region cast to 32 bits, exactly those bytes on success, all aimed at the remote region |
| VerbsChannels.VerbsChannel.WriteEager | include/rnetlib/verbs/verbs_channel.h:245-256 | the bytes reach the send buffer, one RDMA WRITE of that buffer targets the remote region, and len is returned iff the post and every completion succeeded |
| VerbsChannels.VerbsChannel.Read | include/rnetlib/verbs/verbs_channel.h:262-283 | len iff every post and poll succeeded, else 0; a small read is requested into the send buffer, and only on success are the send buffer's bytes copied out; a large one is requested straight into the registered memory, which the host does not write |
| VerbsChannels.VerbsChannel.ReadEager | include/rnetlib/verbs/verbs_channel.h:264-279 | one RDMA READ of the remote region into the send buffer; len iff post and polls succeeded, and then the send buffer's first len bytes are copied to memory, the rest of memory unchanged; on failure memory is unchanged |
| VerbsChannels.VerbsChannel.FetchEager | include/rnetlib/verbs/verbs_channel.h:266-277 | the read request targets the remote region and lands in the send buffer; true iff the post and the polls (as many as outstanding receives) succeeded |
| VerbsChannels.VerbsChannel.PostOne | include/rnetlib/verbs/verbs_channel.h:248-253 | a one-entry PostSend of the entry cast to 32 bits; true iff every post and poll succeeded, and then the request carried exactly that entry |
| VerbsChannels.VerbsChannel.OneSidedV | include/rnetlib/verbs/verbs_channel.h:293-335 | posts one request per non-empty region, stopping at the first failure; returns the bytes of the regions reached iff no send is outstanding afterwards; every post and poll succeeded iff all regions were reached and none is outstanding, and then the requests carried every region's bytes in order |
| VerbsChannels.VerbsChannel.PostRegions | include/rnetlib/verbs/verbs_channel.h:297-310 | the loop of OneSidedV: all regions are reached iff every post and poll succeeded; the stopping region is non-empty; the bytes carried are the regions' up to the stop |
| VerbsChannels.VerbsChannel.PostNext | include/rnetlib/verbs/verbs_channel.h:298-309 | one iteration of the region loop: on success the loop invariant (all posts and polls so far succeeded, the summed length, the bytes carried in order) holds for one more region; otherwise the run of answers is no longer all successes |
| VerbsChannels.VerbsChannel.PostRegion | include/rnetlib/verbs/verbs_channel.h:298-309 | an empty region is skipped; a non-empty one is posted iff its post and poll succeed, and then carries exactly the region's bytes |
| VerbsChannels.VerbsChannel.WriteV | include/rnetlib/verbs/verbs_channel.h:293-313 | OneSidedV with RDMA WRITE |
| VerbsChannels.VerbsChannel.ReadV | include/rnetlib/verbs/verbs_channel.h:315-335 | OneSidedV with RDMA READ |
| VerbsChannels.VerbsChannel.SynRemoteMemoryRegionV | include/rnetlib/verbs/verbs_channel.h:341-350 | sends exactly the 24-byte-per-region encoding of the regions' descriptors, counted as sent iff every post and poll succeeded |
| VerbsChannels.VerbsChannel.AckRemoteMemoryRegionV | include/rnetlib/verbs/verbs_channel.h:352-354 | counted as received iff every post and poll succeeded; then an eager-sized message yields the decoding of the bytes at the start of the eager buffer |
| OfiEndpoints.OfiAccess | include/rnetlib/ofi/ofi_endpoint.h:93-104 | local send, receive, read and write always; remote read and write iff asked for; no other bit |
| OfiEndpoints.CreditedCounts | include/rnetlib/ofi/ofi_endpoint.h:335-346 | a series of completions credits each context with exactly its own completions, whichever context polls |
| OfiEndpoints.PollRanUnique | include/rnetlib/ofi/ofi_endpoint.h:331-359 | how many answers a poll consumes is determined by the queue, the contexts and the count |
| OfiEndpoints.ChunkedCount | include/rnetlib/ofi/ofi_endpoint.h:125-135 | a vector post takes the ceiling of its entries over the per-post limit |
| OfiEndpoints.FullChunks | include/rnetlib/ofi/ofi_endpoint.h:125-135 | requests that are all full hold `max` entries each |
| OfiEndpoints.SliceAsWrittenExact | include/rnetlib/ofi/ofi_endpoint.h:125-135 | a slice posted as written carries the right descriptors iff each entry's descriptor equals the one `offset` places before it |
| OfiEndpoints.SliceAsWrittenWrongDescriptor | include/rnetlib/ofi/ofi_endpoint.h:130 | two entries in two regions, one per post: the second is sent under the first region's descriptor |
| OfiEndpoints.BumpedTwice | include/rnetlib/ofi/ofi_endpoint.h:37-51 | one more post after k is k + 1 posts, in 64-bit arithmetic |
| OfiEndpoints.SettledOk | include/rnetlib/ofi/ofi_endpoint.h:354-356 | settling the polling context after crediting keeps the context table well formed |
| OfiEndpoints.ReadCq | include/rnetlib/ofi/ofi_endpoint.h:335-351 | reads the answers until enough completions of the context or a stop, crediting each to the context it names |
| OfiEndpoints.OfiEndpoint.constructor | include/rnetlib/ofi/ofi_endpoint.h:246-329 | max_msg_iov is the smaller of the transmit and receive limits, max_rma_iov the transmit RMA limit; no context yet |
| OfiEndpoints.OfiEndpoint.RegisterContext | include/rnetlib/ofi/ofi_endpoint.h:83-89 | the context gets the next id, new to the table, with nothing outstanding |
| OfiEndpoints.OfiEndpoint.DeregisterContext | include/rnetlib/ofi/ofi_endpoint.h:91 | removes that id and no other |
| OfiEndpoints.OfiEndpoint.RegisterMemoryRegion | include/rnetlib/ofi/ofi_endpoint.h:93-113 | asks with the computed access and the next requested key; null iff fi_mr_reg fails, else the range with its descriptor and key |
| OfiEndpoints.OfiEndpoint.PollCQ | include/rnetlib/ofi/ofi_endpoint.h:331-359 | consumes a prefix of the queue; every completion credits its own context; the polling context's wr drops by what it got, its comp is zeroed, and the result is that count |
| OfiEndpoints.OfiEndpoint.Post | include/rnetlib/ofi/ofi_endpoint.h:37-51 | true iff the post is accepted; -FI_EAGAIN retries, polling only without auto progress; an accepted post adds one outstanding request |
| OfiEndpoints.OfiEndpoint.PostSend | include/rnetlib/ofi/ofi_endpoint.h:115-123 | fi_tsend with a tag, fi_send otherwise; 0 whatever happened |
| OfiEndpoints.OfiEndpoint.PostRecv | include/rnetlib/ofi/ofi_endpoint.h:137-145 | fi_trecv with a tag, fi_recv otherwise; 0 whatever happened |
| OfiEndpoints.OfiEndpoint.PostChunks | include/rnetlib/ofi/ofi_endpoint.h:125-199 | slices of at most `max` entries, all full but the last; the slices cover a prefix of the vector, all of it iff none was refused |
| OfiEndpoints.OfiEndpoint.PostSendV | include/rnetlib/ofi/ofi_endpoint.h:125-135 | fi_sendv in slices of max_msg_iov entries, each entry with its own descriptor; the ceiling of entries over the limit when complete |
| OfiEndpoints.OfiEndpoint.PostRecvV | include/rnetlib/ofi/ofi_endpoint.h:147-157 | fi_recvv likewise |
| OfiEndpoints.OfiEndpoint.PostWrite | include/rnetlib/ofi/ofi_endpoint.h:159-178 | fi_writemsg in slices of max_rma_iov local and remote entries, advanced together |
| OfiEndpoints.OfiEndpoint.PostRead | include/rnetlib/ofi/ofi_endpoint.h:180-199 | fi_readmsg likewise |
| OfiEndpoints.OfiEndpoint.PrefixCovered | include/rnetlib/ofi/ofi_endpoint.h:125-199 | the slices posted cover a prefix of the vector, all of it exactly when none was refused |
| OfiChannels.HeadStable | include/rnetlib/ofi/ofi_channel.h:59-86 | once a prefix of the regions has a header, the whole list has the same one |
| OfiChannels.PostedStream | include/rnetlib/ofi/ofi_channel.h:51-94 | header plus any prefix of the body is a prefix of the regions' bytes, all of them with the whole body |
| OfiChannels.GatherRecv | include/rnetlib/ofi/ofi_channel.h:106-133 | RecvV's scan gives the total, the header region and the split's body |
| OfiChannels.RmaPaired | include/rnetlib/ofi/ofi_channel.h:178-209 | local and remote iovecs pair up, each remote one at offset 0 and as long as its local one |
| OfiChannels.RmaLocalAddrs | include/rnetlib/ofi/ofi_channel.h:178-209 | the local iovecs describe exactly the regions' bytes |
| OfiChannels.GatherRma | include/rnetlib/ofi/ofi_channel.h:189-198 | WriteV's scan gives the iovecs of the non-empty regions and the total length |
| OfiChannels.OfiChannel.constructor | include/rnetlib/ofi/ofi_channel.h:16-21 | registers both contexts and the eager buffer, and posts the first eager receive |
| OfiChannels.OfiChannel.Close | include/rnetlib/ofi/ofi_channel.h:23-27 | deregisters both contexts |
| OfiChannels.OfiChannel.GetDesc | include/rnetlib/ofi/ofi_channel.h:29 | the descriptor the peer announced |
| OfiChannels.OfiChannel.RegisterMemoryRegion | include/rnetlib/ofi/ofi_channel.h:244-246 | the endpoint's registration |
| OfiChannels.OfiChannel.SendV | include/rnetlib/ofi/ofi_channel.h:51-94 | the result is the regions' total iff (there is no header, or the header poll counted exactly one completion) and no transmit request is outstanding at the end, else 0; the header request is accepted iff its post succeeded, and the poll's count is tied to the transmit queue; after a refused header poll nothing else is posted; otherwise every body iovec is posted or the last post was refused; what was accepted is a prefix of the regions' bytes, all of them when every post was. A refused post leaves nothing outstanding, so it does not by itself make the result 0 |
| OfiChannels.OfiChannel.SendHeader | include/rnetlib/ofi/ofi_channel.h:59-86 | the loop runs to the end iff there is no header or its poll counted exactly one completion, and then the total and iovecs are those of the split; without a header the endpoint is untouched, with one it was posted once (accepted iff that post succeeded) and the poll's count is tied to the transmit queue |
| OfiChannels.OfiChannel.ScanRegion | include/rnetlib/ofi/ofi_channel.h:59-86 | one step of the scan: the partition advances as ScanStep says, and the endpoint changes only when the region is the first non-empty one, which is sent as the header |
| OfiChannels.OfiChannel.SendFirst | include/rnetlib/ofi/ofi_channel.h:67-74 | the header is the first min(len, EAGER_THRESHOLD) bytes; it is accepted iff its post succeeded; the returned count is what the poll read for the transmit context |
| OfiChannels.OfiChannel.PostHeader | include/rnetlib/ofi/ofi_channel.h:70-71 | one tagged post, accepted iff its answer is a success, then a poll whose count is the context's earlier completions plus those on the transmit queue it read |
| OfiChannels.OfiChannel.PostBody | include/rnetlib/ofi/ofi_channel.h:88-93 | true iff no transmit request is outstanding after the poll; every iovec posted in slices, or the last post refused |
| OfiChannels.OfiChannel.RecvV | include/rnetlib/ofi/ofi_channel.h:96-150 | the result is the regions' total iff exactly one receive remains after polling all but one, else 0; the body is posted in slices (all of it, or the last post was refused), then the eager receive is refilled (accepted iff its post succeeded); memory changes only on success with a header, and then exactly the header bytes, which are the eager buffer's |
| OfiChannels.OfiChannel.DeliverHeader | include/rnetlib/ofi/ofi_channel.h:140-149 | recvdLen iff exactly one receive remains, else 0; only then is the header copied out of the eager buffer, and nothing else in memory changes |
| OfiChannels.OfiChannel.PostRecvBody | include/rnetlib/ofi/ofi_channel.h:135-138 | the body in slices (all of it, or the last post refused), then the eager refill, accepted iff its post succeeded |
| OfiChannels.OfiChannel.PollAllButOne | include/rnetlib/ofi/ofi_channel.h:140-141 | true iff exactly one receive remains; nothing is posted |
| OfiChannels.OfiChannel.Send | include/rnetlib/ofi/ofi_channel.h:33 | len iff (len is 0 or the header poll counted one completion) and nothing is outstanding, else 0; the header request is accepted iff its post succeeded; what was accepted is a prefix of the buffer's bytes, all of them when every post was |
| OfiChannels.OfiChannel.SendRegion | include/rnetlib/ofi/ofi_channel.h:37 | the same for one registered region |
| OfiChannels.OfiChannel.Recv | include/rnetlib/ofi/ofi_channel.h:35 | len iff exactly one receive remains, else 0; on success the first min(len, EAGER_THRESHOLD) bytes are the eager buffer's and the rest of memory is unchanged; the part past EAGER_THRESHOLD is posted in place, or its post was refused |
| OfiChannels.OfiChannel.RecvRegion | include/rnetlib/ofi/ofi_channel.h:39 | the same for one registered region |
| OfiChannels.OfiChannel.WriteV | include/rnetlib/ofi/ofi_channel.h:178-209 | the total iff no transmit request is outstanding after polling, else 0; the requests accepted carry a prefix of the paired local and remote iovecs, all of them (and so exactly the regions' bytes) unless the last post was refused |
| OfiChannels.OfiChannel.ReadV | include/rnetlib/ofi/ofi_channel.h:211-242 | the same with fi_readmsg |
| OfiChannels.OfiChannel.Write | include/rnetlib/ofi/ofi_channel.h:162-172 | len iff nothing is outstanding after polling, else 0; the buffer paired with the remote region is posted, or its post was refused |
| OfiChannels.OfiChannel.Read | include/rnetlib/ofi/ofi_channel.h:166-176 | the same into the buffer from the remote region |
| OfiChannels.OfiChannel.SynRemoteMemoryRegionV | include/rnetlib/ofi/ofi_channel.h:248-257 | the staged bytes are exactly the encoding of the regions' descriptors, and the rest of memory is unchanged; what is accepted is a prefix of them, all of them when every post was accepted and the header poll counted one completion |
| OfiChannels.OfiChannel.AckRemoteMemoryRegionV | include/rnetlib/ofi/ofi_channel.h:259-261 | the receive succeeds iff exactly one receive remains; then, for an eager-sized message, the descriptors are the decoding of the eager buffer's bytes |
| OfiChannels.SentStream | include/rnetlib/ofi/ofi_channel.h:59-94 | once the header was accepted, header plus the accepted body is a prefix of the regions' bytes, all of them with the whole body |
| OfiChannels.OneRegion | include/rnetlib/ofi/ofi_channel.h:162-176 | a one-region WriteV or ReadV gathers that region alone, if it is not empty |
| OfiChannels.OneEntry | include/rnetlib/ofi/ofi_channel.h:37-39 | a one-region split has a header iff the region is not empty, the first min(length, EAGER_THRESHOLD) bytes, and the rest as body |
| OfiChannels.IovOfAppend | include/rnetlib/ofi/ofi_channel.h:70-88 | the iovecs of two request lists joined are the two lists' iovecs joined |

## Left out

- Foreign calls are parameters of the model and are not modelled themselves: the kernel, ibverbs, rdma_cm and libfabric. Their answers are oracles indexed by call number.
- Busy-wait polling is modelled by outcome: each poll of a completion queue either succeeds or fails (verbs_channel.h:498, rdma_channel.h:328-330). Spinning on an empty queue is not modelled.
- OfiEndpoints.ReadCq: the completion queue's answers are a finite sequence, and reading stops at its end with fewer completions than asked for. The source spins on -FI_EAGAIN with no timeout (ofi_endpoint.h:335-352) and never returns short; a short count stands for a wait that does not end.
- OfiEndpoints.OfiEndpoint.PollCQ: the same; it can return fewer than `count` completions when the queue runs out.
- OfiEndpoints.OfiEndpoint.Post: when a post answers -FI_EAGAIN and progress is not automatic, the retry polls the completion queue (ofi_endpoint.h:46-47). The contexts and queues after such a retry are not stated; only the post's result, the posted log and the unchanged context keys are.
- RDMAChannel::PollCQ(channel, cq) (rdma_channel.h:288-323) is not modelled; nothing in the core calls it.
- In the RDMA channel only, the bytes a completed receive lands in its buffer come from an oracle (`landed`). The wire between two channels is not modelled, so delivery is proved as a lemma over that oracle. The verbs and OFI channels have no such oracle; see below.
- VerbsChannels.VerbsChannel.RecvEager: what the NIC writes into memory is not modelled for the verbs channel. The eager buffers are outside every frame, so a completed receive or RDMA READ is seen to leave them as they were, and the bytes copied out of them are their earlier contents, not the peer's.
- VerbsChannels.VerbsChannel.Recv: the same; on the large path the body received into user memory is not written either.
- VerbsChannels.VerbsChannel.RecvV: the same; the body received into the regions is not written.
- VerbsChannels.VerbsChannel.Read: the same; a large read leaves memory as it was, where the NIC writes it.
- VerbsChannels.VerbsChannel.ReadEager: the same; the bytes copied out are the send buffer's earlier contents.
- VerbsChannels.VerbsChannel.FetchEager: the same; the read is requested, but the send buffer is not written.
- VerbsChannels.VerbsChannel.ReadV: the same; the regions read into are not written.
- VerbsChannels.VerbsChannel.AckRemoteMemoryRegionV: the same; the descriptors are decoded from the eager buffer as it was.
- OfiChannels.OfiChannel.RecvV: the same for the OFI channel; the header is copied out of the eager buffer as it was, and the body is not written.
- OfiChannels.OfiChannel.DeliverHeader: the same.
- OfiChannels.OfiChannel.Recv: the same.
- OfiChannels.OfiChannel.RecvRegion: the same.
- OfiChannels.OfiChannel.Read: the same; the memory read into is not written.
- OfiChannels.OfiChannel.ReadV: the same.
- OfiChannels.OfiChannel.AckRemoteMemoryRegionV: the same; the descriptors are decoded from the eager buffer as it was.
- RdmaChannels.BaseBuffer.constructor: requires the registration to succeed, since the source dereferences its result without checking it.
- VerbsChannels.VerbsChannel.Send: requires the buffer's registration to succeed on the large path; the source uses the null region it would get otherwise.
- VerbsChannels.VerbsChannel.Recv: the same requirement on the large path.
- VerbsChannels.VerbsChannel.Write: the same requirement on the large path.
- VerbsChannels.VerbsChannel.Read: the same requirement on the large path.
- VerbsChannels.VerbsChannel.SynRemoteMemoryRegionV: the same requirement, through Send, when the descriptors exceed EAGER_THRESHOLD bytes.
- VerbsChannels.VerbsChannel.AckRemoteMemoryRegionV: the same requirement, through Recv.
- OfiChannels.OfiChannel.Send: requires the buffer's registration to succeed; the source dereferences the region it gets without checking it.
- OfiChannels.OfiChannel.Recv: the same requirement.
- OfiChannels.OfiChannel.Write: the same requirement.
- OfiChannels.OfiChannel.Read: the same requirement.
- OfiChannels.OfiChannel.SynRemoteMemoryRegionV: the same requirement, through Send.
- OfiChannels.OfiChannel.AckRemoteMemoryRegionV: the same requirement, through Recv.
- RdmaServers.RdmaServer.Establish: requires an accepting identifier; an ESTABLISHED event without a preceding connect request, which the source would hand over as a null channel, is excluded.
- VerbsServers.VerbsServer.Establish: requires a pending channel; an ESTABLISHED event without one, which the source would hand over as null, is excluded.
- Width casts other than the ones written out (Wrap32 for the verbs counters and ibv_sge lengths, Wrap64 for OFI wr counters, the 32-bit key of the RDMA record) are not modelled. Addresses and lengths are unbounded naturals.
- Both WaitAll loops take a fuel bound and return UNFINISHED (-1) when it runs out. A loop that never ends is not modelled.
- The internals of SocketCommon::Open (getaddrinfo, setsockopt, fcntl) are one oracle answer. SetNonBlocking is a flag.
- Callbacks are uninterpreted and are recorded as steps. Handlers do not re-enter the event loop.
- RdmaEventLoops.RdmaEventLoop.WaitAll: runs its rounds on a local copy of the handler list and writes it back once; aliasing between handlers and the loop is not modelled.
- VerbsServers.PeerDesc: private data is assumed to hold at least eight bytes, which the source reads unchecked.
- VerbsServer::GetRawAddr and GetListenPort are not modelled; they only format addresses.
- ISend, IRecv, ISendV and IRecvV of the verbs and OFI channels are not modelled. Both are stubs returning 0.
- OFIEndpoint's constructor and destructor: fabric, domain, address-vector and queue set-up are not modelled, nor are InsertAddr and RemoveAddr. Only the limits the channel uses are kept.
- The client and server files that do not belong to the core are not part of this model: rdma_client.h, verbs_client.h, socket_server.h, ofi_client.h, ofi_server.h, rnetlib.h and the examples.
- Setting a std::promise twice throws. The model excludes this by requiring an unset promise wherever the source sets one.
- VerbsChannels.VerbsChannel.Send: built on the corrected PostSend and PostRecv (the Findings rows for verbs_channel.h:397 and 454), so its result is len iff every post and poll succeeded. As written, a one-entry post whose capacity poll or ibv_post_send fails still returns 1, and the callers' `!= 1` tests (verbs_channel.h:67, 87, 139, 160, 206, 217, 253-256, 271-279, 304, 326) let it count as done: the eager Send then returns len with nothing sent, and the eager Recv returns len before anything has arrived. That outcome is shown only by PostSendAsWritten and PostRecvAsWritten.
- VerbsChannels.VerbsChannel.Recv: built on the corrected PostSend or PostRecv, as Send is; a rejected one-entry post does not count as done.
- VerbsChannels.VerbsChannel.RecvEager: built on the corrected PostSend or PostRecv, as Send is; a rejected one-entry post does not count as done.
- VerbsChannels.VerbsChannel.SendV: built on the corrected PostSend or PostRecv, as Send is; a rejected one-entry post does not count as done.
- VerbsChannels.VerbsChannel.SendHeader: built on the corrected PostSend or PostRecv, as Send is; a rejected one-entry post does not count as done.
- VerbsChannels.VerbsChannel.SendStep: built on the corrected PostSend or PostRecv, as Send is; a rejected one-entry post does not count as done.
- VerbsChannels.VerbsChannel.SendFirst: built on the corrected PostSend or PostRecv, as Send is; a rejected one-entry post does not count as done.
- VerbsChannels.VerbsChannel.PostHeader: built on the corrected PostSend or PostRecv, as Send is; a rejected one-entry post does not count as done.
- VerbsChannels.VerbsChannel.RecvV: built on the corrected PostSend or PostRecv, as Send is; a rejected one-entry post does not count as done.
- VerbsChannels.VerbsChannel.RecvBody: built on the corrected PostSend or PostRecv, as Send is; a rejected one-entry post does not count as done.
- VerbsChannels.VerbsChannel.PostRecvList: built on the corrected PostSend or PostRecv, as Send is; a rejected one-entry post does not count as done.
- VerbsChannels.VerbsChannel.Write: built on the corrected PostSend or PostRecv, as Send is; a rejected one-entry post does not count as done.
- VerbsChannels.VerbsChannel.WriteEager: built on the corrected PostSend or PostRecv, as Send is; a rejected one-entry post does not count as done.
- VerbsChannels.VerbsChannel.Read: built on the corrected PostSend or PostRecv, as Send is; a rejected one-entry post does not count as done.
- VerbsChannels.VerbsChannel.ReadEager: built on the corrected PostSend or PostRecv, as Send is; a rejected one-entry post does not count as done.
- VerbsChannels.VerbsChannel.FetchEager: built on the corrected PostSend or PostRecv, as Send is; a rejected one-entry post does not count as done.
- VerbsChannels.VerbsChannel.PostOne: built on the corrected PostSend or PostRecv, as Send is; a rejected one-entry post does not count as done.
- VerbsChannels.VerbsChannel.OneSidedV: built on the corrected PostSend or PostRecv, as Send is; a rejected one-entry post does not count as done.
- VerbsChannels.VerbsChannel.PostRegions: built on the corrected PostSend or PostRecv, as Send is; a rejected one-entry post does not count as done.
- VerbsChannels.VerbsChannel.PostNext: built on the corrected PostSend or PostRecv, as Send is; a rejected one-entry post does not count as done.
- VerbsChannels.VerbsChannel.PostRegion: built on the corrected PostSend or PostRecv, as Send is; a rejected one-entry post does not count as done.
- VerbsChannels.VerbsChannel.WriteV: built on the corrected PostSend or PostRecv, as Send is; a rejected one-entry post does not count as done.
- VerbsChannels.VerbsChannel.ReadV: built on the corrected PostSend or PostRecv, as Send is; a rejected one-entry post does not count as done.
- VerbsChannels.VerbsChannel.SynRemoteMemoryRegionV: built on the corrected PostSend or PostRecv, as Send is; a rejected one-entry post does not count as done.
- VerbsChannels.VerbsChannel.AckRemoteMemoryRegionV: built on the corrected PostSend or PostRecv, as Send is; a rejected one-entry post does not count as done.
- OfiChannels.OfiChannel.SendV: its body slices are posted by the corrected PostSendV, which gives each slice the descriptors from `desc + offset` (the Findings row for ofi_endpoint.h:130). As written, every slice after the first carries the first regions' descriptors, so the accepted stream it states is that of the corrected program.
- OfiChannels.OfiChannel.PostBody: the same as SendV.
- OfiChannels.OfiChannel.RecvV: its body slices are posted by the corrected PostRecvV, with `desc + offset` (the Findings row for ofi_endpoint.h:152); as written, every slice after the first carries the first regions' descriptors.
- OfiChannels.OfiChannel.PostRecvBody: the same as RecvV.
- OfiChannels.OfiChannel.WriteV: fi_writemsg's `msg.desc` is never assigned in the source (ofi_channel.h:200-204), though a descriptor vector is built (ofi_channel.h:195); the model records a null descriptor for it. What the fabric does with the uninitialised field is not modelled.
- OfiChannels.OfiChannel.ReadV: the same for fi_readmsg (ofi_channel.h:228, 233-237).
- OfiChannels.OfiChannel.Write: goes through WriteV, so its `msg.desc` is the same null descriptor.
- OfiChannels.OfiChannel.Read: goes through ReadV, the same.
- VerbsChannels.VerbsChannel.OneSidedV: when a post fails, the requests already posted for several regions are not described; only the stopping point and the byte count are stated.
- OfiChannels.OfiChannel.SendV: the transmit completion queue is shared by every channel of the endpoint, so which completion belongs to which request is not modelled; the header poll's count is stated from the queue's answers, not from the header request itself.

## Findings

| source | as written | input that shows it | evidently intended | confidence | as-written member | corrected member |
|---|---|---|---|---|---|---|
| include/rnetlib/ofi/ofi_endpoint.h:130 | each fi_sendv slice passes `iov + offset` with `desc`, the descriptor array from its start | iov = [Sge(0,1,7), Sge(8,1,9)] with max_msg_iov = 1: the second post sends bytes at 8 under descriptor 7 | `desc + offset`, as PostWrite does at line 172 | not executed | OfiEndpoints.SliceAsWrittenWrongDescriptor | OfiEndpoints.OfiEndpoint.PostSendV |
| include/rnetlib/ofi/ofi_endpoint.h:152 | each fi_recvv slice passes `iov + offset` with `desc`, the descriptor array from its start | the same two-region vector received with max_msg_iov = 1 | `desc + offset` | not executed | OfiEndpoints.SliceAsWrittenExact | OfiEndpoints.OfiEndpoint.PostRecvV |
| include/rnetlib/verbs/verbs_channel.h:397 | PostSend adds the request's entries to `offset` before the capacity poll and ibv_post_send, and a failure of either breaks out and returns that offset | a one-entry list within max_msg_sz whose ibv_post_send is rejected: PostSend returns 1, so the eager Send goes on to PollSendCQ(0) and returns len though nothing was sent | count the entries only once the request is posted, so that the return value is the whole list iff every post and poll succeeded | not executed | VerbsChannels.VerbsChannel.PostSendAsWritten | VerbsChannels.VerbsChannel.PostSend |
| include/rnetlib/verbs/verbs_channel.h:454 | PostRecv adds the request's entries to `offset` before the capacity poll and ibv_post_recv, and a failure of either returns that offset | the eager receive refill (one entry of EAGER_THRESHOLD bytes) whose ibv_post_recv is rejected: PostRecv returns 1, num_recv_wr_ stays 1, Recv polls 0 completions and returns len with the eager buffer copied out before the message has arrived | as for PostSend | not executed | VerbsChannels.VerbsChannel.PostRecvAsWritten | VerbsChannels.VerbsChannel.PostRecv |
