# lwip-wasm socket adapter, modelled in Dafny

lwip-wasm runs the lwIP TCP/IP stack inside WebAssembly and wraps it in a
JavaScript socket API. The engine (lwIP plus thin C bindings) and the
JavaScript adapter exchange every payload through one fixed 32768-byte
*shared transfer buffer*. The adapter refers to engine control blocks
(pcbs) by integer handles and keeps a handle-to-socket map per protocol,
so that engine callbacks reach the right socket object. Sockets are event
emitters.

This project models the core of that bridge:

- **Shared buffer** (`src/binding_base.c`; module `BindingBase`). The static
  region and its recorded length form a class over an `array<bv8>`:
  `lw_buffer_ptr`, `set_length`/`get_length`, `lw_buffer_make_pbuf` (the
  allocation outcomes are parameters) and `lw_buffer_load_pbuf`. The copy
  loop of `load_pbuf` is proved against the concatenation of the segment
  payloads.
- **Ethernet output queue** (`src/binding_ethernet.c`; module
  `BindingEthernet`). The 256-slot `output_queue` is an `array<Pbuf?>` with
  its count. `netif_output` enqueues. `lw_ethernet_recv` dequeues by shifting
  in place, copies into the shared buffer and releases the reference.
- **Buffer marshalling and addresses** (`src/post.js`; modules `Transfer` and
  `Ip4`). `buffer_set`/`buffer_get` are modelled over the shared buffer;
  `resolve_ip4`/`ip4_ntoa` over strings and 32-bit vectors, with both
  round-trips proved.
- **Event emitter** (`src/event_emitter.js`; module `Events`). Each event
  type's listener `Set` is a duplicate-free sequence in insertion order.
  Listeners are identifiers; which of them throw is an input.
- **TCP write protocol** (`src/post.js`; module `WriteFlow`). The pure
  specification of one iteration of `write`, given as chunk records:
  `WriteLoop`, with its properties. Across all iterations, the bytes the
  engine accepted are exactly `data[0..offset)`, in order, as long as the
  caller's array is not changed between iterations.
- **Sockets** (`src/post.js`; modules `TcpAdapter` and `UdpAdapter`).
  Registries are classes holding a `map<Handle, Socket>`; sockets are
  classes with a mutable handle.

The engine is not modelled. Its answers (new handles, status codes, the
send-buffer space per round, the result of each `lw_tcp_write`) are
parameters. Every engine call a method issues is returned as a `seq<Call>`
(module `Engine`), so contracts can state which calls were made, in which
order, and when none was made. Handle 0 stands for both the engine's NULL
and JavaScript's `null` in `_tcp`/`_udp`; the constructors never register
0. lwIP status codes are the values from lwIP's `err.h`: `ERR_OK` 0,
`ERR_MEM` -1, `ERR_BUF` -2, `ERR_WOULDBLOCK` -7, `ERR_ABRT` -13,
`ERR_CLSD` -15. The TCP event numbers 1..5 follow `src/binding_tcp.c:8-12`.

Two behaviours of the code are worth stating outright:

- `write` does not reject an oversized payload. It sends it in
  iterations of at most 8192 bytes each, so every chunk is at most 8192
  bytes too (`src/post.js:281-290`); `WriteFlow.Chunk` applies the same
  bounds. Only `buffer_set`, and therefore UDP `send`, rejects
  payloads over 32768 bytes.
- The UDP socket methods do not check the handle before calling the
  engine. After `close()`, its `send`, `bind`, `connect` and `disconnect`
  still call the engine, with the null handle (`src/post.js:174-193`;
  `UdpAdapter.BindAfterClose`).

## Model

| member | source | states |
|---|---|---|
| BindingBase.SharedBuffer.constructor | src/binding_base.c:7-8 | The region is a fresh array of 32768 bytes and the recorded length starts at 0. |
| BindingBase.SharedBuffer.Ptr | src/binding_base.c:10 | Always returns the same region, of capacity 32768. |
| BindingBase.SharedBuffer.SetLength | src/binding_base.c:12 | After setting `n`, the recorded length is `n`. |
| BindingBase.SharedBuffer.GetLength | src/binding_base.c:14 | Returns the recorded length, which stays within 0..32768. |
| BindingBase.SharedBuffer.MakePbuf | src/binding_base.c:16-30 | A pbuf comes back exactly when the length is positive and both allocation and copy succeed; it is NULL whenever the length is ≤ 0; a returned pbuf is fresh, holds one reference, and its payload is the buffer's `length` bytes. |
| BindingBase.SharedBuffer.LoadPbuf | src/binding_base.c:32-45 | Returns ERR_OK or ERR_BUF. It returns ERR_OK exactly when the chain's total length fits in 32768, and then the contents are the segment payloads concatenated in chain order (an empty chain gives length 0). On ERR_BUF the length is unchanged. In every case, nothing past the segments that fit is written, and the bytes after them are kept. |
| BindingBase.CopyChain | src/binding_base.c:33-42 | The copy loop: it reports "fits" exactly when the chain fits; on success it copies the full total; otherwise it copies only the longest prefix of whole segments that fits, stopping before the first segment that would overflow. |
| BindingBase.FittingSegmentsBound | src/binding_base.c:35-38 | The segments copied before the overflow check fires fit in the room, and the next segment would not. |
| BindingBase.FittingSegmentsAt | src/binding_base.c:35-38 | The first segment whose end passes the capacity is exactly where the copy stops. |
| BindingBase.FittingSegmentsAll | src/binding_base.c:35-43 | Every segment is copied if and only if the chain's total length fits. |
| BindingBase.FlattenAppend | src/binding_base.c:39-41 | Copying two chains one after the other gives the concatenation of their bytes. |
| BindingBase.MemCopy | src/binding_base.c:39 | `memcpy` writes exactly `src` at the offset and leaves the bytes before and after untouched. |
| BindingEthernet.OutputQueue.constructor | src/binding_ethernet.c:18-20 | The queue starts empty, with 256 fresh slots. |
| BindingEthernet.OutputQueue.NetifOutput | src/binding_ethernet.c:25-34 | Below 256 entries: appends the packet at the back, takes one reference and returns ERR_OK. On a full queue: returns ERR_BUF and changes neither slots, count nor reference count. The count stays within 0..256. |
| BindingEthernet.OutputQueue.ShiftOut | src/binding_ethernet.c:77-81 | Returns slot 0. The queue afterwards is the old queue without its first element, the rest shifted left in their original order. |
| BindingEthernet.OutputQueue.EthernetRecv | src/binding_ethernet.c:68-94 | On an empty queue, returns ERR_WOULDBLOCK and changes neither queue nor buffer. Otherwise the head is removed FIFO and gives up one reference. If it fits, its payload becomes the buffer contents and ERR_OK is returned. If it is larger than 32768, ERR_BUF is returned and the buffer is untouched. |
| Transfer.BufferSet | src/post.js:32-42 | Throws "buffer must be Uint8Array" for any other value, and the capacity error for more than 32768 bytes; a throw leaves the length and every byte untouched. Otherwise the contents become exactly the given bytes and the bytes after them are kept. |
| Transfer.BufferGet | src/post.js:23-27 | Returns a copy of exactly the `length` bytes at the start of the region. |
| Transfer.SetThenGet | src/post.js:23-42 | A `buffer_get` right after `buffer_set(v)` returns `v`'s bytes exactly when the set succeeded; after a throw it returns the previous contents. |
| Events.Without | src/event_emitter.js:17 | `Set.delete`: the listener is gone, every other listener stays, no duplicate appears, and deleting an absent listener changes nothing. |
| Events.WithoutKeepsOrder | src/event_emitter.js:17 | Deleting the listener at position `k` of a duplicate-free set leaves exactly the listeners before it followed by those after it, in their order. |
| Events.CallTrace | src/event_emitter.js:24-26 | An emit calls at most as many listeners as are registered, and when it stops short of the end, the last one called is one that threw. |
| Events.CallTracePrefix | src/event_emitter.js:21-28 | An emit calls a prefix of the registered listeners, in insertion order. |
| Events.CallTraceOnce | src/event_emitter.js:24-26 | With no duplicates registered, an emit calls each listener at most once. |
| Events.CallTraceStopsAtThrow | src/event_emitter.js:24-26 | Every listener called before the last one returned normally: a throw ends the loop. |
| Events.CallTraceComplete | src/event_emitter.js:21-28 | When no registered listener throws, every one is called, in order. |
| Events.CallTraceEndsInThrow | src/event_emitter.js:24-26 | When some registered listener throws, the last listener called is one that threw. |
| Events.EventEmitter.constructor | src/event_emitter.js:2-4 | A new emitter has no listener sets. |
| Events.EventEmitter.On | src/event_emitter.js:6-13 | Afterwards the listener is in the type's set. A listener already there keeps its single place. A new one goes at the end. Every other type's set is unchanged. |
| Events.EventEmitter.Off | src/event_emitter.js:15-19 | Afterwards the listener is not in the type's set, which is the old set with `Set.delete` applied, and other types are unchanged. An unknown type or an absent listener leaves everything as it was. |
| Events.EventEmitter.Emit | src/event_emitter.js:21-28 | Calls the registered listeners in order up to and including the first one that throws. The exception escapes exactly when such a listener exists, and it is the last one called. No registered set means no call. |
| Events.EventEmitter.EmitNoExc | src/event_emitter.js:30-36 | Makes the same calls as `_emit`, and never lets an exception out. |
| Ip4.Decimal | src/post.js:64 | Printing a number gives a non-empty run of digits, one digit long exactly for numbers below 10. |
| Ip4.ParseDecimal | src/post.js:52 | Unary `+` on a run of `k` digits gives a number below 10^k. |
| Ip4.ParseDecimalOfDecimal | src/post.js:52 | Unary `+` on a printed number gives the number back. |
| Ip4.Split | src/post.js:52 | `split(".")` yields at least one part, no part contains a dot, and joining the parts with dots gives the input back. |
| Ip4.SplitDottedQuad | src/post.js:64 | A printed address splits into its four decimal parts and is a well-formed dotted quad. |
| Ip4.Pack | src/post.js:53 | Packing puts the first octet in the low byte of the result. |
| Ip4.Ip4Ntoa | src/post.js:59-65 | Prints a well-formed dotted quad whose four parts are the decimal forms of the value's bytes, low byte first. |
| Ip4.ResolveIp4 | src/post.js:50-54 | The low byte of the packed value is the first part of the address, taken modulo 256. |
| Ip4.ResolveDottedQuad | src/post.js:50-54 | Resolving "a.b.c.d" packs `a | b<<8 | c<<16 | d<<24`, so its low byte is `a`. |
| Ip4.UnpackPack | src/post.js:53-63 | Unpacking a packed value gives the four octets back. |
| Ip4.PackUnpack | src/post.js:53-63 | Packing the four unpacked octets of any 32-bit value gives the value back. |
| Ip4.NtoaResolve | src/post.js:50-65 | For octets a,b,c,d, `ip4_ntoa(resolve_ip4("a.b.c.d")) == "a.b.c.d"`. |
| Ip4.ResolveNtoa | src/post.js:50-65 | For every 32-bit address, `ip4_ntoa` prints a well-formed dotted quad, and resolving it gives the address back. |
| WriteFlow.Chunk | src/post.js:284-290 | The chunk is bounded by the remaining bytes, the send-buffer space, the buffer capacity and the rest of the 8192-byte quota. |
| WriteFlow.ChunkIsLeast | src/post.js:284-291 | The chunk equals one of the four bounds, so it is their minimum. It is 0 exactly when nothing remains, the send buffer is full or the quota is used up. |
| WriteFlow.WriteLoop | src/post.js:283-301 | An iteration's inner loop ends with `offset` ≤ end ≤ `data.length` and `n_written` ≤ 8192, and `n_written` grows by exactly as much as `offset`. |
| WriteFlow.ResumeIsWriteLoop | src/post.js:283-301 | The loop, resumed after any number of rounds, records the rounds so far followed by the rounds `WriteLoop` records from there. |
| WriteFlow.ResumeFromStart | src/post.js:281-301 | Run from the iteration's start, the loop makes exactly the rounds `WriteLoop` specifies. |
| WriteFlow.WriteLoopContiguous | src/post.js:283-301 | The chunks handed to `lw_tcp_write` start at the iteration's offset and follow each other without gap or overlap. Each is non-empty and at most 32768 bytes. `more` is 1 exactly when bytes remain after the chunk. Every chunk is accepted except possibly a last, refused one, which does not advance the offset. |
| WriteFlow.WriteLoopWithinSndbuf | src/post.js:285-290 | Each chunk fits in the send-buffer space the engine reported in its round. |
| WriteFlow.WriteLoopStops | src/post.js:291-298 | The loop ends only at one of its stops: all data written, no send-buffer space, the quota used up, or a write the engine refused. |
| WriteFlow.ContiguousAccepted | src/post.js:294-300 | Contiguous chunks render as `lw_tcp_write` calls whose accepted bytes are exactly the data between the start and end offsets. |
| WriteFlow.WriteLoopAccepted | src/post.js:283-301 | The bytes the engine accepted in an iteration's loop are exactly `data[offset..end)`, in order. |
| WriteFlow.IterationAccepted | src/post.js:281-302 | The same holds with the closing `lw_tcp_output` call included. |
| WriteFlow.AcceptedAcrossIterations | src/post.js:273-311 | The induction step over iterations: bytes accepted up to one offset followed by one iteration's accepted bytes are the data between the first and last offsets. By induction from offset 0, over a whole `write` they are exactly `data[0..offset)`. |
| TcpAdapter.TcpRegistry.constructor | src/post.js:205 | The map starts empty. |
| TcpAdapter.TcpSocket.Create | src/post.js:217-226 | Uses the existing handle if given, else calls `lw_tcp_new`. A 0 handle throws "unable to create tcp" and registers nothing. Otherwise the socket is fresh, holds the handle and has no listeners, and the registry maps the handle to it. |
| TcpAdapter.TcpSocket.Bind | src/post.js:234-237 | A closed socket throws "socket is already closed" without calling the engine. Otherwise it makes exactly one `lw_tcp_bind` call with the packed address, and throws that call's status exactly when it is not ERR_OK. |
| TcpAdapter.TcpSocket.Listen | src/post.js:239-252 | A closed socket throws without calling the engine. A 0 answer throws "unable to listen" and leaves handle and registry unchanged. Otherwise the old handle leaves the registry, the new one maps to this socket, and the socket holds the new handle. |
| TcpAdapter.TcpSocket.Connect | src/post.js:254-271 | A closed socket throws without calling the engine. Otherwise it calls `lw_tcp_connect` once; the promise is rejected with its status when the status is not ERR_OK, and pending otherwise. |
| TcpAdapter.TcpSocket.WriteIteration | src/post.js:276-309 | On a closed socket: rejects with ERR_CLSD, makes no engine call and leaves the buffer unchanged. Otherwise: the `lw_tcp_write` calls of `WriteLoop`, then one `lw_tcp_output`. It resolves exactly when the offset reaches `data.length`, and otherwise retries after 20 ms if nothing was written, else after 1 ms. The accepted bytes are `data[offset..new offset)`. |
| TcpAdapter.TcpSocket.Close | src/post.js:314-325 | A closed socket is left alone, with no call. Otherwise it makes one `lw_tcp_close` call, and an `lw_tcp_abort` plus `_did_abort` only when the close failed. The registry entry goes and the handle becomes null. |
| TcpAdapter.TcpSocket.RemoteIP | src/post.js:327-331 | A closed socket throws. Otherwise it returns exactly the string `ip4_ntoa` prints for the engine's remote address (decimal octets without leading zeros, low byte first), a dotted quad that resolves back to that address. |
| TcpAdapter.TcpSocket.RemotePort | src/post.js:333-336 | A closed socket throws. Otherwise it returns the engine's remote port. |
| TcpAdapter.TcpSocket.OnEvent | src/post.js:338-387 | `_did_abort` is reset first, and the answer is ERR_ABRT exactly when a close during this dispatch fell back to `lw_tcp_abort`, else ERR_OK. ERR and ACCEPT-with-error emit "error"; CONNECTED emits "_connected". RECV with ERR_CLSD closes and then emits "closed", so a listener's `close()` does nothing. RECV with ERR_OK emits the buffer contents and acknowledges their length only on a live handle. SENT and unknown types emit nothing. ACCEPT with ERR_OK registers a fresh socket around the new handle and emits it, or lets "unable to create tcp" escape for a 0 handle. When an emission reaches a listener that closes the socket, the close's calls follow the dispatch's own, the handle becomes null and its registry entry goes; otherwise handle and registry are as the event itself leaves them. |
| TcpAdapter.TcpSocket.DispatchClosed | src/post.js:352-355 | RECV with ERR_CLSD: the socket's own close comes first, so the handle is null and its entry gone before "closed" is emitted, and the answer is ERR_ABRT exactly when that close failed. |
| TcpAdapter.TcpSocket.DispatchOther | src/post.js:340-382 | Every other event: the emission the event type calls for, then a listener's close when the emission reached one, with the registry, calls and answer `Dispatched` gives. |
| TcpAdapter.TcpSocket.Announce | src/post.js:341-371 | For an event that neither closes nor accepts, emits exactly what the event type calls for, and its only engine call is the `lw_tcp_recved` acknowledging received data on a live handle. |
| TcpAdapter.WriteChunk | src/post.js:294 | After staging a chunk, the buffer holds exactly that slice of the data. |
| TcpAdapter.WriteChunks | src/post.js:281-301 | The imperative inner loop ends exactly where `WriteLoop` ends, with the same chunks, and the buffer stays valid. |
| TcpAdapter.TcpEventCallback | src/post.js:207-214 | An unregistered handle gets ERR_OK with no call, emission or registry change. A registered one is dispatched by the socket the registry held for it, with the calls, emission, registry change and answer `_on_event` gives, and the answer is ERR_ABRT exactly when the dispatch aborted that handle. |
| TcpAdapter.CloseTwice | src/post.js:228-232 | A second `close()` calls nothing and changes nothing: the registry and `_did_abort` stay as the first close left them (`_did_abort` set exactly when it was already set or that close failed). `listen` then throws "socket is already closed". |
| UdpAdapter.UdpRegistry.constructor | src/post.js:140 | The map starts empty. |
| UdpAdapter.UdpSocket.Create | src/post.js:154-163 | Calls `lw_udp_new`. A 0 handle throws "unable to create udp" and registers nothing. Otherwise the socket is fresh, holds the handle and has no listeners, and the registry maps the handle to it. |
| UdpAdapter.UdpSocket.Close | src/post.js:165-172 | A closed socket is left alone, with no call. Otherwise it makes one `lw_udp_remove` call, the registry entry goes, and the handle becomes null. |
| UdpAdapter.UdpSocket.Send | src/post.js:174-181 | A `buffer_set` throw (not a Uint8Array, or over 32768 bytes) escapes before any engine call and leaves the buffer unchanged. Otherwise the buffer holds the message, and the call is `lw_udp_sendto` with the packed address when both address and port are given, or `lw_udp_send` when either is missing. |
| UdpAdapter.UdpSocket.Bind | src/post.js:183-185 | One `lw_udp_bind` with the socket's current handle and the packed address. |
| UdpAdapter.UdpSocket.Connect | src/post.js:187-189 | One `lw_udp_connect` with the socket's current handle and the packed address. |
| UdpAdapter.UdpSocket.Disconnect | src/post.js:191-193 | One `lw_udp_disconnect` with the socket's current handle. |
| UdpAdapter.UdpSocket.OnRecv | src/post.js:195-197 | Emits "message" carrying `{data, address, port}` to the registered listeners up to the first that throws, and nothing escapes. |
| UdpAdapter.UdpRecvCallback | src/post.js:142-151 | An unregistered handle gets ERR_OK and emits nothing. Otherwise the "message" event carries the buffer contents, the port, and the sender address exactly as `ip4_ntoa` prints the engine's address, a dotted quad that resolves back to it. |
| UdpAdapter.CloseTwice | src/post.js:165-172 | A second `close()` calls nothing and leaves the registry as the first left it. |
| UdpAdapter.BindAfterClose | src/post.js:183-185 | After `close()`, `bind` still calls the engine, with the null handle. |

## Left out

- Garbage-collection reclamation (`FinalizationRegistry`, `WeakRef.deref`, `src/post.js:117-135`) is not modelled, because finalizer timing is nondeterministic. Registries are plain maps whose entries are live sockets.
- The tick driver, `start`/`stop`, `setInterval` and the `setTimeout` rescheduling of `write` (`src/post.js:82-113` and `src/post.js:307`) are not modelled. One `write` iteration returns its retry delay, and `WriteFlow.AcceptedAcrossIterations` chains iterations.
- `TcpAdapter.TcpSocket.Connect` does not model the `_connected`/`error` listener wiring that settles the promise later (`src/post.js:257-268`). On success the promise is left `Pending`.
- `Module.ethernet.send` and `lw_ethernet_send`, `lw_init`, `lw_loop` and `port_netif_init` are not modelled. They hand packets to lwIP's `netif.input` and configure lwIP, whose internals are not part of this model.
- lwIP itself (`tcp_*`, `udp_*`, `pbuf_*`) is not modelled. The thin bindings `src/binding_tcp.c` and `src/binding_udp.c` are not part of this model beyond the TCP event numbering. The UDP receive path in C (`lw_udp_recv_fn`) is taken as having loaded the datagram into the shared buffer before `udp_recv_callback` runs.
- The text of thrown errors (`lw_jserror`, `lw_strerror`) is not modelled; an engine failure is `Engine(code)`. Likewise `console.error` in `_emitNoExc` and for a RECV with an unknown status.
- A `Pbuf` carries one payload; `next` chains are sequences of pbufs. `lw_ethernet_recv` copies `p->len`, the payload of the packet's first segment.
- Listener functions, and the event objects handed to them, are not modelled. Listeners are identifiers and the set that throws is an input. A listener that calls `on`/`off` on the emitting set during an emit is not modelled.
- TcpAdapter.TcpSocket.OnEvent: of what listeners do, only throwing and closing the dispatching socket are modelled (the set of listeners that close it is an input). Listeners that write to it, call `listen`/`bind`/`connect`, or act on another socket are not modelled. A close by a listener is taken to happen once, at the end of the emission.
- TcpAdapter.TcpSocket.OnEvent: does not state which listeners the accepted socket has after an ACCEPT, because "accept" listeners may register some on it.
- TcpAdapter.TcpEventCallback: inherits both limits above from `TcpAdapter.TcpSocket.OnEvent`.
- WriteFlow.AcceptedAcrossIterations: treats `data` as a value that stays the same across iterations. The source keeps a reference to the caller's `Uint8Array` and takes `subarray` views of it on each iteration (`src/post.js:273-310`), so a caller that changes the array between iterations changes what later iterations send; that aliasing is not modelled.
- TcpAdapter.TcpSocket.Bind, TcpAdapter.TcpSocket.Connect, UdpAdapter.UdpSocket.Bind and UdpAdapter.UdpSocket.Connect: require a dotted quad of four digit runs. `resolve_ip4` on any other string packs `NaN`/`undefined` parts as 0, and that is not modelled.
- UdpAdapter.UdpSocket.Send: requires a dotted quad when both address and port are given, for the same reason. JavaScript's `undefined` and `null` are both `None`.
- Ip4.ResolveIp4: reads each part as a run of decimal digits and takes it modulo 2^32 exactly. JavaScript's `+x` also accepts surrounding whitespace, hexadecimal (`0x…`), exponent and fractional forms, and the empty string (as 0). It rounds values of 2^53 and more before `ToInt32`. Parts after the fourth are ignored. None of that is modelled.
- BindingBase.SharedBuffer.SetLength: requires 0 ≤ n ≤ 32768 where the C function accepts any `int`. Every caller in the core passes such a length.
- TcpAdapter.WriteChunks: does not state which chunk the shared buffer holds when the loop ends. The `lw_tcp_write` calls are rendered from its chunk records by `WriteFlow.Writes`, not recorded inside the loop.
- Engine statuses that the adapter ignores are not recorded: `lw_udp_sendto`, `lw_udp_send`, `lw_udp_bind`, `lw_udp_connect`, `lw_tcp_output` and `lw_tcp_recved`.
