/**
 * The TCP half of the socket adapter: `tcp_socket_map`, the
 * `tcp_event_callback` dispatcher, and the `TCPSocket` class. A socket
 * holds its pcb handle in `tcp` (0 once closed) and reaches the shared
 * transfer buffer through its registry; its listeners live in its own
 * event emitter.
 */
module TcpAdapter {
  import opened Lwip
  import opened BindingBase
  import opened Engine
  import opened Ip4
  import opened Events
  import opened Transfer
  import opened WriteFlow

  /** `tcp_socket_map`: which socket an engine callback on a handle goes to. */
  class TcpRegistry {
    const buffer: SharedBuffer
    var sockets: map<Handle, TcpSocket>

    /** Every entry is keyed by its socket's current, non-null handle. */
    ghost predicate Valid()
      reads this, sockets.Values
    {
      forall h | h in sockets :: h != 0 && sockets[h].tcp == h && sockets[h].registry == this
    }

    constructor (buffer: SharedBuffer)
      ensures Valid() && this.buffer == buffer && sockets == map[]
    {
      this.buffer := buffer;
      sockets := map[];
    }
  }

  /** What a dispatch hands to listeners. */
  datatype TcpEvent =
    | ErrorEvent(error: Error)
    | ConnectedEvent
    | ClosedEvent
    | DataEvent(data: seq<Byte>)
    | AcceptEvent(socket: TcpSocket)

  /** The event type string each event is emitted under. */
  function EventName(e: TcpEvent): string {
    match e
    case ErrorEvent(_) => "error"
    case ConnectedEvent => "_connected"
    case ClosedEvent => "closed"
    case DataEvent(_) => "data"
    case AcceptEvent(_) => "accept"
  }

  /** One `_emitNoExc`: the event and the listeners it reached, in order. */
  datatype Emission = Emission(event: TcpEvent, called: seq<ListenerId>)

  /** The engine calls of `close()` on an open handle whose `lw_tcp_close` answers `result`. */
  function CloseCalls(h: Handle, result: int): (calls: seq<Call>)
    ensures 0 < |calls| && calls[0] == TcpClose(h, result)
    ensures TcpAbort(h) in calls <==> result != ERR_OK
  {
    [TcpClose(h, result)] + if result != ERR_OK then [TcpAbort(h)] else []
  }

  /** Whether an emission that called `called`, in order, reached one of `ls`. */
  predicate Reaches(called: seq<ListenerId>, ls: set<ListenerId>) {
    exists i | 0 <= i < |called| :: called[i] in ls
  }

  /** How one iteration of `write` leaves the promise: settled, or rescheduled after `delay` ms at `offset`. */
  datatype WriteStep = Settled(promise: Promise) | Retry(offset: nat, delay: nat)

  class TcpSocket {
    const registry: TcpRegistry
    const events: EventEmitter
    var tcp: Handle
    var didAbort: bool

    ghost predicate Valid()
      reads this, registry, registry.sockets.Values, registry.buffer, events
    {
      registry.Valid() && registry.buffer.Valid() && events.Valid()
    }

    /** The object before registration: a new emitter and the handle. */
    constructor Wrap(registry: TcpRegistry, tcp: Handle)
      ensures this.registry == registry && this.tcp == tcp && !didAbort
      ensures fresh(events) && events.Valid() && events.listeners == map[]
    {
      this.registry := registry;
      this.tcp := tcp;
      didAbort := false;
      events := new EventEmitter();
    }

    /** The listeners an emission of `name` reaches when the listeners in `throws` throw. */
    function Trace(name: string, throws: set<ListenerId>): seq<ListenerId>
      reads events
    {
      CallTrace(events.Registered(name), throws)
    }

    /**
     * `new TCPSocket(existing)`: takes `existing` when given, otherwise asks
     * the engine for a new pcb (`lw_tcp_new`, answering `newHandle`). A 0
     * handle throws "unable to create tcp" and registers nothing; otherwise
     * the registry maps the handle to the new socket.
     */
    static method Create(registry: TcpRegistry, existing: Option<Handle>, newHandle: Handle)
      returns (r: Result<TcpSocket>, calls: seq<Call>)
      requires registry.Valid()
      modifies registry`sockets
      ensures registry.Valid()
      ensures calls == if existing.None? then [TcpNew] else []
      ensures var h := if existing.Some? then existing.value else newHandle;
        && (h == 0 ==> r == Err(CreateFailed) && registry.sockets == old(registry.sockets))
        && (h != 0 ==>
              && r.Ok? && fresh(r.value) && fresh(r.value.events)
              && r.value.registry == registry && r.value.tcp == h && !r.value.didAbort
              && r.value.events.Valid() && r.value.events.listeners == map[]
              && registry.sockets == old(registry.sockets)[h := r.value])
    {
      var h := newHandle;
      calls := [];
      if existing.Some? {
        h := existing.value;
      } else {
        calls := [TcpNew];
      }
      if h == 0 {
        return Err(CreateFailed), calls;
      }
      var s := new TcpSocket.Wrap(registry, h);
      registry.sockets := registry.sockets[h := s];
      r := Ok(s);
    }

    /** `bind(address, port)`: checks the socket is open, then binds; a non-OK status throws. */
    method Bind(address: string, port: int, result: int) returns (r: Outcome, calls: seq<Call>)
      requires Valid() && IsDottedQuad(address)
      ensures tcp == 0 ==> r == Throw(AlreadyClosed) && calls == []
      ensures tcp != 0 ==>
        && calls == [TcpBind(tcp, ResolveIp4(address), port, result)]
        && (r == Done <==> result == ERR_OK)
        && (result != ERR_OK ==> r == Throw(Engine(result)))
    {
      if tcp == 0 {
        return Throw(AlreadyClosed), [];
      }
      calls := [TcpBind(tcp, ResolveIp4(address), port, result)];
      r := if result == ERR_OK then Done else Throw(Engine(result));
    }

    /**
     * `listen()`: the engine replaces the pcb by a listening one
     * (`newTcp`). A 0 answer throws "unable to listen" and changes nothing;
     * otherwise the old handle leaves the registry, the new one maps to
     * this socket, and the socket holds the new handle.
     */
    method Listen(newTcp: Handle) returns (r: Outcome, calls: seq<Call>)
      requires Valid()
      modifies this`tcp, registry`sockets
      ensures Valid()
      ensures old(tcp) == 0 ==>
        r == Throw(AlreadyClosed) && calls == [] && tcp == 0 && registry.sockets == old(registry.sockets)
      ensures old(tcp) != 0 ==> calls == [TcpListen(old(tcp))]
      ensures old(tcp) != 0 && newTcp == 0 ==>
        r == Throw(ListenFailed) && tcp == old(tcp) && registry.sockets == old(registry.sockets)
      ensures old(tcp) != 0 && newTcp != 0 ==>
        && r == Done && tcp == newTcp
        && registry.sockets == (old(registry.sockets) - {old(tcp)})[newTcp := this]
    {
      if tcp == 0 {
        return Throw(AlreadyClosed), [];
      }
      calls := [TcpListen(tcp)];
      if newTcp == 0 {
        return Throw(ListenFailed), calls;
      }
      registry.sockets := (registry.sockets - {tcp})[newTcp := this];
      tcp := newTcp;
      r := Done;
    }

    /**
     * `connect(address, port)`: throws at once on a closed socket; otherwise
     * returns a promise, rejected when the engine refuses the connection
     * attempt and left pending (for the "_connected" or "error" event) when
     * it accepts it.
     */
    method Connect(address: string, port: int, result: int) returns (r: Result<Promise>, calls: seq<Call>)
      requires Valid() && IsDottedQuad(address)
      ensures tcp == 0 ==> r == Err(AlreadyClosed) && calls == []
      ensures tcp != 0 ==>
        && calls == [TcpConnect(tcp, ResolveIp4(address), port, result)]
        && (result == ERR_OK ==> r == Ok(Pending))
        && (result != ERR_OK ==> r == Ok(Rejected(Engine(result))))
    {
      if tcp == 0 {
        return Err(AlreadyClosed), [];
      }
      calls := [TcpConnect(tcp, ResolveIp4(address), port, result)];
      r := if result == ERR_OK then Ok(Pending) else Ok(Rejected(Engine(result)));
    }

    /**
     * One iteration of `write(data)` from `offset`. On a closed socket the
     * promise is rejected with ERR_CLSD and the engine is not called.
     * Otherwise the inner loop runs (its chunks pass through the shared
     * buffer), `lw_tcp_output` is called once, and the promise resolves
     * when the whole payload is written, else the iteration is rescheduled
     * after 20 ms when nothing was written and 1 ms otherwise.
     */
    method WriteIteration(data: seq<Byte>, offset: nat, sndbuf: nat -> nat, writeResult: nat -> int)
      returns (step: WriteStep, calls: seq<Call>)
      requires Valid() && offset <= |data|
      modifies registry.buffer`length, registry.buffer.data
      ensures Valid()
      ensures tcp == 0 ==>
        && step == Settled(Rejected(Engine(ERR_CLSD))) && calls == []
        && registry.buffer.length == old(registry.buffer.length)
        && registry.buffer.data[..] == old(registry.buffer.data[..])
      ensures tcp != 0 ==>
        var e := WriteLoop(|data|, offset, 0, 0, sndbuf, writeResult);
        && InBounds(e.pieces, |data|)
        && calls == Writes(tcp, data, e.pieces) + [TcpOutput(tcp)]
        && (e.offset == |data| ==> step == Settled(Resolved))
        && (e.offset < |data| ==> step == Retry(e.offset, if e.written == 0 then 20 else 1))
      ensures step.Retry? ==> offset <= step.offset < |data| && Accepted(calls) == data[offset..step.offset]
      ensures step == Settled(Resolved) ==> Accepted(calls) == data[offset..]
    {
      if tcp == 0 {
        return Settled(Rejected(Engine(ERR_CLSD))), [];
      }
      var e := WriteChunks(registry.buffer, data, offset, sndbuf, writeResult);
      IterationAccepted(tcp, data, offset, sndbuf, writeResult);
      calls := Writes(tcp, data, e.pieces) + [TcpOutput(tcp)];
      if e.offset == |data| {
        assert data[offset..e.offset] == data[offset..];
        step := Settled(Resolved);
      } else {
        step := Retry(e.offset, if e.written == 0 then 20 else 1);
      }
    }

    /**
     * `close()`: nothing on a closed socket. Otherwise asks the engine to
     * close the pcb and, only if that fails, aborts it and records the
     * abort; the registry entry goes and the socket holds no handle.
     */
    method Close(closeResult: int) returns (calls: seq<Call>)
      requires Valid()
      modifies this`tcp, this`didAbort, registry`sockets
      ensures Valid() && tcp == 0
      ensures old(tcp) == 0 ==>
        calls == [] && didAbort == old(didAbort) && registry.sockets == old(registry.sockets)
      ensures old(tcp) != 0 ==>
        && registry.sockets == old(registry.sockets) - {old(tcp)}
        && calls == CloseCalls(old(tcp), closeResult)
        && (closeResult == ERR_OK ==> didAbort == old(didAbort))
        && (closeResult != ERR_OK ==> didAbort)
    {
      if tcp == 0 {
        return [];
      }
      calls := [TcpClose(tcp, closeResult)];
      if closeResult != ERR_OK {
        calls := calls + [TcpAbort(tcp)];
        didAbort := true;
      }
      registry.sockets := registry.sockets - {tcp};
      tcp := 0;
    }

    /** `remoteIP()`: the engine's remote address as a dotted quad, on an open socket. */
    method RemoteIP(remote: bv32) returns (r: Result<string>)
      requires Valid()
      ensures tcp == 0 ==> r == Err(AlreadyClosed)
      ensures tcp != 0 ==> r == Ok(Ip4Ntoa(remote))
      ensures tcp != 0 ==> IsDottedQuad(r.value) && ResolveIp4(r.value) == remote
    {
      if tcp == 0 {
        return Err(AlreadyClosed);
      }
      ResolveNtoa(remote);
      r := Ok(Ip4Ntoa(remote));
    }

    /** `remotePort()`: the engine's remote port, on an open socket. */
    method RemotePort(remote: int) returns (r: Result<int>)
      requires Valid()
      ensures tcp == 0 ==> r == Err(AlreadyClosed)
      ensures tcp != 0 ==> r == Ok(remote)
    {
      if tcp == 0 {
        return Err(AlreadyClosed);
      }
      r := Ok(remote);
    }

    /**
     * What one `_on_event(type, arg, new_tcp)` leaves behind, given the
     * handle `tcp0` and the registry `sockets0` it started from: the event
     * emitted and the listeners it reached, the engine calls in order, the
     * handle, the registry, `_did_abort` and the answer.
     *
     * Listeners can close this socket from inside the emission: those in
     * `closers` call `close()`, and the engine answers such a close with
     * `listenerCloseResult`. Only the first of these closes reaches the
     * engine; on a socket that is already closed, `close()` does nothing.
     */
    ghost predicate Dispatched(tcp0: Handle, sockets0: map<Handle, TcpSocket>,
                               eventType: int, arg: int, newTcp: Handle, closeResult: int, listenerCloseResult: int,
                               throws: set<ListenerId>, closers: set<ListenerId>,
                               r: Result<int>, calls: seq<Call>, emitted: Option<Emission>)
      reads this, registry, events, registry.buffer, registry.buffer.data
      reads if emitted.Some? && emitted.value.event.AcceptEvent? then {emitted.value.event.socket} else {}
    {
      registry.buffer.Valid() &&
      if eventType == EVENT_TYPE_ACCEPT && arg == ERR_OK && newTcp == 0 then
        // the socket constructor throws, and the exception leaves the dispatch
        && r == Err(CreateFailed) && calls == [] && emitted == None
        && tcp == tcp0 && registry.sockets == sockets0 && !didAbort
      else if eventType == EVENT_TYPE_RECV && arg == ERR_CLSD then
        // the dispatch closes the socket before emitting; a listener's close finds it closed
        && emitted == Some(Emission(ClosedEvent, Trace("closed", throws)))
        && tcp == 0
        && (tcp0 == 0 ==> calls == [] && registry.sockets == sockets0 && !didAbort)
        && (tcp0 != 0 ==>
              && calls == CloseCalls(tcp0, closeResult) && registry.sockets == sockets0 - {tcp0}
              && (didAbort <==> closeResult != ERR_OK))
        && r == Ok(if didAbort then ERR_ABRT else ERR_OK)
      else
        && (eventType == EVENT_TYPE_ERR || (eventType == EVENT_TYPE_ACCEPT && arg != ERR_OK) ==>
              emitted == Some(Emission(ErrorEvent(Engine(arg)), Trace("error", throws))))
        && (eventType == EVENT_TYPE_CONNECTED ==>
              emitted == Some(Emission(ConnectedEvent, Trace("_connected", throws))))
        && (eventType == EVENT_TYPE_RECV && arg == ERR_OK ==>
              emitted == Some(Emission(DataEvent(registry.buffer.Contents()), Trace("data", throws))))
        && (eventType == EVENT_TYPE_ACCEPT && arg == ERR_OK ==>
              && emitted.Some? && emitted.value.event.AcceptEvent?
              && emitted.value.called == Trace("accept", throws)
              && emitted.value.event.socket.registry == registry && emitted.value.event.socket.tcp == newTcp)
        && (|| (eventType == EVENT_TYPE_RECV && arg != ERR_OK)
            || eventType == EVENT_TYPE_SENT || eventType < EVENT_TYPE_ERR || eventType > EVENT_TYPE_ACCEPT
            ==> emitted == None)
        && var own := if eventType == EVENT_TYPE_RECV && arg == ERR_OK && tcp0 != 0
                      then [TcpRecved(tcp0, |registry.buffer.Contents()|)] else [];
        && var added := if emitted.Some? && emitted.value.event.AcceptEvent?
                        then sockets0[newTcp := emitted.value.event.socket] else sockets0;
        && var closing := tcp0 != 0 && emitted.Some? && Reaches(emitted.value.called, closers);
        && (closing ==>
              && tcp == 0 && registry.sockets == added - {tcp0}
              && calls == own + CloseCalls(tcp0, listenerCloseResult)
              && (didAbort <==> listenerCloseResult != ERR_OK))
        && (!closing ==> tcp == tcp0 && registry.sockets == added && calls == own && !didAbort)
        && r == Ok(if didAbort then ERR_ABRT else ERR_OK)
    }

    /**
     * `_on_event(type, arg, new_tcp)`: reacts to one engine event, as
     * `Dispatched` describes, and answers the engine ERR_ABRT exactly when
     * a close during this dispatch, its own or a listener's, fell back to
     * aborting the pcb (so the engine must not touch it again), ERR_OK
     * otherwise.
     */
    method OnEvent(eventType: int, arg: int, newTcp: Handle, closeResult: int, listenerCloseResult: int,
                   throws: set<ListenerId>, closers: set<ListenerId>)
      returns (r: Result<int>, calls: seq<Call>, emitted: Option<Emission>)
      requires Valid()
      modifies this`tcp, this`didAbort, registry`sockets
      ensures Valid()
      ensures Dispatched(old(tcp), old(registry.sockets), eventType, arg, newTcp, closeResult, listenerCloseResult,
                         throws, closers, r, calls, emitted)
      ensures emitted.Some? && emitted.value.event.AcceptEvent? ==> fresh(emitted.value.event.socket)
      ensures r == Ok(ERR_ABRT) <==> old(tcp) != 0 && TcpAbort(old(tcp)) in calls
    {
      didAbort := false;
      if eventType == EVENT_TYPE_RECV && arg == ERR_CLSD {
        r, calls, emitted := DispatchClosed(closeResult, listenerCloseResult, throws, closers);
      } else {
        r, calls, emitted := DispatchOther(eventType, arg, newTcp, closeResult, listenerCloseResult, throws, closers);
      }
    }

    /** RECV with ERR_CLSD: `close()` first, then "closed"; a listener's `close()` finds the socket closed. */
    method DispatchClosed(closeResult: int, listenerCloseResult: int, throws: set<ListenerId>, closers: set<ListenerId>)
      returns (r: Result<int>, calls: seq<Call>, emitted: Option<Emission>)
      requires Valid() && !didAbort
      modifies this`tcp, this`didAbort, registry`sockets
      ensures Valid()
      ensures Dispatched(old(tcp), old(registry.sockets), EVENT_TYPE_RECV, ERR_CLSD, 0, closeResult, listenerCloseResult,
                         throws, closers, r, calls, emitted)
    {
      calls := Close(closeResult);
      var called := events.EmitNoExc("closed", throws);
      emitted := Some(Emission(ClosedEvent, called));
      r := Ok(if didAbort then ERR_ABRT else ERR_OK);
    }

    /**
     * Every other event: the accepted socket or `Announce`, followed by
     * the `close()` of a listener that the emission reached.
     */
    method DispatchOther(eventType: int, arg: int, newTcp: Handle, closeResult: int, listenerCloseResult: int,
                         throws: set<ListenerId>, closers: set<ListenerId>)
      returns (r: Result<int>, calls: seq<Call>, emitted: Option<Emission>)
      requires Valid() && !didAbort && !(eventType == EVENT_TYPE_RECV && arg == ERR_CLSD)
      modifies this`tcp, this`didAbort, registry`sockets
      ensures Valid()
      ensures Dispatched(old(tcp), old(registry.sockets), eventType, arg, newTcp, closeResult, listenerCloseResult,
                         throws, closers, r, calls, emitted)
      ensures emitted.Some? && emitted.value.event.AcceptEvent? ==> fresh(emitted.value.event.socket)
    {
      if eventType == EVENT_TYPE_ACCEPT && arg == ERR_OK {
        var created, _ := Create(registry, Some(newTcp), 0);
        if created.Err? {
          return Err(created.error), [], None;
        }
        var called := events.EmitNoExc("accept", throws);
        calls, emitted := [], Some(Emission(AcceptEvent(created.value), called));
      } else {
        calls, emitted := Announce(eventType, arg, throws);
      }
      if tcp != 0 && emitted.Some? && Reaches(emitted.value.called, closers) {
        var closed := Close(listenerCloseResult);
        calls := calls + closed;
      }
      r := Ok(if didAbort then ERR_ABRT else ERR_OK);
    }

    /**
     * The events `_on_event` only announces: "error" for ERR and for a
     * failed ACCEPT, "_connected", and "data" with the buffer contents,
     * acknowledged with `lw_tcp_recved` while the handle is live. A RECV
     * with another status, SENT and unknown types emit nothing.
     */
    method Announce(eventType: int, arg: int, throws: set<ListenerId>) returns (calls: seq<Call>, emitted: Option<Emission>)
      requires Valid()
      requires !(eventType == EVENT_TYPE_RECV && arg == ERR_CLSD) && !(eventType == EVENT_TYPE_ACCEPT && arg == ERR_OK)
      ensures eventType == EVENT_TYPE_ERR || eventType == EVENT_TYPE_ACCEPT ==>
        emitted == Some(Emission(ErrorEvent(Engine(arg)), Trace("error", throws)))
      ensures eventType == EVENT_TYPE_CONNECTED ==> emitted == Some(Emission(ConnectedEvent, Trace("_connected", throws)))
      ensures eventType == EVENT_TYPE_RECV && arg == ERR_OK ==>
        emitted == Some(Emission(DataEvent(registry.buffer.Contents()), Trace("data", throws)))
      ensures || (eventType == EVENT_TYPE_RECV && arg != ERR_OK)
              || eventType == EVENT_TYPE_SENT || eventType < EVENT_TYPE_ERR || eventType > EVENT_TYPE_ACCEPT
        ==> emitted == None
      ensures calls == if eventType == EVENT_TYPE_RECV && arg == ERR_OK && tcp != 0
                       then [TcpRecved(tcp, |registry.buffer.Contents()|)] else []
    {
      calls, emitted := [], None;
      if eventType == EVENT_TYPE_ERR || eventType == EVENT_TYPE_ACCEPT {
        var called := events.EmitNoExc("error", throws);
        emitted := Some(Emission(ErrorEvent(Engine(arg)), called));
      } else if eventType == EVENT_TYPE_CONNECTED {
        var called := events.EmitNoExc("_connected", throws);
        emitted := Some(Emission(ConnectedEvent, called));
      } else if eventType == EVENT_TYPE_RECV && arg == ERR_OK {
        var data := BufferGet(registry.buffer);
        if tcp != 0 {
          calls := [TcpRecved(tcp, |data|)];
        }
        var called := events.EmitNoExc("data", throws);
        emitted := Some(Emission(DataEvent(data), called));
      }
    }
  }

  /**
   * One chunk staged for `lw_tcp_write`: `buffer_set(data.subarray(start,
   * start + size))` leaves exactly those bytes in the shared buffer, which
   * is where `lw_tcp_write(tcp, more)` reads them from. The write itself is
   * recorded as the piece, with the engine's answer in `p.result`.
   */
  method WriteChunk(buffer: SharedBuffer, data: seq<Byte>, p: Piece)
    requires buffer.Valid() && p.start + p.size <= |data| && p.size <= BufferCapacity
    modifies buffer`length, buffer.data
    ensures buffer.Valid() && buffer.Contents() == data[p.start..p.start + p.size]
  {
    var outcome := BufferSet(buffer, Uint8Array(data[p.start..p.start + p.size]));
  }

  /**
   * The inner loop of a `write` iteration: each chunk is staged in the
   * shared buffer and handed to `lw_tcp_write`. It ends exactly where
   * `WriteLoop` ends, with the same chunks; `Writes` renders those as the
   * engine calls.
   */
  method WriteChunks(buffer: SharedBuffer, data: seq<Byte>, offset: nat, sndbuf: nat -> nat, writeResult: nat -> int)
    returns (e: LoopEnd)
    requires buffer.Valid() && offset <= |data|
    modifies buffer`length, buffer.data
    ensures buffer.Valid()
    ensures e == WriteLoop(|data|, offset, 0, 0, sndbuf, writeResult)
  {
    var pos: nat, written: nat, round: nat := offset, 0, 0;
    var pieces: seq<Piece> := [];
    ghost var final := Resume(|data|, [], offset, 0, 0, sndbuf, writeResult);
    while true
      invariant buffer.Valid() && pos <= |data| && written <= MaxWrite
      invariant Resume(|data|, pieces, pos, written, round, sndbuf, writeResult) == final
      decreases |data| - pos
    {
      var count := Chunk(|data| - pos, sndbuf(round), written);
      if count == 0 {
        break;
      }
      var more := if pos + count < |data| then 1 else 0;
      var p := Piece(pos, count, more, writeResult(round));
      WriteChunk(buffer, data, p);
      pieces := pieces + [p];
      if writeResult(round) != ERR_OK {
        break;
      }
      written := written + count;
      pos := pos + count;
      round := round + 1;
    }
    e := LoopEnd(pieces, pos, written, round);
    ResumeFromStart(|data|, offset, sndbuf, writeResult);
  }

  /**
   * `tcp_event_callback(tcp, type, arg, new_tcp)`: an event on a handle
   * with no registered socket is answered ERR_OK and has no other effect;
   * otherwise the socket registered for the handle dispatches it, and the
   * answer is ERR_ABRT exactly when that dispatch aborted the handle.
   */
  method TcpEventCallback(registry: TcpRegistry, h: Handle, eventType: int, arg: int, newTcp: Handle,
                          closeResult: int, listenerCloseResult: int, throws: set<ListenerId>, closers: set<ListenerId>)
    returns (r: Result<int>, calls: seq<Call>, emitted: Option<Emission>)
    requires registry.Valid() && registry.buffer.Valid()
    requires h in registry.sockets ==> registry.sockets[h].events.Valid()
    modifies registry`sockets, if h in registry.sockets then {registry.sockets[h]} else {}
    ensures registry.Valid()
    ensures h !in old(registry.sockets) ==>
      r == Ok(ERR_OK) && calls == [] && emitted == None && registry.sockets == old(registry.sockets)
    ensures h in old(registry.sockets) ==>
      && old(registry.sockets[h]).Dispatched(h, old(registry.sockets), eventType, arg, newTcp, closeResult,
                                             listenerCloseResult, throws, closers, r, calls, emitted)
      && (r == Ok(ERR_ABRT) <==> TcpAbort(h) in calls)
  {
    if h !in registry.sockets {
      return Ok(ERR_OK), [], None;
    }
    var socket := registry.sockets[h];
    r, calls, emitted := socket.OnEvent(eventType, arg, newTcp, closeResult, listenerCloseResult, throws, closers);
  }

  /**
   * Closing twice is closing once: the second `close()` calls nothing and
   * changes nothing, and afterwards `bind` and `listen` throw "socket is
   * already closed".
   */
  method CloseTwice(s: TcpSocket, first: int, second: int, newTcp: Handle)
    returns (c1: seq<Call>, c2: seq<Call>, listened: Outcome)
    requires s.Valid()
    modifies s`tcp, s`didAbort, s.registry`sockets
    ensures s.tcp == 0 && c2 == [] && listened == Throw(AlreadyClosed)
    ensures old(s.tcp) != 0 ==>
      && c1 == CloseCalls(old(s.tcp), first)
      && s.registry.sockets == old(s.registry.sockets) - {old(s.tcp)}
      && (s.didAbort <==> old(s.didAbort) || first != ERR_OK)
    ensures old(s.tcp) == 0 ==>
      c1 == [] && s.registry.sockets == old(s.registry.sockets) && s.didAbort == old(s.didAbort)
  {
    c1 := s.Close(first);
    ghost var after, aborted := s.registry.sockets, s.didAbort;
    c2 := s.Close(second);
    assert s.registry.sockets == after && s.didAbort == aborted;
    var listenCalls;
    listened, listenCalls := s.Listen(newTcp);
  }
}
