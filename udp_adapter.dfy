/**
 * The UDP half of the socket adapter: `udp_socket_map`, the
 * `udp_recv_callback` dispatcher, and the `UDPSocket` class. A socket holds
 * its pcb handle in `udp` (0 once closed). Unlike the TCP socket it never
 * checks that handle: on a closed socket `send`, `bind`, `connect` and
 * `disconnect` hand the null handle to the engine.
 */
module UdpAdapter {
  import opened Lwip
  import opened BindingBase
  import opened Engine
  import opened Ip4
  import opened Events
  import opened Transfer

  /** `udp_socket_map`: which socket a received datagram on a handle goes to. */
  class UdpRegistry {
    const buffer: SharedBuffer
    var sockets: map<Handle, UdpSocket>

    /** Every entry is keyed by its socket's current, non-null handle. */
    ghost predicate Valid()
      reads this, sockets.Values
    {
      forall h | h in sockets :: h != 0 && sockets[h].udp == h && sockets[h].registry == this
    }

    constructor (buffer: SharedBuffer)
      ensures Valid() && this.buffer == buffer && sockets == map[]
    {
      this.buffer := buffer;
      sockets := map[];
    }
  }

  /** The `{ data, address, port }` object a "message" event carries. */
  datatype Message = Message(data: seq<Byte>, address: string, port: int)

  /** One `_emitNoExc("message", …)`: the message and the listeners it reached, in order. */
  datatype Emission = Emission(message: Message, called: seq<ListenerId>)

  class UdpSocket {
    const registry: UdpRegistry
    const events: EventEmitter
    var udp: Handle

    ghost predicate Valid()
      reads this, registry, registry.sockets.Values, registry.buffer, events
    {
      registry.Valid() && registry.buffer.Valid() && events.Valid()
    }

    /** The object before registration: a new emitter and the handle. */
    constructor Wrap(registry: UdpRegistry, udp: Handle)
      ensures this.registry == registry && this.udp == udp
      ensures fresh(events) && events.Valid() && events.listeners == map[]
    {
      this.registry := registry;
      this.udp := udp;
      events := new EventEmitter();
    }

    /**
     * `new UDPSocket()`: asks the engine for a pcb (`lw_udp_new`, answering
     * `newHandle`). A 0 handle throws "unable to create udp" and registers
     * nothing; otherwise the registry maps the handle to the new socket.
     */
    static method Create(registry: UdpRegistry, newHandle: Handle)
      returns (r: Result<UdpSocket>, calls: seq<Call>)
      requires registry.Valid()
      modifies registry`sockets
      ensures registry.Valid() && calls == [UdpNew]
      ensures newHandle == 0 ==> r == Err(CreateFailed) && registry.sockets == old(registry.sockets)
      ensures newHandle != 0 ==>
        && r.Ok? && fresh(r.value) && fresh(r.value.events)
        && r.value.registry == registry && r.value.udp == newHandle
        && r.value.events.Valid() && r.value.events.listeners == map[]
        && registry.sockets == old(registry.sockets)[newHandle := r.value]
    {
      calls := [UdpNew];
      if newHandle == 0 {
        return Err(CreateFailed), calls;
      }
      var s := new UdpSocket.Wrap(registry, newHandle);
      registry.sockets := registry.sockets[newHandle := s];
      r := Ok(s);
    }

    /**
     * `close()`: nothing on a closed socket; otherwise removes the pcb,
     * drops the registry entry and forgets the handle.
     */
    method Close() returns (calls: seq<Call>)
      requires Valid()
      modifies this`udp, registry`sockets
      ensures Valid() && udp == 0
      ensures old(udp) == 0 ==> calls == [] && registry.sockets == old(registry.sockets)
      ensures old(udp) != 0 ==>
        calls == [UdpRemove(old(udp))] && registry.sockets == old(registry.sockets) - {old(udp)}
    {
      if udp == 0 {
        return [];
      }
      calls := [UdpRemove(udp)];
      registry.sockets := registry.sockets - {udp};
      udp := 0;
    }

    /**
     * `send(msg, address, port)`: stages `msg` in the shared buffer; a
     * `buffer_set` that throws lets the exception out before any engine
     * call. Otherwise the datagram goes to the given destination when both
     * `address` and `port` are present, and to the connected peer when
     * either is missing; the engine's status is not looked at.
     */
    method Send(msg: JsValue, address: Option<string>, port: Option<int>) returns (r: Outcome, calls: seq<Call>)
      requires Valid()
      requires address.Some? && port.Some? ==> IsDottedQuad(address.value)
      modifies registry.buffer`length, registry.buffer.data
      ensures Valid()
      ensures r == Done <==> msg.Uint8Array? && |msg.bytes| <= BufferCapacity
      ensures r.Throw? ==>
        && calls == []
        && registry.buffer.length == old(registry.buffer.length)
        && registry.buffer.data[..] == old(registry.buffer.data[..])
      ensures r == Done ==>
        && registry.buffer.Contents() == msg.bytes
        && (address.Some? && port.Some? ==>
              calls == [UdpSendTo(udp, msg.bytes, ResolveIp4(address.value), port.value)])
        && (address.None? || port.None? ==> calls == [UdpSend(udp, msg.bytes)])
    {
      r := BufferSet(registry.buffer, msg);
      if r.Throw? {
        return r, [];
      }
      var staged := BufferGet(registry.buffer);
      if address.Some? && port.Some? {
        calls := [UdpSendTo(udp, staged, ResolveIp4(address.value), port.value)];
      } else {
        calls := [UdpSend(udp, staged)];
      }
    }

    /** `bind(address, port)`: binds the handle to the packed address; the status is not looked at. */
    method Bind(address: string, port: int) returns (calls: seq<Call>)
      requires Valid() && IsDottedQuad(address)
      ensures calls == [UdpBind(udp, ResolveIp4(address), port)]
    {
      calls := [UdpBind(udp, ResolveIp4(address), port)];
    }

    /** `connect(address, port)`: sets the default peer; the status is not looked at. */
    method Connect(address: string, port: int) returns (calls: seq<Call>)
      requires Valid() && IsDottedQuad(address)
      ensures calls == [UdpConnect(udp, ResolveIp4(address), port)]
    {
      calls := [UdpConnect(udp, ResolveIp4(address), port)];
    }

    /** `disconnect()`: clears the default peer. */
    method Disconnect() returns (calls: seq<Call>)
      requires Valid()
      ensures calls == [UdpDisconnect(udp)]
    {
      calls := [UdpDisconnect(udp)];
    }

    /** `_on_recv(address, port, data)`: emits "message"; a throwing listener does not escape. */
    method OnRecv(address: string, port: int, data: seq<Byte>, throws: set<ListenerId>) returns (e: Emission)
      requires Valid()
      ensures e.message == Message(data, address, port)
      ensures e.called == CallTrace(events.Registered("message"), throws)
    {
      var called := events.EmitNoExc("message", throws);
      e := Emission(Message(data, address, port), called);
    }
  }

  /**
   * `udp_recv_callback(udp, address_uint, port)`: a datagram on a handle
   * with no registered socket is answered ERR_OK and has no other effect.
   * Otherwise the registered socket emits the staged bytes with the sender
   * printed as a dotted quad, which packs back to the engine's address;
   * the callback then returns `undefined` (`None`).
   */
  method UdpRecvCallback(registry: UdpRegistry, h: Handle, addressUint: bv32, port: int, throws: set<ListenerId>)
    returns (r: Option<int>, emitted: Option<Emission>)
    requires registry.Valid() && registry.buffer.Valid()
    requires h in registry.sockets ==> registry.sockets[h].events.Valid()
    ensures h !in registry.sockets ==> r == Some(ERR_OK) && emitted == None
    ensures h in registry.sockets ==>
      && r == None && emitted.Some?
      && emitted.value.message.data == registry.buffer.Contents()
      && emitted.value.message.port == port
      && emitted.value.message.address == Ip4Ntoa(addressUint)
      && IsDottedQuad(emitted.value.message.address)
      && ResolveIp4(emitted.value.message.address) == addressUint
      && emitted.value.called == CallTrace(registry.sockets[h].events.Registered("message"), throws)
  {
    if h !in registry.sockets {
      return Some(ERR_OK), None;
    }
    var socket := registry.sockets[h];
    var data := BufferGet(registry.buffer);
    ResolveNtoa(addressUint);
    var address := Ip4Ntoa(addressUint);
    var e := socket.OnRecv(address, port, data, throws);
    r, emitted := None, Some(e);
  }

  /**
   * Closing twice is closing once: the second `close()` calls nothing and
   * leaves the registry as the first left it.
   */
  method CloseTwice(s: UdpSocket) returns (c1: seq<Call>, c2: seq<Call>)
    requires s.Valid()
    modifies s`udp, s.registry`sockets
    ensures s.udp == 0 && c2 == []
    ensures old(s.udp) != 0 ==>
      c1 == [UdpRemove(old(s.udp))] && s.registry.sockets == old(s.registry.sockets) - {old(s.udp)}
    ensures old(s.udp) == 0 ==> c1 == [] && s.registry.sockets == old(s.registry.sockets)
  {
    c1 := s.Close();
    ghost var after := s.registry.sockets;
    c2 := s.Close();
    assert s.registry.sockets == after;
  }

  /**
   * No guard after `close()`: unlike the TCP socket, a closed UDP socket
   * still calls the engine, handing it the null handle.
   */
  method BindAfterClose(s: UdpSocket, address: string, port: int) returns (closed: seq<Call>, bound: seq<Call>)
    requires s.Valid() && IsDottedQuad(address)
    modifies s`udp, s.registry`sockets
    ensures s.udp == 0 && bound == [UdpBind(0, ResolveIp4(address), port)]
    ensures old(s.udp) !in s.registry.sockets
  {
    closed := s.Close();
    bound := s.Bind(address, port);
  }
}
