/**
 * The lwIP engine as the JavaScript adapter sees it: opaque handles and the
 * `lw_tcp_*` / `lw_udp_*` entry points. The engine itself is not modelled;
 * what it answers (a new handle, a status, the send-buffer space, a remote
 * address) is an input of the adapter operation that asks, and every call
 * with an effect on the engine is recorded, in order, as a `Call`.
 */
module Engine {
  import opened Lwip

  /** A pcb pointer as JavaScript holds it; 0 is the engine's NULL and also stands for `null`. */
  type Handle = nat

  /** The engine calls with an effect, each with the arguments it receives. */
  datatype Call =
    | TcpNew
    | TcpClose(tcp: Handle, result: int)
    | TcpAbort(tcp: Handle)
    | TcpBind(tcp: Handle, ip: bv32, port: int, result: int)
    | TcpListen(tcp: Handle)
    | TcpConnect(tcp: Handle, ip: bv32, port: int, result: int)
    | TcpRecved(tcp: Handle, len: nat)
    /** lw_tcp_write: the bytes are the shared buffer's contents at the time of the call. */
    | TcpWrite(tcp: Handle, bytes: seq<Byte>, more: int, result: int)
    | TcpOutput(tcp: Handle)
    | UdpNew
    | UdpRemove(udp: Handle)
    | UdpSendTo(udp: Handle, bytes: seq<Byte>, ip: bv32, port: int)
    | UdpSend(udp: Handle, bytes: seq<Byte>)
    | UdpBind(udp: Handle, ip: bv32, port: int)
    | UdpConnect(udp: Handle, ip: bv32, port: int)
    | UdpDisconnect(udp: Handle)

  /** The event types `tcp_event_callback` receives (binding_tcp.c). */
  const EVENT_TYPE_ERR: int := 1
  const EVENT_TYPE_CONNECTED: int := 2
  const EVENT_TYPE_RECV: int := 3
  const EVENT_TYPE_SENT: int := 4
  const EVENT_TYPE_ACCEPT: int := 5
}
