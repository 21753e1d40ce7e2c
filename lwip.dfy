/**
 * Constants and types shared by the lwIP binding and the JavaScript adapter:
 * the capacity of the shared transfer buffer, the lwIP `err_t` codes the
 * adapter inspects, the adapter's error values, and the packet buffer (pbuf).
 */
module Lwip {

  /** LW_BUFFER_CAPACITY: size in bytes of the shared transfer buffer. */
  const BufferCapacity: int := 32768

  // lwIP `err_t` codes (lwIP's err.h) used by the binding and the adapter.
  const ERR_OK: int := 0
  const ERR_MEM: int := -1
  const ERR_BUF: int := -2
  const ERR_WOULDBLOCK: int := -7
  const ERR_ABRT: int := -13
  const ERR_CLSD: int := -15

  type Byte = bv8

  datatype Option<T> = None | Some(value: T)

  /** The exceptions the adapter throws, and the rejection reasons of its promises. */
  datatype Error =
    | NotUint8Array      // "buffer must be Uint8Array"
    | CapacityExceeded   // "buffer larger than capacity (32768)"
    | AlreadyClosed      // "socket is already closed"
    | CreateFailed       // "unable to create tcp" / "unable to create udp"
    | ListenFailed       // "unable to listen"
    | Engine(code: int)  // lw_jserror(code): a non-OK lwIP status

  datatype Result<T> = Ok(value: T) | Err(error: Error)

  /** State of a JavaScript promise returned by the adapter. */
  datatype Promise = Pending | Resolved | Rejected(reason: Error)

  /**
   * One lwIP packet buffer segment. `ref` is lwIP's reference count
   * (pbuf_ref adds one, pbuf_free removes one); `payload` holds the
   * segment's `len` bytes.
   */
  class Pbuf {
    var ref: int
    const payload: seq<Byte>

    /** A newly allocated pbuf holds one reference. */
    constructor (payload: seq<Byte>)
      ensures this.payload == payload && ref == 1
    {
      this.payload := payload;
      ref := 1;
    }
  }
}
