/**
 * The JavaScript side of the shared transfer buffer: `buffer_set` checks a
 * value and copies it into the region, `buffer_get` copies the current
 * contents out.
 */
module Transfer {
  import opened Lwip
  import opened BindingBase

  /** A JavaScript value handed to `buffer_set`: a Uint8Array or anything else. */
  datatype JsValue = Uint8Array(bytes: seq<Byte>) | OtherValue

  /** Completion of a JavaScript call that returns nothing: normal, or a thrown error. */
  datatype Outcome = Done | Throw(error: Error)

  /**
   * buffer_set: throws for a value that is not a Uint8Array, or one longer
   * than the capacity, and then touches nothing; otherwise copies the bytes
   * to the start of the region and records their length.
   */
  method BufferSet(buffer: SharedBuffer, v: JsValue) returns (r: Outcome)
    requires buffer.Valid()
    modifies buffer`length, buffer.data
    ensures buffer.Valid()
    ensures !v.Uint8Array? ==> r == Throw(NotUint8Array)
    ensures v.Uint8Array? && |v.bytes| > BufferCapacity ==> r == Throw(CapacityExceeded)
    ensures r.Throw? ==>
      buffer.length == old(buffer.length) && buffer.data[..] == old(buffer.data[..])
    ensures v.Uint8Array? && |v.bytes| <= BufferCapacity ==>
      && r == Done
      && buffer.Contents() == v.bytes
      && buffer.data[|v.bytes|..] == old(buffer.data[|v.bytes|..])
  {
    if !v.Uint8Array? {
      return Throw(NotUint8Array);
    }
    if |v.bytes| > BufferCapacity {
      return Throw(CapacityExceeded);
    }
    var ptr := buffer.Ptr();
    MemCopy(ptr, 0, v.bytes);
    buffer.SetLength(|v.bytes|);
    return Done;
  }

  /** buffer_get: a copy of the `length` bytes the region holds. */
  method BufferGet(buffer: SharedBuffer) returns (d: seq<Byte>)
    requires buffer.Valid()
    ensures d == buffer.data[..buffer.length] && |d| <= BufferCapacity
  {
    var ptr := buffer.Ptr();
    var len := buffer.GetLength();
    d := ptr[..len];
  }

  /**
   * A `buffer_get` right after a successful `buffer_set(v)` returns exactly
   * the bytes of `v`, whatever the region held before.
   */
  method SetThenGet(buffer: SharedBuffer, v: JsValue) returns (r: Outcome, d: seq<Byte>)
    requires buffer.Valid()
    modifies buffer`length, buffer.data
    ensures r == Done <==> v.Uint8Array? && |v.bytes| <= BufferCapacity
    ensures r == Done ==> d == v.bytes
    ensures r.Throw? ==> d == old(buffer.data[..buffer.length])
  {
    r := BufferSet(buffer, v);
    d := BufferGet(buffer);
  }
}
