/**
 * The link-layer side of the binding: lwIP hands outgoing frames to
 * `netif_output`, which parks them in a bounded FIFO of pbuf references;
 * `lw_ethernet_recv` takes the oldest one out and copies it into the shared
 * transfer buffer for JavaScript to read.
 */
module BindingEthernet {
  import opened Lwip
  import opened BindingBase

  /** QUEUE_SIZE: capacity of the output queue. */
  const QueueSize: int := 256

  /** `output_queue` and `output_queue_count`. */
  class OutputQueue {
    const slots: array<Pbuf?>
    var count: int

    ghost predicate Valid()
      reads this, slots
    {
      && slots.Length == QueueSize
      && 0 <= count <= QueueSize
      && forall i :: 0 <= i < count ==> slots[i] != null
    }

    /** The queued packets, oldest first. */
    function Contents(): (q: seq<Pbuf?>)
      requires Valid()
      reads this, slots
      ensures |q| == count && null !in q
    {
      slots[..count]
    }

    constructor ()
      ensures Valid() && fresh(slots) && Contents() == []
    {
      slots := new Pbuf?[QueueSize](_ => null);
      count := 0;
    }

    /**
     * netif_output: appends `p`, taking a reference on it, while the queue
     * has room; a full queue answers ERR_BUF and nothing changes.
     */
    method NetifOutput(p: Pbuf) returns (err: int)
      requires Valid()
      modifies this`count, slots, p`ref
      ensures Valid()
      ensures old(count) < QueueSize ==>
        && err == ERR_OK
        && Contents() == old(Contents()) + [p]
        && p.ref == old(p.ref) + 1
      ensures old(count) >= QueueSize ==>
        && err == ERR_BUF
        && count == old(count) && slots[..] == old(slots[..])
        && p.ref == old(p.ref)
    {
      if count < QueueSize {
        p.ref := p.ref + 1;
        slots[count] := p;
        count := count + 1;
        return ERR_OK;
      } else {
        return ERR_BUF;
      }
    }

    /** The dequeue step of lw_ethernet_recv: the loop that shifts every slot left by one. */
    method ShiftOut() returns (p: Pbuf)
      requires Valid() && count > 0
      modifies this`count, slots
      ensures Valid()
      ensures p == old(slots[0]) && Contents() == old(Contents())[1..]
    {
      p := slots[0];
      ghost var orig := slots[..];
      for i := 0 to count - 1
        modifies slots
        invariant forall k | 0 <= k < i :: slots[k] == orig[k + 1]
        invariant forall k | i <= k < QueueSize :: slots[k] == orig[k]
      {
        slots[i] := slots[i + 1];
      }
      count := count - 1;
      assert Contents() == orig[1..count + 1];
    }

    /**
     * lw_ethernet_recv: on an empty queue, ERR_WOULDBLOCK and no change.
     * Otherwise removes the oldest packet by shifting the others one slot to
     * the left, and gives up the queue's reference on it. A packet that fits
     * the shared buffer is copied there with its length recorded (ERR_OK);
     * a larger one leaves the buffer untouched (ERR_BUF) but is dropped all
     * the same.
     */
    method EthernetRecv(buffer: SharedBuffer) returns (r: int)
      requires Valid() && buffer.Valid()
      modifies this`count, slots, buffer`length, buffer.data
      modifies if count > 0 then {slots[0]} else {}
      ensures Valid() && buffer.Valid()
      ensures old(count) == 0 ==>
        && r == ERR_WOULDBLOCK
        && count == old(count) && slots[..] == old(slots[..])
        && buffer.length == old(buffer.length) && buffer.data[..] == old(buffer.data[..])
      ensures old(count) > 0 ==>
        var p := old(slots[0]);
        && Contents() == old(Contents())[1..]
        && p.ref == old(p.ref) - 1
        && (|p.payload| <= BufferCapacity ==>
              && r == ERR_OK
              && buffer.Contents() == p.payload
              && buffer.data[|p.payload|..] == old(buffer.data[|p.payload|..]))
        && (|p.payload| > BufferCapacity ==>
              && r == ERR_BUF
              && buffer.length == old(buffer.length)
              && buffer.data[..] == old(buffer.data[..]))
    {
      var data := buffer.Ptr();
      if count == 0 {
        return ERR_WOULDBLOCK;
      }
      r := ERR_WOULDBLOCK;

      var p := ShiftOut();

      var len := |p.payload|;
      if len <= BufferCapacity {
        MemCopy(data, 0, p.payload);
        buffer.SetLength(len);
        r := ERR_OK;
      } else {
        r := ERR_BUF;
      }
      p.ref := p.ref - 1;
    }
  }
}
