/**
 * The shared transfer buffer of the binding: one static byte region of
 * LW_BUFFER_CAPACITY bytes plus a recorded length, through which every
 * payload crosses between lwIP and JavaScript, and the two routines that
 * move data between that region and pbuf chains.
 */
module BindingBase {
  import opened Lwip

  /** The bytes of a pbuf chain, segment payloads concatenated in chain order. */
  function Flatten(chain: seq<Pbuf>): (s: seq<Byte>)
  {
    if chain == [] then [] else chain[0].payload + Flatten(chain[1..])
  }

  lemma {:induction false} FlattenAppend(a: seq<Pbuf>, b: seq<Pbuf>)
    ensures Flatten(a + b) == Flatten(a) + Flatten(b)
  {
    if a == [] {
      assert a + b == b;
    } else {
      assert (a + b)[1..] == a[1..] + b;
      FlattenAppend(a[1..], b);
    }
  }

  /** Flattening the chain one segment further appends that segment's payload. */
  lemma FlattenSnoc(chain: seq<Pbuf>, i: nat)
    requires i < |chain|
    ensures Flatten(chain[..i + 1]) == Flatten(chain[..i]) + chain[i].payload
  {
    assert chain[..i + 1] == chain[..i] + [chain[i]];
    FlattenAppend(chain[..i], [chain[i]]);
    assert Flatten([chain[i]]) == chain[i].payload + Flatten([]);
  }

  /**
   * How many leading segments of `chain` fit together into `room` bytes:
   * the segments lw_buffer_load_pbuf copies before it meets one that would
   * overflow the buffer.
   */
  function FittingSegments(chain: seq<Pbuf>, room: nat): (k: nat)
    ensures k <= |chain|
  {
    if chain == [] || |chain[0].payload| > room then 0
    else 1 + FittingSegments(chain[1..], room - |chain[0].payload|)
  }

  /**
   * The fitting prefix is as long as the copy loop gets: its bytes fit, and
   * when it stops short of the end, the next segment does not fit.
   */
  lemma {:induction false} FittingSegmentsBound(chain: seq<Pbuf>, room: nat)
    ensures var k := FittingSegments(chain, room);
      && |Flatten(chain[..k])| <= room
      && (k < |chain| ==> |Flatten(chain[..k])| + |chain[k].payload| > room)
  {
    if chain != [] && |chain[0].payload| <= room {
      var k := FittingSegments(chain, room);
      FittingSegmentsBound(chain[1..], room - |chain[0].payload|);
      assert chain[..k] == [chain[0]] + chain[1..][..k - 1];
      FlattenAppend([chain[0]], chain[1..][..k - 1]);
      assert Flatten([chain[0]]) == chain[0].payload + Flatten([]);
      if k < |chain| {
        assert chain[k] == chain[1..][k - 1];
      }
    } else {
      assert chain[..0] == [];
    }
  }

  /**
   * The converse: when the first `i` segments fit and segment `i` would
   * overflow the room, exactly `i` segments are copied.
   */
  lemma {:induction false} FittingSegmentsAt(chain: seq<Pbuf>, i: nat, room: nat)
    requires i < |chain|
    requires |Flatten(chain[..i])| <= room < |Flatten(chain[..i])| + |chain[i].payload|
    ensures FittingSegments(chain, room) == i
    decreases i
  {
    if i == 0 {
      assert chain[..0] == [];
    } else {
      assert chain[..i][0] == chain[0] && chain[..i][1..] == chain[1..][..i - 1];
      assert chain[1..][i - 1] == chain[i];
      FittingSegmentsAt(chain[1..], i - 1, room - |chain[0].payload|);
    }
  }

  /** The whole chain is copied exactly when its total length fits the room. */
  lemma {:induction false} FittingSegmentsAll(chain: seq<Pbuf>, room: nat)
    ensures FittingSegments(chain, room) == |chain| <==> |Flatten(chain)| <= room
  {
    if chain == [] {
    } else if |chain[0].payload| > room {
      assert |Flatten(chain)| == |chain[0].payload| + |Flatten(chain[1..])|;
    } else {
      FittingSegmentsAll(chain[1..], room - |chain[0].payload|);
    }
  }

  /** memcpy(dst + at, src, |src|): a plain copy, by a parallel assignment. */
  method MemCopy(dst: array<Byte>, at: nat, src: seq<Byte>)
    requires at + |src| <= dst.Length
    modifies dst
    ensures dst[at..at + |src|] == src
    ensures dst[..at] == old(dst[..at])
    ensures dst[at + |src|..] == old(dst[at + |src|..])
  {
    forall k | 0 <= k < |src| {
      dst[at + k] := src[k];
    }
  }

  /**
   * A region holding `done` followed by the rest of `orig`, after a copy of
   * `src` just behind `done`, holds `done + src` followed by the rest of `orig`.
   */
  lemma CopyExtends(before: seq<Byte>, after: seq<Byte>, orig: seq<Byte>, at: nat, src: seq<Byte>, done: seq<Byte>)
    requires |before| == |after| == |orig| && at + |src| <= |before| && |done| == at
    requires before == done + orig[at..]
    requires after[at..at + |src|] == src && after[..at] == before[..at]
    requires after[at + |src|..] == before[at + |src|..]
    ensures after == done + src + orig[at + |src|..]
  {
    assert after == after[..at] + after[at..at + |src|] + after[at + |src|..];
    assert before[..at] == done;
    assert before[at + |src|..] == orig[at + |src|..];
  }

  /** One step of the copy loop: `src` lands right behind the `done` prefix. */
  method AppendAt(dst: array<Byte>, at: nat, src: seq<Byte>, ghost done: seq<Byte>, ghost orig: seq<Byte>)
    requires at + |src| <= dst.Length && |orig| == dst.Length && |done| == at
    requires dst[..] == done + orig[at..]
    modifies dst
    ensures dst[..] == done + src + orig[at + |src|..]
  {
    ghost var before := dst[..];
    MemCopy(dst, at, src);
    CopyExtends(before, dst[..], orig, at, src, done);
  }

  /**
   * The copy loop of `load_pbuf`: segment after segment is appended to the
   * region until one would overflow it. `fits` says the whole chain went in;
   * in every case the region starts with the fitting prefix of the chain.
   */
  method CopyChain(dst: array<Byte>, chain: seq<Pbuf>) returns (fits: bool, copied: nat)
    requires dst.Length == BufferCapacity
    modifies dst
    ensures fits <==> |Flatten(chain)| <= BufferCapacity
    ensures fits ==> copied == |Flatten(chain)|
    ensures var prefix := Flatten(chain[..FittingSegments(chain, BufferCapacity)]);
      && |prefix| <= BufferCapacity
      && dst[..] == prefix + old(dst[..])[|prefix|..]
  {
    ghost var orig := dst[..];
    FittingSegmentsAll(chain, BufferCapacity);
    var i := 0;
    copied := 0;
    ghost var done: seq<Byte> := [];
    assert chain[..0] == [];
    while i < |chain|
      invariant 0 <= i <= |chain| && done == Flatten(chain[..i])
      invariant copied == |done| <= BufferCapacity
      invariant dst[..] == done + orig[copied..]
    {
      var len := |chain[i].payload|;
      if copied + len > BufferCapacity {
        FittingSegmentsAt(chain, i, BufferCapacity);
        return false, copied;
      }
      AppendAt(dst, copied, chain[i].payload, done, orig);
      FlattenSnoc(chain, i);
      done := done + chain[i].payload;
      copied := copied + len;
      i := i + 1;
    }
    assert chain[..i] == chain;
    return true, copied;
  }

  /** The static `buffer` and `buffer_length` of the binding. */
  class SharedBuffer {
    const data: array<Byte>
    var length: int

    ghost predicate Valid()
      reads this
    {
      data.Length == BufferCapacity && 0 <= length <= BufferCapacity
    }

    /** The payload currently held: the first `length` bytes of the region. */
    function Contents(): (s: seq<Byte>)
      requires Valid()
      reads this, data
      ensures |s| == length
    {
      data[..length]
    }

    /** Static storage starts zeroed, with `buffer_length = 0`. */
    constructor ()
      ensures Valid() && fresh(data) && Contents() == []
    {
      data := new Byte[BufferCapacity](_ => 0);
      length := 0;
    }

    /** lw_buffer_ptr: always the one fixed region of LW_BUFFER_CAPACITY bytes. */
    method Ptr() returns (p: array<Byte>)
      requires Valid()
      ensures p == data && p.Length == BufferCapacity
    {
      p := data;
    }

    /** lw_buffer_set_length: records a new length and touches no byte. */
    method SetLength(n: int)
      requires Valid() && 0 <= n <= BufferCapacity
      modifies this`length
      ensures Valid() && length == n
    {
      length := n;
    }

    /** lw_buffer_get_length: the length most recently recorded. */
    method GetLength() returns (n: int)
      requires Valid()
      ensures n == length && 0 <= n <= BufferCapacity
    {
      n := length;
    }

    /**
     * lw_buffer_make_pbuf: a new pbuf holding the current contents, or none
     * when the buffer is empty, when `pbuf_alloc` fails (`allocOk` false) or
     * when `pbuf_take` fails (`takeOk` false; the pbuf is freed again).
     */
    method MakePbuf(allocOk: bool, takeOk: bool) returns (p: Pbuf?)
      requires Valid()
      ensures length <= 0 ==> p == null
      ensures p != null <==> length > 0 && allocOk && takeOk
      ensures p != null ==> fresh(p) && p.payload == Contents() && p.ref == 1
    {
      if length <= 0 {
        return null;
      }
      if !allocOk {
        return null;
      }
      if !takeOk {
        return null;
      }
      p := new Pbuf(data[..length]);
    }

    /**
     * lw_buffer_load_pbuf: copies the segments of `chain` one after the other
     * to the start of the region. It stops with ERR_BUF before the first
     * segment that would overflow the region, leaving `length` as it was
     * (the segments already copied stay in the region); otherwise it records
     * the total length and returns ERR_OK.
     */
    method LoadPbuf(chain: seq<Pbuf>) returns (err: int)
      requires Valid()
      modifies this`length, data
      ensures Valid()
      ensures err == ERR_OK || err == ERR_BUF
      ensures err == ERR_OK <==> |Flatten(chain)| <= BufferCapacity
      ensures err == ERR_OK ==> Contents() == Flatten(chain)
      ensures err == ERR_BUF ==> length == old(length)
      ensures var copied := Flatten(chain[..FittingSegments(chain, BufferCapacity)]);
        && |copied| <= BufferCapacity
        && data[..] == copied + old(data[..])[|copied|..]
    {
      var fits, copied := CopyChain(data, chain);
      if !fits {
        return ERR_BUF;
      }
      FittingSegmentsAll(chain, BufferCapacity);
      assert chain[..|chain|] == chain;
      length := copied;
      assert Contents() == data[..][..copied];
      return ERR_OK;
    }
  }
}
