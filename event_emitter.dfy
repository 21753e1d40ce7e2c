/**
 * The EventEmitter every socket extends: a map from event type to a set of
 * listeners. A JavaScript Set keeps its elements once each, in the order
 * they were first added, so each set is modelled as a duplicate-free
 * sequence. Listeners are identified by ids; which of them throw when
 * called is an input of an emission.
 */
module Events {

  type ListenerId = nat

  predicate NoDuplicates(s: seq<ListenerId>) {
    forall i, j | 0 <= i < j < |s| :: s[i] != s[j]
  }

  /** `set.delete(x)`: `s` without `x`, the others kept in their order. */
  function Without(s: seq<ListenerId>, x: ListenerId): (r: seq<ListenerId>)
    ensures x !in r
    ensures forall y | y != x :: y in r <==> y in s
    ensures NoDuplicates(s) ==> NoDuplicates(r)
    ensures x !in s ==> r == s
  {
    if s == [] then []
    else if s[0] == x then Without(s[1..], x)
    else
      var r := Without(s[1..], x);
      assert NoDuplicates(s) ==> s[0] !in s[1..];
      [s[0]] + r
  }

  /**
   * `Set.delete` keeps the others in their insertion order: deleting the
   * listener at position `k` closes the gap it leaves.
   */
  lemma {:induction false} WithoutKeepsOrder(s: seq<ListenerId>, x: ListenerId, k: nat)
    requires NoDuplicates(s) && k < |s| && s[k] == x
    ensures Without(s, x) == s[..k] + s[k + 1..]
  {
    forall j | 0 <= j < |s| && j != k ensures s[j] != x {
      if j < k { assert s[j] != s[k]; } else { assert s[k] != s[j]; }
    }
    WithoutAt(s, x, k);
  }

  /** The induction behind `WithoutKeepsOrder`, for an `x` found only at `k`. */
  lemma {:induction false} WithoutAt(s: seq<ListenerId>, x: ListenerId, k: nat)
    requires k < |s| && s[k] == x
    requires forall j | 0 <= j < |s| && j != k :: s[j] != x
    ensures Without(s, x) == s[..k] + s[k + 1..]
  {
    var tail := s[1..];
    if k == 0 {
      forall j | 0 <= j < |tail| ensures tail[j] != x {
        assert tail[j] == s[j + 1];
      }
      assert Without(s, x) == Without(tail, x);
    } else {
      forall j | 0 <= j < |tail| && j != k - 1 ensures tail[j] != x {
        assert tail[j] == s[j + 1];
      }
      WithoutAt(tail, x, k - 1);
      assert Without(s, x) == [s[0]] + Without(tail, x);
      assert s[..k] == [s[0]] + tail[..k - 1];
      assert s[k + 1..] == tail[k..];
    }
  }

  /**
   * The listeners an emission calls, in order: all of them, or, when one
   * throws, those up to and including the first that throws.
   */
  function CallTrace(ls: seq<ListenerId>, throws: set<ListenerId>): (t: seq<ListenerId>)
    ensures |t| <= |ls|
    ensures |t| < |ls| ==> |t| > 0 && t[|t| - 1] in throws
  {
    if ls == [] then []
    else if ls[0] in throws then [ls[0]]
    else [ls[0]] + CallTrace(ls[1..], throws)
  }

  /** Listeners are called in insertion order: the trace is a prefix of the set. */
  lemma {:induction false} CallTracePrefix(ls: seq<ListenerId>, throws: set<ListenerId>)
    ensures CallTrace(ls, throws) <= ls
  {
    if ls != [] && ls[0] !in throws {
      CallTracePrefix(ls[1..], throws);
    }
  }

  /** Each listener is called at most once (the set holds it once). */
  lemma CallTraceOnce(ls: seq<ListenerId>, throws: set<ListenerId>)
    requires NoDuplicates(ls)
    ensures NoDuplicates(CallTrace(ls, throws))
  {
    var t := CallTrace(ls, throws);
    CallTracePrefix(ls, throws);
    forall i, j | 0 <= i < j < |t| ensures t[i] != t[j] {
      assert t[i] == ls[i] && t[j] == ls[j];
    }
  }

  /** Only the last listener called can have thrown: a throw ends the emission. */
  lemma {:induction false} CallTraceStopsAtThrow(ls: seq<ListenerId>, throws: set<ListenerId>)
    ensures forall i | 0 <= i < |CallTrace(ls, throws)| - 1 :: CallTrace(ls, throws)[i] !in throws
  {
    if ls != [] && ls[0] !in throws {
      CallTraceStopsAtThrow(ls[1..], throws);
      var t, rest := CallTrace(ls, throws), CallTrace(ls[1..], throws);
      assert t == [ls[0]] + rest;
      forall i | 0 <= i < |t| - 1 ensures t[i] !in throws {
        if i > 0 {
          assert t[i] == rest[i - 1];
        }
      }
    }
  }

  /** With no throwing listener, every listener is called. */
  lemma {:induction false} CallTraceComplete(ls: seq<ListenerId>, throws: set<ListenerId>)
    requires forall l | l in ls :: l !in throws
    ensures CallTrace(ls, throws) == ls
  {
    if ls != [] {
      CallTraceComplete(ls[1..], throws);
    }
  }

  /** With a throwing listener, the emission ends with a listener that threw. */
  lemma {:induction false} CallTraceEndsInThrow(ls: seq<ListenerId>, throws: set<ListenerId>)
    requires exists l | l in ls :: l in throws
    ensures var t := CallTrace(ls, throws); |t| > 0 && t[|t| - 1] in throws
  {
    if ls[0] !in throws {
      var l :| l in ls && l in throws;
      assert l in ls[1..];
      CallTraceEndsInThrow(ls[1..], throws);
    }
  }

  class EventEmitter {
    var listeners: map<string, seq<ListenerId>>

    ghost predicate Valid()
      reads this
    {
      forall t | t in listeners :: NoDuplicates(listeners[t])
    }

    /** The listeners registered for `type`, in insertion order. */
    function Registered(eventType: string): seq<ListenerId>
      reads this
    {
      if eventType in listeners then listeners[eventType] else []
    }

    constructor ()
      ensures Valid() && listeners == map[]
    {
      listeners := map[];
    }

    /**
     * `on(type, l)`: creates the set for `type` if needed and adds `l` to it;
     * a listener already there keeps its single place.
     */
    method On(eventType: string, l: ListenerId)
      requires Valid()
      modifies this
      ensures Valid()
      ensures eventType in listeners && l in listeners[eventType]
      ensures l in old(Registered(eventType)) ==> listeners == old(listeners)
      ensures l !in old(Registered(eventType)) ==>
        listeners == old(listeners)[eventType := old(Registered(eventType)) + [l]]
    {
      var s := if eventType in listeners then listeners[eventType] else [];
      if eventType !in listeners {
        listeners := listeners[eventType := s];
      }
      if l !in s {
        listeners := listeners[eventType := s + [l]];
      }
    }

    /**
     * `off(type, l)`: removes `l` from the set of `type` when that set
     * exists; an unknown type or listener changes nothing.
     */
    method Off(eventType: string, l: ListenerId)
      requires Valid()
      modifies this
      ensures Valid()
      ensures l !in Registered(eventType)
      ensures eventType in old(listeners) ==> listeners == old(listeners)[eventType := Without(old(listeners[eventType]), l)]
      ensures eventType !in old(listeners) ==> listeners == old(listeners)
      ensures l !in old(Registered(eventType)) ==> listeners == old(listeners)
    {
      if eventType in listeners {
        listeners := listeners[eventType := Without(listeners[eventType], l)];
      }
    }

    /**
     * `_emit(type, event)`: calls the listeners of `type` one after the other
     * and stops at the first that throws, whose exception escapes.
     */
    method Emit(eventType: string, throws: set<ListenerId>) returns (called: seq<ListenerId>, threw: bool)
      requires Valid()
      ensures called == CallTrace(Registered(eventType), throws)
      ensures threw <==> exists l | l in Registered(eventType) :: l in throws
      ensures threw ==> |called| > 0 && called[|called| - 1] in throws
    {
      called, threw := [], false;
      var ls := Registered(eventType);
      var i := 0;
      while i < |ls|
        invariant 0 <= i <= |ls|
        invariant forall k | 0 <= k < i :: ls[k] !in throws
        invariant CallTrace(ls, throws) == called + CallTrace(ls[i..], throws)
      {
        assert ls[i..][0] == ls[i] && ls[i..][1..] == ls[i + 1..];
        called := called + [ls[i]];
        if ls[i] in throws {
          threw := true;
          assert ls[i] in ls;
          return;
        }
        i := i + 1;
      }
      assert ls[i..] == [];
      forall l | l in ls ensures l !in throws {
        var k :| 0 <= k < |ls| && ls[k] == l;
      }
    }

    /**
     * `_emitNoExc(type, event)`: the same calls, but an exception thrown by a
     * listener is caught and logged; nothing escapes.
     */
    method EmitNoExc(eventType: string, throws: set<ListenerId>) returns (called: seq<ListenerId>)
      requires Valid()
      ensures called == CallTrace(Registered(eventType), throws)
    {
      var threw;
      called, threw := Emit(eventType, throws);
    }
  }
}
