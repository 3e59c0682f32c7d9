/**
 * GameEvent, InterfaceGameEvent and GameEventHandler: events hold lists
 * of listeners and notify them from the last registered to the first; a
 * handler lives on an InterfaceGameEvent and, by default, deregisters
 * itself the first time the event reaches it.
 *
 * What a listener's response or a handler's node does when it runs is not
 * modelled: Raise returns, in order, the listeners it reached.
 */
module GameEvents {
  import opened Wrappers
  import opened ListenerLists

  /** A GameEventListener component; only its identity matters to an event. */
  class GameEventListener {
    constructor ()
    {
    }
  }

  /** GameEvent: a list of GameEventListeners. */
  class GameEvent {
    var eventListeners: seq<GameEventListener>

    ghost predicate Valid()
      reads this
    {
      NoDuplicates(eventListeners)
    }

    constructor ()
      ensures Valid() && eventListeners == []
    {
      eventListeners := [];
    }

    /** Raise: every registered listener once, the last registered first; the list is untouched. */
    method Raise() returns (notified: seq<GameEventListener>)
      ensures notified == Reversed(eventListeners)
    {
      notified := [];
      var i := |eventListeners| - 1;
      while i >= 0
        invariant -1 <= i < |eventListeners|
        invariant notified == Reversed(eventListeners[i + 1..])
        decreases i + 1
      {
        assert eventListeners[i..][1..] == eventListeners[i + 1..];
        notified := notified + [eventListeners[i]];
        i := i - 1;
      }
    }

    method RegisterListener(listener: GameEventListener)
      requires Valid()
      modifies this
      ensures Valid()
      ensures eventListeners == Registered(old(eventListeners), listener)
    {
      RegisteredNoDuplicates(eventListeners, listener);
      if listener !in eventListeners {
        eventListeners := eventListeners + [listener];
      }
    }

    method UnregisterListener(listener: GameEventListener)
      requires Valid()
      modifies this
      ensures Valid()
      ensures eventListeners == RemoveFirst(old(eventListeners), listener)
      ensures listener !in eventListeners
    {
      UnregisterFacts(eventListeners, listener);
      if listener in eventListeners {
        eventListeners := RemoveFirst(eventListeners, listener);
      }
    }
  }

  /** The handlers a raise leaves registered: those that do not deregister on execute. */
  function Kept(s: seq<GameEventHandler>): seq<GameEventHandler>
  {
    if |s| == 0 then []
    else (if s[0].deregisterOnExecute then [] else [s[0]]) + Kept(s[1..])
  }

  /** One step of Raise on the list as it stands when the walk reaches index i. */
  lemma RaiseStep(s: seq<GameEventHandler>, i: nat)
    requires i < |s|
    ensures var before := s[..i + 1] + Kept(s[i + 1..]);
      && before[i] == s[i]
      && before[..i] == s[..i] && before[i + 1..] == Kept(s[i + 1..])
      && (s[i].deregisterOnExecute ==> before[..i] + before[i + 1..] == s[..i] + Kept(s[i..]))
      && (!s[i].deregisterOnExecute ==> before == s[..i] + Kept(s[i..]))
      && Reversed(s[i..]) == Reversed(s[i + 1..]) + [s[i]]
  {
    var before := s[..i + 1] + Kept(s[i + 1..]);
    assert s[i..][1..] == s[i + 1..];
    assert s[..i + 1] == s[..i] + [s[i]];
  }

  /**
   * InterfaceGameEvent: it has its own list of handlers, separate from the
   * list it inherits from GameEvent (`baseListeners`, which the inherited
   * RegisterListener overload still writes to); its Raise only walks its
   * own list.
   */
  class InterfaceGameEvent {
    var baseListeners: seq<GameEventListener>
    var eventListeners: seq<GameEventHandler>

    /** No duplicates, and every handler on the list is bound to this event (as Register puts it there). */
    ghost predicate Valid()
      reads this
    {
      && NoDuplicates(baseListeners) && NoDuplicates(eventListeners)
      && forall i :: 0 <= i < |eventListeners| ==> eventListeners[i].gameEvent == this
    }

    constructor ()
      ensures Valid() && baseListeners == [] && eventListeners == []
    {
      baseListeners := [];
      eventListeners := [];
    }

    /** The GameEventListener overload inherited from GameEvent: it writes the base list. */
    method RegisterBaseListener(listener: GameEventListener)
      requires Valid()
      modifies this
      ensures Valid()
      ensures baseListeners == Registered(old(baseListeners), listener)
      ensures eventListeners == old(eventListeners)
    {
      RegisteredNoDuplicates(baseListeners, listener);
      if listener !in baseListeners {
        baseListeners := baseListeners + [listener];
      }
    }

    method RegisterListener(listener: GameEventHandler)
      requires Valid()
      modifies this
      ensures listener.gameEvent == this ==> Valid()
      ensures eventListeners == Registered(old(eventListeners), listener)
      ensures baseListeners == old(baseListeners)
    {
      RegisteredNoDuplicates(eventListeners, listener);
      if listener !in eventListeners {
        eventListeners := eventListeners + [listener];
      }
    }

    method UnregisterListener(listener: GameEventHandler)
      requires Valid()
      modifies this
      ensures Valid()
      ensures eventListeners == RemoveFirst(old(eventListeners), listener)
      ensures listener !in eventListeners
      ensures baseListeners == old(baseListeners)
    {
      UnregisterFacts(eventListeners, listener);
      RemoveFirstElements(eventListeners, listener);
      if listener in eventListeners {
        eventListeners := RemoveFirst(eventListeners, listener);
        forall i | 0 <= i < |eventListeners| ensures eventListeners[i].gameEvent == this {
          assert eventListeners[i] in old(eventListeners);
        }
      }
    }

    /**
     * Raise: the handlers run from the last registered to the first; one
     * that deregisters on execute removes itself while the walk goes on,
     * which only shifts the part already walked, so none is skipped. The
     * base list is not notified.
     */
    method Raise() returns (executed: seq<GameEventHandler>)
      requires Valid()
      modifies this
      ensures Valid()
      ensures executed == Reversed(old(eventListeners))
      ensures eventListeners == Kept(old(eventListeners))
      ensures baseListeners == old(baseListeners)
    {
      ghost var s := eventListeners;
      executed := [];
      var i := |eventListeners| - 1;
      while i >= 0
        invariant -1 <= i < |s|
        invariant Valid() && baseListeners == old(baseListeners)
        invariant eventListeners == s[..i + 1] + Kept(s[i + 1..])
        invariant executed == Reversed(s[i + 1..])
        decreases i + 1
      {
        RaiseStep(s, i);
        var handler := eventListeners[i];
        assert handler.gameEvent == this;
        ghost var before := eventListeners;
        RemoveFirstAt(before, i);
        var r := handler.OnEventRaised();
        executed := executed + [handler];
        i := i - 1;
      }
      assert s[0..] == s;
    }
  }

  /** GameEventHandler: runs its node when its event is raised. */
  class GameEventHandler {
    const gameEvent: InterfaceGameEvent?
    const deregisterOnExecute: bool

    /** A handler on `gameEvent`; the serialized default of deregisterOnExecute is true. */
    constructor (gameEvent: InterfaceGameEvent?, deregisterOnExecute: bool)
      ensures this.gameEvent == gameEvent && this.deregisterOnExecute == deregisterOnExecute
    {
      this.gameEvent := gameEvent;
      this.deregisterOnExecute := deregisterOnExecute;
    }

    /** Register (OnEnable): a MissingReferenceException without an event. */
    method Register() returns (r: Outcome<string>)
      requires gameEvent != null ==> gameEvent.Valid()
      modifies if gameEvent != null then {gameEvent} else {}
      ensures gameEvent == null <==> r.Fail?
      ensures gameEvent != null ==>
        && gameEvent.Valid()
        && gameEvent.eventListeners == Registered(old(gameEvent.eventListeners), this)
        && gameEvent.baseListeners == old(gameEvent.baseListeners)
    {
      if gameEvent == null {
        return Fail("MissingReferenceException");
      }
      gameEvent.RegisterListener(this);
      r := Pass;
    }

    /** Deregister (OnDisable): a MissingReferenceException without an event. */
    method Deregister() returns (r: Outcome<string>)
      requires gameEvent != null ==> gameEvent.Valid()
      modifies if gameEvent != null then {gameEvent} else {}
      ensures gameEvent == null <==> r.Fail?
      ensures gameEvent != null ==>
        && gameEvent.Valid()
        && gameEvent.eventListeners == RemoveFirst(old(gameEvent.eventListeners), this)
        && gameEvent.baseListeners == old(gameEvent.baseListeners)
    {
      if gameEvent == null {
        return Fail("MissingReferenceException");
      }
      gameEvent.UnregisterListener(this);
      r := Pass;
    }

    /**
     * OnEventRaised: deregister first when deregisterOnExecute is set,
     * then execute the node (Pass); a failed deregistration throws before
     * the node runs.
     */
    method OnEventRaised() returns (r: Outcome<string>)
      requires gameEvent != null ==> gameEvent.Valid()
      modifies if gameEvent != null then {gameEvent} else {}
      ensures r.Fail? <==> deregisterOnExecute && gameEvent == null
      ensures gameEvent != null ==> gameEvent.Valid() && gameEvent.baseListeners == old(gameEvent.baseListeners)
      ensures gameEvent != null && deregisterOnExecute ==>
        gameEvent.eventListeners == RemoveFirst(old(gameEvent.eventListeners), this)
      ensures gameEvent != null && !deregisterOnExecute ==> gameEvent.eventListeners == old(gameEvent.eventListeners)
    {
      if deregisterOnExecute {
        r := Deregister();
        if r.Fail? {
          return;
        }
      }
      r := Pass;
    }
  }

  lemma {:induction false} KeptIdempotent(s: seq<GameEventHandler>)
    ensures Kept(Kept(s)) == Kept(s)
  {
    if |s| > 0 {
      KeptIdempotent(s[1..]);
      var t := Kept(s[1..]);
      if s[0].deregisterOnExecute {
        assert Kept(s) == t;
      } else {
        var k := [s[0]] + t;
        assert Kept(s) == k;
        assert k[0] == s[0] && k[1..] == t;
      }
    }
  }

  /**
   * Raising twice: a handler that deregisters on execute runs once in all;
   * one that does not stays registered and runs both times.
   */
  lemma RaiseTwice(s: seq<GameEventHandler>, h: GameEventHandler)
    requires NoDuplicates(s) && h in s
    ensures h.deregisterOnExecute ==> Count(Reversed(s) + Reversed(Kept(s)), h) == 1
    ensures !h.deregisterOnExecute ==> Count(Reversed(s) + Reversed(Kept(s)), h) == 2
    ensures Kept(Kept(s)) == Kept(s)
  {
    CountAppend(Reversed(s), Reversed(Kept(s)), h);
    CountReversed(s, h);
    CountReversed(Kept(s), h);
    CountNoDuplicates(s, h);
    KeptCount(s, h);
    KeptIdempotent(s);
  }

  lemma {:induction false} KeptCount(s: seq<GameEventHandler>, h: GameEventHandler)
    ensures Count(Kept(s), h) == if h.deregisterOnExecute then 0 else Count(s, h)
  {
    if |s| > 0 {
      KeptCount(s[1..], h);
      CountAppend(if s[0].deregisterOnExecute then [] else [s[0]], Kept(s[1..]), h);
    }
  }
}
