/** Whole runs of the asynchronous client. */
module AsyncSession {
  import opened CallbackList
  import opened AsyncModel
  import opened AsyncLedger
  import opened Async

  /** A context taken through the events, as long as it is alive. */
  method Drive(behaviour: Behaviour, events: seq<Event>) returns (c: AsyncContext)
    ensures fresh(c) && c.Valid() && c.Value() == After(behaviour, events)
  {
    c := new AsyncContext(behaviour);
    var i := 0;
    assert events[..0] == [];
    while i < |events| && c.outcome == Alive
      invariant i <= |events| && fresh(c) && fresh(c.replies.Repr) && c.Valid() && !c.inCallback
      invariant c.behaviour == behaviour && c.Value() == After(behaviour, events[..i])
      decreases |events| - i
    {
      OneMoreEvent(behaviour, events, i);
      c.Handle(events[i]);
      i := i + 1;
    }
    if c.outcome != Alive {
      RunStops(behaviour, events, i);
    } else {
      assert events[..i] == events;
    }
  }

  /** Any run from a new context, with callbacks that do whatever they like: the context follows the
      model, so the k-th reply of the server went to the k-th issued callback, every issued callback has
      been answered, orphaned or still waits, and none waits once the context is freed. It aborts
      exactly when one of its reads meets a reply nobody asked for, or cuts off a waiting callback.
      The issued callbacks, the end of the context and its flags are what the calls of application and
      callbacks call for, in their order. */
  method Session(behaviour: Behaviour, events: seq<Event>) returns (c: AsyncContext)
    ensures fresh(c) && c.Valid() && c.Value() == After(behaviour, events)
    ensures InOrder(c.Value()) && c.received <= Arrived(events)
    ensures c.outcome == Alive ==> c.received == Arrived(events) && c.orphans == []
    ensures c.outcome == Freed ==> c.Value().waiting == []
    ensures c.outcome == Aborted <==> exists i | 0 <= i < |events| :: AbortsAt(behaviour, events, i)
    ensures var l := Booked(behaviour, events);
            && c.issued == Accepted(l.made) && c.outcome == l.outcome && |c.received| == l.heard
            && (c.outcome == Alive ==>
                  && c.disconnecting == (Disconnect in l.made) && Free !in l.made
                  && c.unsent == (l.sent < |c.issued|))
  {
    c := Drive(behaviour, events);
    FirstInFirstOut(behaviour, events);
    RunAborts(behaviour, events);
    LedgerKept(behaviour, events);
  }

  /** The clean-disconnect assertion does not follow from its guard: disconnect while a reply is
      outstanding, flush the output, and have the socket become readable without that reply. */
  method OutstandingReplyAborts(cb: Callback) returns (c: AsyncContext)
    ensures c.outcome == Aborted
  {
    c := new AsyncContext(_ => []);
    var _ := c.Command(cb);
    c.Call(Disconnect);
    c.unsent := false;
    c.ProcessCallbacks([], false);
  }
}
