/** The asynchronous context as async.cc updates it in place, over its linked list of callbacks. */
module Async {
  import opened CallbackList
  import opened AsyncModel

  class AsyncContext {
    const behaviour: Behaviour
    const replies: Queue
    var disconnecting: bool
    var freeing: bool
    var inCallback: bool
    var err: bool
    var unsent: bool
    var outcome: Outcome
    var log: seq<Run>

    ghost var issued: seq<Callback>
    ghost var answered: seq<Callback>
    ghost var received: seq<Reply>
    ghost var orphans: seq<Callback>

    ghost predicate Valid()
      reads this, replies, replies.Repr
    {
      this !in replies.Repr && replies.Valid()
    }

    ghost function Value(): (c: Context)
      reads this, replies
    {
      Context(replies.contents, disconnecting, freeing, err, unsent, outcome, log, issued, answered, received, orphans)
    }

    constructor (behaviour: Behaviour)
      ensures Valid() && Value() == NEW && !inCallback && this.behaviour == behaviour
      ensures fresh(replies.Repr)
    {
      this.behaviour := behaviour;
      replies := new Queue();
      disconnecting, freeing, inCallback, err, unsent := false, false, false, false, false;
      outcome, log := Alive, [];
      issued, answered, received, orphans := [], [], [], [];
    }

    /** __redisAsyncCommand */
    method Command(cb: Callback) returns (ok: bool)
      requires Valid()
      modifies this`unsent, this`issued, replies.Repr
      ensures Valid() && Value() == Issued(old(Value()), cb)
      ensures ok == !(old(disconnecting) || old(freeing))
      ensures ok ==> replies.contents == old(replies.contents) + [cb] && issued == old(issued) + [cb] && unsent
      ensures !ok ==> replies.contents == old(replies.contents) && issued == old(issued) && unsent == old(unsent)
      ensures fresh(replies.Repr - old(replies.Repr))
    {
      ok := !(disconnecting || freeing);
      if ok {
        replies.Push(cb);
        issued := issued + [cb];
        unsent := true;
      }
    }

    /** A call from inside a callback. */
    method Note(call: Call)
      requires Valid() && inCallback
      modifies this`unsent, this`issued, this`freeing, this`disconnecting, replies.Repr
      ensures Valid() && Value() == Noted(old(Value()), call)
      ensures fresh(replies.Repr - old(replies.Repr))
    {
      match call {
        case Issue(cb) => var _ := Command(cb);
        case Free => freeing := true;
        case Disconnect => disconnecting := true;
      }
    }

    /** What the body of a callback calls, one call after the other. */
    method NoteAll(calls: seq<Call>)
      requires Valid() && inCallback
      modifies this`unsent, this`issued, this`freeing, this`disconnecting, replies.Repr
      ensures Valid() && Value() == NotedAll(old(Value()), calls)
      ensures fresh(replies.Repr - old(replies.Repr))
    {
      assert calls[..0] == [];
      for i := 0 to |calls|
        invariant Valid() && Value() == NotedAll(old(Value()), calls[..i])
        invariant fresh(replies.Repr - old(replies.Repr))
      {
        assert calls[..i + 1][..i] == calls[..i];
        Note(calls[i]);
      }
      assert calls[..|calls|] == calls;
    }

    /** __redisRunCallback: the callback may issue commands and set the closing flags, but nothing
        else happens before it returns. */
    method RunCallback(run: Run)
      requires Valid() && !inCallback
      modifies this, replies.Repr
      ensures Valid() && !inCallback && Value() == Ran(behaviour, old(Value()), run)
      ensures fresh(replies.Repr - old(replies.Repr))
    {
      if run.cb.hasFn {
        inCallback := true;
        var calls := behaviour(|log|);
        log := log + [run];
        NoteAll(calls);
        inCallback := false;
      }
    }

    /** One turn of the loop in __redisAsyncFree. */
    method FreeOne() returns (more: bool)
      requires Valid() && !inCallback
      modifies this, replies.Repr
      ensures Valid() && !inCallback && more == (old(Value()).waiting != [])
      ensures Value() == if more then OrphanFirst(behaviour, old(Value())) else old(Value())
      ensures !Closing(old(Value())) ||
              (&& Closing(Value()) && TornDown(behaviour, Value()) == TornDown(behaviour, old(Value()))
               && |replies.contents| == if more then |old(replies.contents)| - 1 else 0)
      ensures fresh(replies.Repr - old(replies.Repr))
    {
      var cb;
      more, cb := replies.Shift();
      if more {
        orphans := orphans + [cb];
        RunCallback(WithNull(cb));
      }
    }

    /** The loop of __redisAsyncFree: every callback still waiting runs with NULL. */
    method FreeAll()
      requires Valid() && !inCallback && Closing(Value())
      modifies this, replies.Repr
      ensures Valid() && !inCallback && Closing(Value()) && replies.contents == []
      ensures TornDown(behaviour, Value()) == TornDown(behaviour, old(Value()))
      ensures fresh(replies.Repr - old(replies.Repr))
    {
      var more := FreeOne();
      while more
        invariant Valid() && !inCallback && Closing(Value()) && fresh(replies.Repr - old(replies.Repr))
        invariant TornDown(behaviour, Value()) == TornDown(behaviour, old(Value()))
        invariant more || replies.contents == []
        decreases more, |replies.contents|
      {
        more := FreeOne();
      }
    }

    /** __redisAsyncFree */
    method TearDown()
      requires Valid() && !inCallback && Closing(Value())
      modifies this, replies.Repr
      ensures Valid() && !inCallback && Value() == TornDown(behaviour, old(Value()))
      ensures fresh(replies.Repr - old(replies.Repr))
    {
      FreeAll();
      outcome := Freed;
    }

    /** __redisAsyncDisconnect; the no-pending assertion is the first branch. */
    method AsyncDisconnect()
      requires Valid() && !inCallback && (err || Closing(Value()))
      modifies this, replies.Repr
      ensures Valid() && !inCallback && Value() == Disconnected(behaviour, old(Value()))
      ensures fresh(replies.Repr - old(replies.Repr))
    {
      if !err && replies.head != null {
        outcome := Aborted;
      } else {
        if err {
          disconnecting := true;
        }
        TearDown();
      }
    }

    /** redisAsyncFree, redisAsyncDisconnect or a command, called by the application between events. */
    method Call(call: Call)
      requires Valid() && !inCallback
      modifies this, replies.Repr
      ensures Valid() && !inCallback && Value() == Called(behaviour, old(Value()), call)
      ensures fresh(replies.Repr - old(replies.Repr))
    {
      match call {
        case Issue(cb) =>
          var _ := Command(cb);
        case Free =>
          freeing := true;
          TearDown();
        case Disconnect =>
          disconnecting := true;
          if replies.head == null {
            AsyncDisconnect();
          }
      }
    }

    /** The oldest waiting callback, if any, is taken off the list for the reply. */
    method TakeFirst(reply: Reply) returns (ok: bool, cb: Callback)
      requires Valid()
      modifies this`answered, this`received, replies
      ensures Valid() && replies.Repr == old(replies.Repr)
      ensures var c := old(Value());
              && ok == (c.waiting != [])
              && (ok ==> cb == c.waiting[0])
              && Value() == if ok then c.(waiting := c.waiting[1..], answered := c.answered + [cb], received := c.received + [reply])
                            else c
    {
      ok, cb := replies.Shift();
      if ok {
        answered, received := answered + [cb], received + [reply];
      }
    }

    /** The oldest waiting callback, if any, gets the reply. */
    method AnswerOne(reply: Reply) returns (ok: bool, hasFn: bool)
      requires Valid() && !inCallback
      modifies this, replies.Repr
      ensures Valid() && !inCallback && ok == (old(Value()).waiting != [])
      ensures ok ==> hasFn == old(Value()).waiting[0].hasFn
      ensures Value() == if ok then AnswerFirst(behaviour, old(Value()), reply) else old(Value())
      ensures fresh(replies.Repr - old(replies.Repr))
    {
      var cb;
      ok, cb := TakeFirst(reply);
      hasFn := cb.hasFn;
      if ok {
        RunCallback(WithReply(cb, reply));
      }
    }

    /** One turn of the loop in redisProcessCallbacks, for a reply the reader completed. */
    method Dispatch(reply: Reply)
      requires Valid() && !inCallback
      modifies this, replies.Repr
      ensures Valid() && !inCallback && Value() == Dispatched(behaviour, old(Value()), reply)
      ensures fresh(replies.Repr - old(replies.Repr))
    {
      var ok, hasFn := AnswerOne(reply);
      if ok {
        if hasFn && freeing {
          TearDown();
        }
      } else if reply.isError {
        err := true;
        AsyncDisconnect();
      } else {
        outcome := Aborted;
      }
    }

    /** redisProcessCallbacks: the replies the reader has, then either nothing more or an error. */
    method ProcessCallbacks(incoming: seq<Reply>, broken: bool)
      requires Valid() && !inCallback && outcome == Alive
      modifies this, replies.Repr
      ensures Valid() && !inCallback && Value() == Processed(behaviour, old(Value()), incoming, broken)
      ensures fresh(replies.Repr - old(replies.Repr))
    {
      assert incoming[..0] == [];
      var i := 0;
      while i < |incoming| && outcome == Alive
        invariant i <= |incoming| && Valid() && !inCallback && fresh(replies.Repr - old(replies.Repr))
        invariant Value() == DispatchedAll(behaviour, old(Value()), incoming[..i])
        decreases |incoming| - i
      {
        assert incoming[..i + 1][..i] == incoming[..i];
        Dispatch(incoming[i]);
        i := i + 1;
      }
      if outcome == Alive {
        assert incoming[..i] == incoming;
        if broken {
          err := true;
          AsyncDisconnect();
        } else if disconnecting && !unsent {
          AsyncDisconnect();
        }
      } else {
        DispatchedStops(behaviour, old(Value()), incoming, i);
      }
    }

    method Handle(event: Event)
      requires Valid() && !inCallback && outcome == Alive
      modifies this, replies.Repr
      ensures Valid() && !inCallback && Value() == AfterEvent(behaviour, old(Value()), event)
      ensures fresh(replies.Repr - old(replies.Repr))
    {
      match event {
        case App(call) => Call(call);
        case Flushed => unsent := false;
        case Readable(incoming, broken) => ProcessCallbacks(incoming, broken);
      }
    }
  }
}
