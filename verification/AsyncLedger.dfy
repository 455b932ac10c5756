/** What the asynchronous client owes its user, kept without any queue: the calls made so far in their order,
    by the application and by callbacks, and how many replies have come. */
module AsyncLedger {
  import opened Bytes
  import opened CallbackList
  import opened AsyncModel

  /** made: all calls in order; heard: replies handed out; sent: commands written to the socket. */
  datatype Ledger = Ledger(made: seq<Call>, heard: nat, sent: nat, outcome: Outcome)

  const BLANK: Ledger := Ledger([], 0, 0, Alive)

  /** The callbacks of all commands given before the first call that closes the context. */
  function Accepted(calls: seq<Call>): (cbs: seq<Callback>) {
    if calls == [] || !calls[0].Issue? then [] else [calls[0].cb] + Accepted(calls[1..])
  }

  predicate Closed(calls: seq<Call>) {
    Free in calls || Disconnect in calls
  }

  /** The next reply belongs to the next accepted command; if that has a callback it runs, and what it
      calls is made now. A reply nobody asked for ends the context. */
  function Hear(b: Behaviour, l: Ledger, reply: Reply): (l': Ledger) {
    var cbs := Accepted(l.made);
    if l.heard >= |cbs| then l.(outcome := if reply.isError then Freed else Aborted)
    else if !cbs[l.heard].hasFn then l.(heard := l.heard + 1)
    else
      var made := l.made + b(Runs(cbs[..l.heard]));
      Ledger(made, l.heard + 1, l.sent, if Free in made then Freed else Alive)
  }

  function HearAll(b: Behaviour, l: Ledger, incoming: seq<Reply>): (l': Ledger) {
    if incoming == [] then l
    else
      var l1 := HearAll(b, l, incoming[..|incoming| - 1]);
      if l1.outcome == Alive then Hear(b, l1, incoming[|incoming| - 1]) else l1
  }

  /** How a read ends a context that its replies did not end. */
  function Ending(l: Ledger, broken: bool): (o: Outcome) {
    if broken then Freed
    else if Disconnect in l.made && l.sent == |Accepted(l.made)| then
      if l.heard < |Accepted(l.made)| then Aborted else Freed
    else Alive
  }

  function Book(b: Behaviour, l: Ledger, e: Event): (l': Ledger) {
    match e
    case App(Issue(cb)) => l.(made := l.made + [Issue(cb)])
    case App(Free) => l.(made := l.made + [Free], outcome := Freed)
    case App(Disconnect) =>
      l.(made := l.made + [Disconnect], outcome := if l.heard < |Accepted(l.made)| then Alive else Freed)
    case Flushed => l.(sent := |Accepted(l.made)|)
    case Readable(incoming, broken) =>
      var l1 := HearAll(b, l, incoming);
      if l1.outcome == Alive then l1.(outcome := Ending(l1, broken)) else l1
  }

  function Booked(b: Behaviour, events: seq<Event>): (l: Ledger) {
    if events == [] then BLANK
    else
      var l := Booked(b, events[..|events| - 1]);
      if l.outcome == Alive then Book(b, l, events[|events| - 1]) else l
  }

  // ----- The calls that count

  lemma {:induction false} AcceptedOneMore(calls: seq<Call>, call: Call)
    ensures Accepted(calls + [call])
            == if Closed(calls) || !call.Issue? then Accepted(calls) else Accepted(calls) + [call.cb]
  {
    var all := calls + [call];
    if calls == [] {
      assert all[1..] == [];
    } else {
      assert all[0] == calls[0] && all[1..] == calls[1..] + [call];
      AcceptedOneMore(calls[1..], call);
      assert calls == [calls[0]] + calls[1..];
      if calls[0].Issue? && !Closed(calls) && call.Issue? {
        ConcatAssoc([calls[0].cb], Accepted(calls[1..]), [call.cb]);
      }
    }
  }

  lemma CallInMore(calls: seq<Call>, more: seq<Call>, call: Call)
    ensures call in calls + more <==> call in calls || call in more
  {
  }

  // ----- The client keeps the ledger

  /** The context's own fields are what the calls made so far call for. */
  predicate Kept(c: Context, made: seq<Call>, sent: nat) {
    && c.issued == Accepted(made)
    && c.disconnecting == (Disconnect in made)
    && c.freeing == (Free in made)
    && sent <= |Accepted(made)|
    && c.unsent == (sent < |Accepted(made)|)
  }

  lemma NotedKept(c: Context, made: seq<Call>, sent: nat, call: Call)
    requires Kept(c, made, sent)
    ensures Kept(Noted(c, call), made + [call], sent)
  {
    AcceptedOneMore(made, call);
    CallInMore(made, [call], Free);
    CallInMore(made, [call], Disconnect);
  }

  lemma {:induction false} NotedAllKept(c: Context, made: seq<Call>, sent: nat, calls: seq<Call>)
    requires Kept(c, made, sent)
    ensures Kept(NotedAll(c, calls), made + calls, sent)
  {
    if calls == [] {
      assert made + calls == made;
    } else {
      var n := |calls| - 1;
      NotedAllKept(c, made, sent, calls[..n]);
      NotedKept(NotedAll(c, calls[..n]), made + calls[..n], sent, calls[n]);
      assert made + calls[..n] + [calls[n]] == made + calls;
    }
  }

  predicate Agrees(c: Context, l: Ledger) {
    && c.outcome == l.outcome
    && |c.received| == l.heard
    && c.issued == Accepted(l.made)
    && (c.outcome == Alive ==> Kept(c, l.made, l.sent))
  }

  lemma {:induction false} AnsweredCount(cbs: seq<Callback>, replies: seq<Reply>)
    requires |cbs| == |replies|
    ensures |Answered(cbs, replies)| == Runs(cbs)
  {
    if cbs != [] {
      var n := |cbs| - 1;
      AnsweredCount(cbs[..n], replies[..n]);
    }
  }

  /** Who waits, and how many executions there were, by the ledger. */
  lemma WaitingByCount(c: Context, l: Ledger)
    requires Inv(c) && c.outcome == Alive && Agrees(c, l)
    ensures var cbs := Accepted(l.made);
            && l.heard <= |cbs|
            && c.waiting == cbs[l.heard..]
            && |c.log| == Runs(cbs[..l.heard])
  {
    assert c.orphans + c.waiting == c.waiting;
    assert c.issued[..l.heard] == c.answered;
    AnsweredCount(c.answered, c.received);
  }

  lemma AnsweredKept(b: Behaviour, c: Context, made: seq<Call>, sent: nat, reply: Reply)
    requires Kept(c, made, sent) && c.waiting != []
    ensures Kept(AnswerFirst(b, c, reply), if c.waiting[0].hasFn then made + b(|c.log|) else made, sent)
  {
    var cb := c.waiting[0];
    if cb.hasFn {
      var c1 := c.(waiting := c.waiting[1..], answered := c.answered + [cb], received := c.received + [reply],
                   log := c.log + [WithReply(cb, reply)]);
      NotedAllKept(c1, made, sent, b(|c.log|));
    }
  }

  lemma DispatchedAgrees(b: Behaviour, c: Context, l: Ledger, reply: Reply)
    requires Inv(c) && c.outcome == Alive && Agrees(c, l)
    ensures Agrees(Dispatched(b, c, reply), Hear(b, l, reply))
  {
    var cbs := Accepted(l.made);
    WaitingByCount(c, l);
    if c.waiting == [] {
      if reply.isError {
        TornDownInOrder(b, c.(err := true, disconnecting := true));
      }
    } else {
      assert c.waiting[0] == cbs[l.heard];
      AnsweredKept(b, c, l.made, l.sent, reply);
      var c1 := AnswerFirst(b, c, reply);
      AnswerInOrder(b, c, reply);
      if c.waiting[0].hasFn && c1.freeing {
        TornDownInOrder(b, c1);
      }
    }
  }

  lemma {:induction false} DispatchedAllAgrees(b: Behaviour, c: Context, l: Ledger, incoming: seq<Reply>)
    requires Inv(c) && c.outcome == Alive && Agrees(c, l)
    ensures Agrees(DispatchedAll(b, c, incoming), HearAll(b, l, incoming))
  {
    if incoming != [] {
      var n := |incoming| - 1;
      DispatchedAllAgrees(b, c, l, incoming[..n]);
      DispatchedAllKeepsInv(b, c, incoming[..n]);
      var c1 := DispatchedAll(b, c, incoming[..n]);
      if c1.outcome == Alive {
        DispatchedAgrees(b, c1, HearAll(b, l, incoming[..n]), incoming[n]);
      }
    }
  }

  lemma EndingAgrees(b: Behaviour, c: Context, l: Ledger, broken: bool)
    requires Inv(c) && c.outcome == Alive && Agrees(c, l)
    ensures Agrees(Processed(b, c, [], broken), l.(outcome := Ending(l, broken)))
  {
    WaitingByCount(c, l);
    if broken {
      TornDownInOrder(b, c.(err := true, disconnecting := true));
    } else if c.disconnecting && !c.unsent && c.waiting == [] {
      TornDownInOrder(b, c);
    }
  }

  lemma ProcessedAgrees(b: Behaviour, c: Context, l: Ledger, incoming: seq<Reply>, broken: bool)
    requires Inv(c) && c.outcome == Alive && Agrees(c, l)
    ensures Agrees(Processed(b, c, incoming, broken), Book(b, l, Readable(incoming, broken)))
  {
    DispatchedAllAgrees(b, c, l, incoming);
    DispatchedAllKeepsInv(b, c, incoming);
    var c1 := DispatchedAll(b, c, incoming);
    if c1.outcome == Alive {
      EndingAgrees(b, c1, HearAll(b, l, incoming), broken);
    }
  }

  lemma CalledAgrees(b: Behaviour, c: Context, l: Ledger, call: Call)
    requires Inv(c) && c.outcome == Alive && Agrees(c, l)
    ensures Agrees(Called(b, c, call), Book(b, l, App(call)))
  {
    WaitingByCount(c, l);
    NotedKept(c, l.made, l.sent, call);
    AcceptedOneMore(l.made, call);
    match call {
      case Issue(cb) =>
      case Free => TornDownInOrder(b, c.(freeing := true));
      case Disconnect =>
        if c.waiting == [] {
          TornDownInOrder(b, c.(disconnecting := true));
        }
    }
  }

  /** In every run the client follows the ledger: the issued callbacks are those of the commands given, by
      the application and by callbacks, in the order of the calls, up to the first call that frees or
      disconnects; and the context ends when and as the ledger says. */
  lemma {:induction false} LedgerKept(b: Behaviour, events: seq<Event>)
    ensures Agrees(After(b, events), Booked(b, events))
  {
    if events != [] {
      var n := |events| - 1;
      LedgerKept(b, events[..n]);
      FirstInFirstOut(b, events[..n]);
      var c, l := After(b, events[..n]), Booked(b, events[..n]);
      if c.outcome == Alive {
        match events[n]
        case App(call) => CalledAgrees(b, c, l, call);
        case Flushed =>
        case Readable(incoming, broken) => ProcessedAgrees(b, c, l, incoming, broken);
      }
    }
  }

  // ----- What that means where callbacks call nothing

  /** The callbacks of the application's own commands. */
  function Given(events: seq<Event>): (cbs: seq<Callback>) {
    if events == [] then []
    else
      var before, e := Given(events[..|events| - 1]), events[|events| - 1];
      if e.App? && e.call.Issue? then before + [e.call.cb] else before
  }

  ghost predicate Passive(b: Behaviour) {
    forall k: nat :: b(k) == []
  }

  lemma {:induction false} HearAllMade(b: Behaviour, l: Ledger, incoming: seq<Reply>)
    requires Passive(b)
    ensures HearAll(b, l, incoming).made == l.made
  {
    if incoming != [] {
      HearAllMade(b, l, incoming[..|incoming| - 1]);
      var l1 := HearAll(b, l, incoming[..|incoming| - 1]);
      assert l1.made + [] == l1.made;
    }
  }

  lemma BookMade(b: Behaviour, l: Ledger, e: Event)
    requires Passive(b)
    ensures Book(b, l, e).made == if e.App? then l.made + [e.call] else l.made
  {
    if e.Readable? {
      HearAllMade(b, l, e.incoming);
    }
  }

  lemma {:induction false} PassiveLedger(b: Behaviour, events: seq<Event>)
    requires Passive(b) && Booked(b, events).outcome == Alive && !Closed(Booked(b, events).made)
    ensures Accepted(Booked(b, events).made) == Given(events)
  {
    if events != [] {
      var n := |events| - 1;
      var l := Booked(b, events[..n]);
      BookMade(b, l, events[n]);
      if events[n].App? {
        CallInMore(l.made, [events[n].call], Disconnect);
        CallInMore(l.made, [events[n].call], Free);
        AcceptedOneMore(l.made, events[n].call);
      }
      PassiveLedger(b, events[..n]);
    }
  }

  /** With callbacks that call nothing, an open context has issued exactly the application's
      commands. */
  lemma PassiveIssues(b: Behaviour, events: seq<Event>)
    requires Passive(b) && After(b, events).outcome == Alive && !After(b, events).disconnecting
    ensures After(b, events).issued == Given(events)
  {
    LedgerKept(b, events);
    FirstInFirstOut(b, events);
    PassiveLedger(b, events);
  }
}
