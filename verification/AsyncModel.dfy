/** The asynchronous client without pub/sub, as a value: callbacks wait in order, replies are matched to
    them, and callbacks may call back into the context. */
module AsyncModel {
  import opened Bytes
  import opened CallbackList

  /** A reply: whether it is an error reply, and the reply object. */
  datatype Reply = Reply(isError: bool, obj: int)

  /** One execution of a user callback; NULL as reply means the context went away. */
  datatype Run = WithReply(cb: Callback, reply: Reply) | WithNull(cb: Callback)

  /** What user code may ask of the context. */
  datatype Call = Issue(cb: Callback) | Free | Disconnect

  /** Aborted: one of the source's assertions failed. */
  datatype Outcome = Alive | Freed | Aborted

  /** What the n-th callback execution does with the context. */
  type Behaviour = nat -> seq<Call>

  /** The context, with its history: the callbacks of all accepted commands in the order of issue; those
      that got a reply, with their replies; and those told that none will come. */
  datatype Context = Context(
    waiting: seq<Callback>, disconnecting: bool, freeing: bool, err: bool, unsent: bool, outcome: Outcome, log: seq<Run>,
    issued: seq<Callback>, answered: seq<Callback>, received: seq<Reply>, orphans: seq<Callback>)

  const NEW: Context := Context([], false, false, false, false, Alive, [], [], [], [], [])

  predicate Closing(c: Context) {
    c.disconnecting || c.freeing
  }

  // ----- What the operations do

  /** __redisAsyncCommand: refused once the context is about to go away. */
  function Issued(c: Context, cb: Callback): (c': Context) {
    if Closing(c) then c else c.(waiting := c.waiting + [cb], issued := c.issued + [cb], unsent := true)
  }

  /** A call from inside a callback only notes what is to happen. */
  function Noted(c: Context, call: Call): (c': Context)
    ensures c'.outcome == c.outcome && c'.err == c.err && c'.log == c.log
    ensures c'.answered == c.answered && c'.received == c.received && c'.orphans == c.orphans
    ensures Closing(c) ==> Closing(c') && c'.waiting == c.waiting && c'.issued == c.issued && c'.unsent == c.unsent
    ensures c.disconnecting ==> c'.disconnecting
  {
    match call
    case Issue(cb) => Issued(c, cb)
    case Free => c.(freeing := true)
    case Disconnect => c.(disconnecting := true)
  }

  function NotedAll(c: Context, calls: seq<Call>): (c': Context)
    ensures c'.outcome == c.outcome && c'.err == c.err && c'.log == c.log
    ensures c'.answered == c.answered && c'.received == c.received && c'.orphans == c.orphans
    ensures Closing(c) ==> Closing(c') && c'.waiting == c.waiting && c'.issued == c.issued && c'.unsent == c.unsent
    ensures c.disconnecting ==> c'.disconnecting
  {
    if calls == [] then c else Noted(NotedAll(c, calls[..|calls| - 1]), calls[|calls| - 1])
  }

  /** __redisRunCallback */
  function Ran(b: Behaviour, c: Context, run: Run): (c': Context)
    ensures c'.outcome == c.outcome && c'.err == c.err
    ensures c'.answered == c.answered && c'.received == c.received && c'.orphans == c.orphans
    ensures Closing(c) ==> Closing(c') && c'.waiting == c.waiting && c'.issued == c.issued && c'.unsent == c.unsent
    ensures c.disconnecting ==> c'.disconnecting
  {
    if run.cb.hasFn then NotedAll(c.(log := c.log + [run]), b(|c.log|)) else c
  }

  /** The first waiting callback learns that it gets no reply. */
  function OrphanFirst(b: Behaviour, c: Context): (c': Context)
    requires c.waiting != []
    ensures c'.outcome == c.outcome && c'.err == c.err && c'.answered == c.answered && c'.received == c.received
    ensures Closing(c) ==> Closing(c') && c'.waiting == c.waiting[1..] && c'.issued == c.issued
    ensures c'.orphans == c.orphans + [c.waiting[0]]
  {
    var cb := c.waiting[0];
    Ran(b, c.(waiting := c.waiting[1..], orphans := c.orphans + [cb]), WithNull(cb))
  }

  /** The first waiting callback gets a reply. */
  function AnswerFirst(b: Behaviour, c: Context, reply: Reply): (c': Context)
    requires c.waiting != []
    ensures c'.outcome == c.outcome && c'.err == c.err && c'.orphans == c.orphans
    ensures c'.answered == c.answered + [c.waiting[0]] && c'.received == c.received + [reply]
  {
    var cb := c.waiting[0];
    Ran(b, c.(waiting := c.waiting[1..], answered := c.answered + [cb], received := c.received + [reply]), WithReply(cb, reply))
  }

  /** __redisAsyncFree: ends because a closing context accepts no command. */
  function TornDown(b: Behaviour, c: Context): (c': Context)
    requires Closing(c)
    ensures c'.outcome == Freed
    decreases |c.waiting|
  {
    if c.waiting == [] then c.(outcome := Freed) else TornDown(b, OrphanFirst(b, c))
  }

  /** __redisAsyncDisconnect: an error closes the context first; a clean disconnect asserts that
      no callback waits. */
  function Disconnected(b: Behaviour, c: Context): (c': Context)
    requires c.err || Closing(c)
    ensures c'.outcome == if !c.err && c.waiting != [] then Aborted else Freed
  {
    if !c.err && c.waiting != [] then c.(outcome := Aborted)
    else TornDown(b, if c.err then c.(disconnecting := true) else c)
  }

  /** redisAsyncFree, redisAsyncDisconnect or a command, from the application. */
  function Called(b: Behaviour, c: Context, call: Call): (c': Context) {
    match call
    case Issue(cb) => Issued(c, cb)
    case Free => TornDown(b, c.(freeing := true))
    case Disconnect =>
      var c1 := c.(disconnecting := true);
      if c1.waiting == [] then Disconnected(b, c1) else c1
  }

  /** One turn of the loop in redisProcessCallbacks. */
  function Dispatched(b: Behaviour, c: Context, reply: Reply): (c': Context) {
    if c.waiting == [] then
      if reply.isError then Disconnected(b, c.(err := true)) else c.(outcome := Aborted)
    else
      var c1 := AnswerFirst(b, c, reply);
      if c.waiting[0].hasFn && c1.freeing then TornDown(b, c1) else c1
  }

  /** The loop, as long as the context is alive. */
  function DispatchedAll(b: Behaviour, c: Context, incoming: seq<Reply>): (c': Context) {
    if incoming == [] then c
    else
      var c1 := DispatchedAll(b, c, incoming[..|incoming| - 1]);
      if c1.outcome == Alive then Dispatched(b, c1, incoming[|incoming| - 1]) else c1
  }

  /** redisProcessCallbacks: the replies the reader has, then either nothing more or an error. */
  function Processed(b: Behaviour, c: Context, incoming: seq<Reply>, broken: bool): (c': Context) {
    var c1 := DispatchedAll(b, c, incoming);
    if c1.outcome != Alive then c1
    else if broken then Disconnected(b, c1.(err := true))
    else if c1.disconnecting && !c1.unsent then Disconnected(b, c1)
    else c1
  }

  /** One event of the event loop or one call of the application. */
  datatype Event = App(call: Call) | Flushed | Readable(incoming: seq<Reply>, broken: bool)

  function AfterEvent(b: Behaviour, c: Context, e: Event): (c': Context) {
    match e
    case App(call) => Called(b, c, call)
    case Flushed => c.(unsent := false)
    case Readable(incoming, broken) => Processed(b, c, incoming, broken)
  }

  function After(b: Behaviour, events: seq<Event>): (c: Context) {
    if events == [] then NEW
    else
      var c := After(b, events[..|events| - 1]);
      if c.outcome == Alive then AfterEvent(b, c, events[|events| - 1]) else c
  }

  // ----- First in, first out

  /** The executions owed for callbacks that got these replies, in order. */
  function Answered(cbs: seq<Callback>, replies: seq<Reply>): (runs: seq<Run>)
    requires |cbs| == |replies|
    decreases |cbs|
  {
    if cbs == [] then []
    else
      var n := |cbs| - 1;
      var before := Answered(cbs[..n], replies[..n]);
      if cbs[n].hasFn then before + [WithReply(cbs[n], replies[n])] else before
  }

  /** The executions owed for callbacks that get no reply any more. */
  function Orphaned(cbs: seq<Callback>): (runs: seq<Run>)
    decreases |cbs|
  {
    if cbs == [] then []
    else
      var n := |cbs| - 1;
      var before := Orphaned(cbs[..n]);
      if cbs[n].hasFn then before + [WithNull(cbs[n])] else before
  }

  /** Every issued callback is answered, orphaned or waiting, in this order, and the executions
      so far are exactly what that calls for: the k-th reply went to the k-th callback. */
  predicate InOrder(c: Context) {
    && c.issued == c.answered + (c.orphans + c.waiting)
    && |c.answered| == |c.received|
    && c.log == Answered(c.answered, c.received) + Orphaned(c.orphans)
  }

  predicate Inv(c: Context) {
    && InOrder(c)
    && (c.outcome == Alive ==> c.orphans == [] && !c.freeing && !c.err)
    && (c.outcome == Freed ==> c.waiting == [])
  }

  /** What a callback execution adds, once it is booked: commands of the callback go to the end. */
  lemma {:induction false} NotedInOrder(c: Context, calls: seq<Call>)
    requires InOrder(c) && c.orphans == []
    ensures InOrder(NotedAll(c, calls))
  {
    if calls != [] {
      var n := |calls| - 1;
      NotedInOrder(c, calls[..n]);
      var c1 := NotedAll(c, calls[..n]);
      if calls[n].Issue? {
        ConcatAssoc(c1.answered, c1.waiting, [calls[n].cb]);
        assert [] + c1.waiting == c1.waiting && [] + (c1.waiting + [calls[n].cb]) == c1.waiting + [calls[n].cb];
      }
    }
  }

  /** A closing context only logs. */
  lemma ClosingInOrder(c: Context, calls: seq<Call>)
    requires InOrder(c) && Closing(c)
    ensures InOrder(NotedAll(c, calls))
  {
  }

  lemma AnswerOne(answered: seq<Callback>, received: seq<Reply>, cb: Callback, reply: Reply)
    requires |answered| == |received|
    ensures var before := Answered(answered, received);
            Answered(answered + [cb], received + [reply]) == if cb.hasFn then before + [WithReply(cb, reply)] else before
  {
    var n := |answered|;
    assert (answered + [cb])[..n] == answered && (received + [reply])[..n] == received;
  }

  lemma OrphanOne(orphans: seq<Callback>, cb: Callback)
    ensures Orphaned(orphans + [cb]) == if cb.hasFn then Orphaned(orphans) + [WithNull(cb)] else Orphaned(orphans)
  {
    assert (orphans + [cb])[..|orphans|] == orphans;
  }

  /** Booking the first waiting callback as an orphan, and its execution. */
  lemma OrphanInOrder(b: Behaviour, c: Context)
    requires InOrder(c) && Closing(c) && c.waiting != []
    ensures InOrder(OrphanFirst(b, c))
  {
    var cb := c.waiting[0];
    var c1 := c.(waiting := c.waiting[1..], orphans := c.orphans + [cb]);
    OrphanOne(c.orphans, cb);
    assert c.orphans + c.waiting == c1.orphans + c1.waiting;
    if cb.hasFn {
      ConcatAssoc(Answered(c.answered, c.received), Orphaned(c.orphans), [WithNull(cb)]);
      ClosingInOrder(c1.(log := c.log + [WithNull(cb)]), b(|c.log|));
    }
  }

  /** Every waiting callback is orphaned and runs once with NULL. */
  lemma {:induction false} TornDownInOrder(b: Behaviour, c: Context)
    requires InOrder(c) && Closing(c)
    ensures var c' := TornDown(b, c);
            && InOrder(c') && c'.waiting == [] && c'.orphans == c.orphans + c.waiting
            && c'.issued == c.issued && c'.answered == c.answered && c'.received == c.received
    decreases |c.waiting|
  {
    if c.waiting == [] {
      assert c.orphans + c.waiting == c.orphans;
    } else {
      var c1 := OrphanFirst(b, c);
      OrphanInOrder(b, c);
      TornDownInOrder(b, c1);
      assert c.orphans + c.waiting == c1.orphans + c1.waiting;
    }
  }

  /** Booking the first waiting callback as answered, and its execution. */
  lemma AnswerInOrder(b: Behaviour, c: Context, reply: Reply)
    requires InOrder(c) && c.orphans == [] && c.waiting != []
    ensures InOrder(AnswerFirst(b, c, reply))
  {
    var cb := c.waiting[0];
    var c1 := c.(waiting := c.waiting[1..], answered := c.answered + [cb], received := c.received + [reply]);
    AnswerOne(c.answered, c.received, cb, reply);
    assert c.answered + ([] + c.waiting) == c1.answered + ([] + c1.waiting);
    assert c.log == Answered(c.answered, c.received);
    if cb.hasFn {
      NotedInOrder(c1.(log := c.log + [WithReply(cb, reply)]), b(|c.log|));
    }
  }

  lemma DispatchedKeepsInv(b: Behaviour, c: Context, reply: Reply)
    requires Inv(c) && c.outcome == Alive
    ensures var c' := Dispatched(b, c, reply);
            && Inv(c') && c'.received == if c.waiting == [] then c.received else c.received + [reply]
  {
    if c.waiting == [] {
      if reply.isError {
        TornDownInOrder(b, c.(err := true, disconnecting := true));
      }
    } else {
      var c1 := AnswerFirst(b, c, reply);
      AnswerInOrder(b, c, reply);
      if c.waiting[0].hasFn && c1.freeing {
        TornDownInOrder(b, c1);
      }
    }
  }

  lemma NextReply(before: seq<Reply>, incoming: seq<Reply>)
    requires incoming != []
    ensures var n := |incoming| - 1;
            before + incoming[..n] + [incoming[n]] == before + incoming && before + incoming[..n] <= before + incoming
  {
  }

  lemma {:induction false} DispatchedAllKeepsInv(b: Behaviour, c: Context, incoming: seq<Reply>)
    requires Inv(c) && c.outcome == Alive
    ensures var c' := DispatchedAll(b, c, incoming);
            !Inv(c) || (Inv(c') && c'.received <= c.received + incoming
                        && (c'.outcome == Alive ==> c'.received == c.received + incoming))
  {
    if incoming == [] {
      assert c.received + incoming == c.received;
    } else {
      var n := |incoming| - 1;
      var c1 := DispatchedAll(b, c, incoming[..n]);
      DispatchedAllKeepsInv(b, c, incoming[..n]);
      NextReply(c.received, incoming);
      if c1.outcome == Alive {
        DispatchedKeepsInv(b, c1, incoming[n]);
      }
    }
  }

  lemma DisconnectedKeepsInv(b: Behaviour, c: Context)
    requires InOrder(c) && (c.err || Closing(c))
    ensures Inv(Disconnected(b, c)) && Disconnected(b, c).received == c.received
  {
    if c.err {
      TornDownInOrder(b, c.(disconnecting := true));
    } else if c.waiting == [] {
      TornDownInOrder(b, c);
    }
  }

  lemma ProcessedKeepsInv(b: Behaviour, c: Context, incoming: seq<Reply>, broken: bool)
    requires Inv(c) && c.outcome == Alive
    ensures var c' := Processed(b, c, incoming, broken);
            && Inv(c') && c'.received <= c.received + incoming
            && (c'.outcome == Alive ==> c'.received == c.received + incoming)
  {
    DispatchedAllKeepsInv(b, c, incoming);
    var c1 := DispatchedAll(b, c, incoming);
    if c1.outcome == Alive {
      if broken {
        DisconnectedKeepsInv(b, c1.(err := true));
      } else if c1.disconnecting && !c1.unsent {
        DisconnectedKeepsInv(b, c1);
      }
    }
  }

  lemma CalledKeepsInv(b: Behaviour, c: Context, call: Call)
    requires Inv(c) && c.outcome == Alive
    ensures Inv(Called(b, c, call)) && Called(b, c, call).received == c.received && Called(b, c, call).outcome != Aborted
  {
    match call {
      case Issue(cb) =>
        NotedInOrder(c, [call]);
        assert NotedAll(c, [call][..0]) == c;
      case Free => TornDownInOrder(b, c.(freeing := true));
      case Disconnect =>
        if c.waiting == [] {
          DisconnectedKeepsInv(b, c.(disconnecting := true));
        }
    }
  }

  /** The replies of the server, in the order in which they came. */
  function Arrived(events: seq<Event>): (replies: seq<Reply>) {
    if events == [] then []
    else
      var before, e := Arrived(events[..|events| - 1]), events[|events| - 1];
      if e.Readable? then before + e.incoming else before
  }

  /** In every run, with callbacks that do whatever they like: the k-th reply of the server went to the
      k-th issued callback, every issued callback is answered, orphaned or waiting, each orphan ran
      once with NULL, and none waits once the context is freed. */
  lemma {:induction false} FirstInFirstOut(b: Behaviour, events: seq<Event>)
    ensures var c := After(b, events);
            && Inv(c) && c.received <= Arrived(events)
            && (c.outcome == Alive ==> c.received == Arrived(events))
  {
    if events != [] {
      var n := |events| - 1;
      var c, e := After(b, events[..n]), events[n];
      FirstInFirstOut(b, events[..n]);
      if c.outcome == Alive {
        match e
        case App(call) => CalledKeepsInv(b, c, call);
        case Flushed =>
        case Readable(incoming, broken) => ProcessedKeepsInv(b, c, incoming, broken);
      }
    }
  }

  /** Where every callback has a function, the k-th execution is the k-th callback with the k-th
      reply. */
  lemma {:induction false} AnsweredAt(cbs: seq<Callback>, replies: seq<Reply>, k: nat)
    requires |cbs| == |replies| && k < |cbs| && forall cb | cb in cbs :: cb.hasFn
    ensures |Answered(cbs, replies)| == |cbs|
    ensures Answered(cbs, replies)[k] == WithReply(cbs[k], replies[k])
    decreases |cbs|
  {
    var n := |cbs| - 1;
    if n > 0 {
      AnsweredAt(cbs[..n], replies[..n], if k < n then k else 0);
    }
  }

  /** And each orphaned one runs at its own place, once, with NULL. */
  lemma {:induction false} OrphanedAt(cbs: seq<Callback>, k: nat)
    requires k < |cbs| && forall cb | cb in cbs :: cb.hasFn
    ensures |Orphaned(cbs)| == |cbs|
    ensures Orphaned(cbs)[k] == WithNull(cbs[k])
    decreases |cbs|
  {
    var n := |cbs| - 1;
    if n > 0 {
      OrphanedAt(cbs[..n], if k < n then k else 0);
    }
  }

  // ----- When a run aborts

  /** A reply that is no error comes while nobody waits. */
  predicate Spontaneous(b: Behaviour, c: Context, incoming: seq<Reply>, k: nat)
    requires k < |incoming|
  {
    var c1 := DispatchedAll(b, c, incoming[..k]);
    c1.outcome == Alive && c1.waiting == [] && !incoming[k].isError
  }

  /** After the replies the context is to disconnect cleanly, although somebody waits. */
  predicate CutOff(b: Behaviour, c: Context, incoming: seq<Reply>, broken: bool) {
    var c1 := DispatchedAll(b, c, incoming);
    c1.outcome == Alive && !broken && c1.disconnecting && !c1.unsent && c1.waiting != []
  }

  ghost predicate Aborts(b: Behaviour, c: Context, incoming: seq<Reply>, broken: bool) {
    || (exists k | 0 <= k < |incoming| :: Spontaneous(b, c, incoming, k))
    || CutOff(b, c, incoming, broken)
  }

  /** What is decided stays decided. */
  lemma {:induction false} DispatchedStops(b: Behaviour, c: Context, incoming: seq<Reply>, k: nat)
    requires k <= |incoming| && DispatchedAll(b, c, incoming[..k]).outcome != Alive
    ensures DispatchedAll(b, c, incoming) == DispatchedAll(b, c, incoming[..k])
  {
    if k == |incoming| {
      assert incoming[..k] == incoming;
    } else {
      var n := |incoming| - 1;
      assert incoming[..n][..k] == incoming[..k];
      DispatchedStops(b, c, incoming[..n], k);
    }
  }

  lemma SpontaneousAborts(b: Behaviour, c: Context, incoming: seq<Reply>, k: nat)
    requires k < |incoming| && Spontaneous(b, c, incoming, k)
    ensures DispatchedAll(b, c, incoming).outcome == Aborted
  {
    assert incoming[..k + 1][..k] == incoming[..k];
    DispatchedStops(b, c, incoming, k + 1);
  }

  lemma {:induction false} AbortIsSpontaneous(b: Behaviour, c: Context, incoming: seq<Reply>) returns (k: nat)
    requires Inv(c) && c.outcome == Alive && DispatchedAll(b, c, incoming).outcome == Aborted
    ensures k < |incoming| && Spontaneous(b, c, incoming, k)
  {
    k := |incoming| - 1;
    var c1 := DispatchedAll(b, c, incoming[..k]);
    DispatchedAllKeepsInv(b, c, incoming[..k]);
    if c1.outcome == Alive {
      LastAborts(b, c1, incoming[k]);
    } else {
      var head := incoming[..k];
      k := AbortIsSpontaneous(b, c, head);
      assert head[..k] == incoming[..k];
    }
  }

  lemma LastAborts(b: Behaviour, c: Context, reply: Reply)
    requires Inv(c) && c.outcome == Alive
    ensures Dispatched(b, c, reply).outcome == Aborted <==> c.waiting == [] && !reply.isError
  {
  }

  /** One read aborts exactly when a reply comes that nobody asked for, or the output is flushed, a
      disconnect was asked for and a callback still waits for its reply. */
  lemma ProcessedAborts(b: Behaviour, c: Context, incoming: seq<Reply>, broken: bool)
    requires Inv(c) && c.outcome == Alive
    ensures Processed(b, c, incoming, broken).outcome == Aborted <==> Aborts(b, c, incoming, broken)
  {
    DispatchedAllKeepsInv(b, c, incoming);
    if DispatchedAll(b, c, incoming).outcome == Aborted {
      var k := AbortIsSpontaneous(b, c, incoming);
    } else if k :| 0 <= k < |incoming| && Spontaneous(b, c, incoming, k) {
      SpontaneousAborts(b, c, incoming, k);
    }
  }

  lemma {:induction false} RunStops(b: Behaviour, events: seq<Event>, i: nat)
    requires i <= |events| && After(b, events[..i]).outcome != Alive
    ensures After(b, events) == After(b, events[..i])
  {
    if i == |events| {
      assert events[..i] == events;
    } else {
      var n := |events| - 1;
      assert events[..n][..i] == events[..i];
      RunStops(b, events[..n], i);
    }
  }

  lemma AbortedRead(b: Behaviour, events: seq<Event>, i: nat)
    requires i < |events| && AbortsAt(b, events, i)
    ensures After(b, events).outcome == Aborted
  {
    FirstInFirstOut(b, events[..i]);
    ReadAborts(b, After(b, events[..i]), events[i]);
    OneMoreEvent(b, events, i);
    RunStops(b, events, i + 1);
  }

  lemma ReadAborts(b: Behaviour, c: Context, e: Event)
    requires Inv(c) && c.outcome == Alive && e.Readable? && Aborts(b, c, e.incoming, e.broken)
    ensures AfterEvent(b, c, e).outcome == Aborted
  {
    ProcessedAborts(b, c, e.incoming, e.broken);
  }

  lemma OneMoreEvent(b: Behaviour, events: seq<Event>, i: nat)
    requires i < |events|
    ensures var c := After(b, events[..i]);
            After(b, events[..i + 1]) == if c.outcome == Alive then AfterEvent(b, c, events[i]) else c
  {
    assert events[..i + 1][..i] == events[..i];
  }

  lemma {:induction false} AbortIsRead(b: Behaviour, events: seq<Event>) returns (i: nat)
    requires After(b, events).outcome == Aborted
    ensures i < |events| && AbortsAt(b, events, i)
  {
    i := |events| - 1;
    var c := After(b, events[..i]);
    FirstInFirstOut(b, events[..i]);
    if c.outcome == Alive {
      match events[i]
      case App(call) => CalledKeepsInv(b, c, call);
      case Flushed =>
      case Readable(incoming, broken) => ProcessedAborts(b, c, incoming, broken);
    } else {
      var head := events[..i];
      i := AbortIsRead(b, head);
      assert head[..i] == events[..i];
    }
  }

  /** A run aborts exactly when one of its reads does. */
  lemma RunAborts(b: Behaviour, events: seq<Event>)
    ensures After(b, events).outcome == Aborted <==> exists i | 0 <= i < |events| :: AbortsAt(b, events, i)
  {
    if After(b, events).outcome == Aborted {
      var i := AbortIsRead(b, events);
    } else if i :| 0 <= i < |events| && AbortsAt(b, events, i) {
      AbortedRead(b, events, i);
    }
  }

  ghost predicate AbortsAt(b: Behaviour, events: seq<Event>, i: nat)
    requires i < |events|
  {
    var c := After(b, events[..i]);
    events[i].Readable? && c.outcome == Alive && Aborts(b, c, events[i].incoming, events[i].broken)
  }

  // ----- The same by counting, once a disconnect was asked for

  /** How many callbacks run. */
  function Runs(cbs: seq<Callback>): (n: nat) {
    if cbs == [] then 0 else Runs(cbs[..|cbs| - 1]) + if cbs[|cbs| - 1].hasFn then 1 else 0
  }

  /** One of the first k waiting callbacks asks to free the context. */
  predicate FreesWithin(b: Behaviour, c: Context, k: nat)
    requires k <= |c.waiting|
  {
    k > 0 && (FreesWithin(b, c, k - 1) || (c.waiting[k - 1].hasFn && Free in b(|c.log| + Runs(c.waiting[..k - 1]))))
  }

  lemma {:induction false} NotedFrees(c: Context, calls: seq<Call>)
    ensures NotedAll(c, calls).freeing == (c.freeing || Free in calls)
  {
    if calls != [] {
      var n := |calls| - 1;
      NotedFrees(c, calls[..n]);
      assert calls == calls[..n] + [calls[n]];
    }
  }

  /** A disconnecting context works off its callbacks in order and takes no new ones. */
  predicate WorkedOff(c: Context, k: nat, c': Context)
    requires k <= |c.waiting|
  {
    && c'.outcome == Alive && c'.disconnecting && !c'.freeing && c'.err == c.err && c'.unsent == c.unsent
    && c'.waiting == c.waiting[k..] && |c'.log| == |c.log| + Runs(c.waiting[..k])
  }

  lemma WorkOffOne(b: Behaviour, c: Context, k: nat, c1: Context, reply: Reply)
    requires c.disconnecting && k < |c.waiting| && WorkedOff(c, k, c1)
    ensures var c2 := Dispatched(b, c1, reply);
            if c.waiting[k].hasFn && Free in b(|c.log| + Runs(c.waiting[..k])) then c2.outcome == Freed
            else WorkedOff(c, k + 1, c2)
  {
    var cb := c.waiting[k];
    assert c1.waiting[0] == cb && c1.waiting[1..] == c.waiting[k + 1..];
    assert c.waiting[..k + 1][..k] == c.waiting[..k];
    if cb.hasFn {
      var c2 := c1.(waiting := c1.waiting[1..], answered := c1.answered + [cb], received := c1.received + [reply],
                    log := c1.log + [WithReply(cb, reply)]);
      NotedFrees(c2, b(|c1.log|));
    }
  }

  lemma {:induction false} WorkOff(b: Behaviour, c: Context, incoming: seq<Reply>)
    requires c.outcome == Alive && c.disconnecting && !c.freeing && |incoming| <= |c.waiting|
    ensures var c' := DispatchedAll(b, c, incoming);
            if FreesWithin(b, c, |incoming|) then c'.outcome == Freed else WorkedOff(c, |incoming|, c')
  {
    var k := |incoming|;
    if k > 0 {
      WorkOff(b, c, incoming[..k - 1]);
      if !FreesWithin(b, c, k - 1) {
        WorkOffOne(b, c, k - 1, DispatchedAll(b, c, incoming[..k - 1]), incoming[k - 1]);
      }
    }
  }

  /** How a read ends on a disconnecting context, by numbers alone: with fewer replies than waiting
      callbacks, flushed output and nothing broken, it aborts; so it does with one reply too many
      that is no error; unless a callback that got its reply asked to free the context. */
  lemma DisconnectingOutcome(b: Behaviour, c: Context, incoming: seq<Reply>, broken: bool)
    requires Inv(c) && c.outcome == Alive && c.disconnecting
    ensures var n, w := |incoming|, |c.waiting|;
            Processed(b, c, incoming, broken).outcome
            == if FreesWithin(b, c, if n < w then n else w) then Freed
               else if n > w then (if incoming[w].isError then Freed else Aborted)
               else if broken then Freed
               else if c.unsent then Alive
               else if n < w then Aborted else Freed
  {
    var n, w := |incoming|, |c.waiting|;
    if n <= w {
      WorkOff(b, c, incoming);
    } else {
      WorkOff(b, c, incoming[..w]);
      if FreesWithin(b, c, w) {
        DispatchedStops(b, c, incoming, w);
      } else {
        assert incoming[..w + 1][..w] == incoming[..w];
        DispatchedStops(b, c, incoming, w + 1);
      }
    }
  }
}
