/** The asynchronous context over the reader: bytes arrive in pieces, and callbacks run. */
module AsyncWire {
  import opened Bytes
  import opened ReaderMachine
  import opened Reader
  import opened ReplyObjects
  import opened Async
  import opened AsyncSession
  import Resp
  import Model = AsyncModel
  import Ledger = AsyncLedger

  /** An event: the application calls, the output is flushed, bytes arrive, or the connection ends. */
  datatype WireEvent = App(call: Model.Call) | Flushed | Data(bytes: seq<byte>) | Hangup

  /** All bytes that arrive. */
  function Stream(wire: seq<WireEvent>): (b: seq<byte>) {
    if wire == [] then []
    else
      var before, e := Stream(wire[..|wire| - 1]), wire[|wire| - 1];
      if e.Data? then before + e.bytes else before
  }

  /** The replies in a stream, as the recursive parser reads it. */
  function RepliesIn(b: seq<byte>): (replies: seq<Resp.Reply>) {
    ParseStream(b).0
  }

  /** The handed out objects denote the first of these replies. */
  ghost predicate Denote(objects: seq<Object>, base: nat, handed: seq<Model.Reply>, replies: seq<Resp.Reply>) {
    && |handed| <= |replies|
    && forall k | 0 <= k < |handed| ::
         Built(objects, handed[k].obj, base, replies[k]) && handed[k].isError == replies[k].Error?
  }

  lemma DenoteFrame(objects: seq<Object>, base: nat, handed: seq<Model.Reply>, replies: seq<Resp.Reply>, objects': seq<Object>, base': nat)
    requires Denote(objects, base, handed, replies)
    requires base <= base' <= |objects'| && base <= |objects|
    requires forall i | 0 <= i < base :: objects'[i] == objects[i]
    ensures Denote(objects', base', handed, replies)
  {
    forall k | 0 <= k < |handed|
      ensures Built(objects', handed[k].obj, base', replies[k])
    {
      BuiltFrame(objects, handed[k].obj, base, replies[k], objects', base');
    }
  }

  lemma DenoteConcat(objects: seq<Object>, base: nat, a: seq<Model.Reply>, ra: seq<Resp.Reply>, b: seq<Model.Reply>, rb: seq<Resp.Reply>)
    requires Denote(objects, base, a, ra) && |a| == |ra| && Denote(objects, base, b, rb)
    ensures Denote(objects, base, a + b, ra + rb)
  {
  }

  /** What a reader that stood so makes of more bytes. */
  function Fed(status: End, data: seq<byte>): (d: Drained)
    requires Resumable(status)
  {
    if status.Refused? then Drained([], status) else Drain(status.state, status.rest + data)
  }

  /** Looks at the objects that the reader hands out. */
  method Inspect(objects: seq<Object>, ghost base: nat, outs: seq<Ref>, ghost replies: seq<Resp.Reply>) returns (handed: seq<Model.Reply>)
    requires AllBuilt(objects, base, outs, replies)
    ensures |handed| == |replies| && Denote(objects, base, handed, replies)
  {
    handed := [];
    for i := 0 to |outs|
      invariant |handed| == i && Denote(objects, base, handed, replies)
    {
      assert Built(objects, outs[i], base, replies[i]);
      var o := objects[outs[i]];
      handed := handed + [Model.Reply(o.Leaf? && o.reply.Error?, outs[i])];
    }
  }

  /** Reads what arrived and takes out the complete replies; a reader that failed before takes nothing. */
  method Receive(r: RedisReader, data: seq<byte>) returns (incoming: seq<Model.Reply>, broken: bool)
    requires r.Ready()
    modifies r, r.rstack
    ensures r.Ready() && r.KeepsOlderThan() && broken == (r.err != NoError)
    ensures var d := Fed(old(r.status), data);
            r.status == d.end && |incoming| == |d.replies| && Denote(r.objects, r.base, incoming, d.replies)
  {
    var ok := r.Feed(data);
    ghost var d := DrainEnd(r.status);
    var outs := DrainReader(r);
    incoming := Inspect(r.objects, r.base, outs, d.replies);
    broken := r.err != NoError;
  }

  /** The reader has read this stream, and its replies so far are those that arrived. */
  ghost predicate ReadSoFar(objects: seq<Object>, base: nat, status: End, events: seq<Model.Event>, stream: seq<byte>) {
    var d := Drain(START, stream);
    status == d.end && |Model.Arrived(events)| == |d.replies| && Denote(objects, base, Model.Arrived(events), d.replies)
  }

  lemma ArrivedSnoc(events: seq<Model.Event>, e: Model.Event)
    ensures Model.Arrived(events + [e]) == if e.Readable? then Model.Arrived(events) + e.incoming else Model.Arrived(events)
  {
    assert (events + [e])[..|events|] == events;
  }

  lemma ReadMore(objects: seq<Object>, base: nat, status: End, events: seq<Model.Event>, stream: seq<byte>, data: seq<byte>,
                 objects': seq<Object>, base': nat, status': End, incoming: seq<Model.Reply>, broken: bool)
    requires ReadSoFar(objects, base, status, events, stream) && Resumable(status)
    requires base <= base' <= |objects'| && base <= |objects|
    requires forall i | 0 <= i < base :: objects'[i] == objects[i]
    requires var d := Fed(status, data);
             status' == d.end && |incoming| == |d.replies| && Denote(objects', base', incoming, d.replies)
    ensures ReadSoFar(objects', base', status', events + [Model.Readable(incoming, broken)], stream + data)
  {
    var d, d' := Drain(START, stream), Fed(status, data);
    DrainExtend(START, stream, data);
    ArrivedSnoc(events, Model.Readable(incoming, broken));
    DenoteFrame(objects, base, Model.Arrived(events), d.replies, objects', base');
    DenoteConcat(objects', base', Model.Arrived(events), d.replies, incoming, d'.replies);
    assert d.replies + [] == d.replies;
  }

  /** What the reader makes of one event, when these bytes and this many replies have arrived with it: an
      arrival brings exactly the replies it completes, and fails exactly when the parser refuses
      the bytes up to here. */
  ghost predicate Follows(e: WireEvent, event: Model.Event, arrived: nat, stream: seq<byte>) {
    match e
    case App(call) => event == Model.App(call)
    case Flushed => event == Model.Flushed
    case Hangup => event == Model.Readable([], true)
    case Data(_) =>
      event.Readable? && arrived == |RepliesIn(stream)| && event.broken == ParseStream(stream).1.Failed?
  }

  ghost predicate Decoded(wire: seq<WireEvent>, events: seq<Model.Event>)
    decreases |wire|
  {
    && |wire| == |events|
    && (wire == [] || (
          var n := |wire| - 1;
          Follows(wire[n], events[n], |Model.Arrived(events)|, Stream(wire)) && Decoded(wire[..n], events[..n])))
  }

  lemma DecodedSnoc(wire: seq<WireEvent>, events: seq<Model.Event>, event: Model.Event)
    requires |events| < |wire| && Decoded(wire[..|events|], events)
    requires Follows(wire[|events|], event, |Model.Arrived(events + [event])|, Stream(wire[..|events| + 1]))
    ensures Decoded(wire[..|events| + 1], events + [event])
  {
    var n := |events|;
    assert wire[..n + 1][..n] == wire[..n] && (events + [event])[..n] == events;
  }

  /** One event of the wire, with what it completes. */
  method OnEvent(r: RedisReader, e: WireEvent, ghost events: seq<Model.Event>, ghost stream: seq<byte>) returns (event: Model.Event)
    requires r.Ready() && ReadSoFar(r.objects, r.base, r.status, events, stream)
    modifies r, r.rstack
    ensures r.Ready()
    ensures var stream' := if e.Data? then stream + e.bytes else stream;
            && ReadSoFar(r.objects, r.base, r.status, events + [event], stream')
            && Follows(e, event, |Model.Arrived(events + [event])|, stream')
  {
    match e {
      case App(call) => event := Model.App(call);
      case Flushed => event := Model.Flushed;
      case Hangup => event := Model.Readable([], true);
      case Data(bytes) =>
        ghost var objects, base, status := r.objects, r.base, r.status;
        var incoming, broken := Receive(r, bytes);
        event := Model.Readable(incoming, broken);
        ReadMore(objects, base, status, events, stream, bytes, r.objects, r.base, r.status, incoming, broken);
        DrainIsParseStream(stream + bytes);
    }
    ArrivedSnoc(events, event);
  }

  /** The reader does not depend on the callbacks, so it can be followed through the whole wire. */
  method Decode(wire: seq<WireEvent>) returns (r: RedisReader, events: seq<Model.Event>)
    ensures fresh(r) && Decoded(wire, events)
    ensures ReadSoFar(r.objects, r.base, r.status, events, Stream(wire))
  {
    r := new RedisReader();
    events := [];
    assert wire[..0] == [];
    for i := 0 to |wire|
      invariant fresh(r) && fresh(r.rstack) && r.Ready() && |events| == i
      invariant Decoded(wire[..i], events) && ReadSoFar(r.objects, r.base, r.status, events, Stream(wire[..i]))
    {
      assert wire[..i + 1][..i] == wire[..i];
      var event := OnEvent(r, wire[i], events, Stream(wire[..i]));
      DecodedSnoc(wire, events, event);
      events := events + [event];
    }
    assert wire[..|wire|] == wire;
  }

  /** Any run over the wire: the k-th reply that the parser reads from the concatenated bytes, however they
      were cut, reaches the k-th issued callback as an object that denotes it, error replies marked as
      such; while the context lives, that is so for all replies that are complete. The issued callbacks
      are those of the accepted calls in their order. */
  method WireSession(behaviour: Model.Behaviour, wire: seq<WireEvent>) returns (c: AsyncContext, r: RedisReader)
    ensures c.Valid() && Model.InOrder(c.Value())
    ensures exists events ::
              && Decoded(wire, events) && c.Value() == Model.After(behaviour, events)
              && c.issued == Ledger.Accepted(Ledger.Booked(behaviour, events).made)
              && c.outcome == Ledger.Booked(behaviour, events).outcome
    ensures Denote(r.objects, r.base, c.received, RepliesIn(Stream(wire)))
    ensures c.outcome == Model.Alive ==> |c.received| == |RepliesIn(Stream(wire))| && c.orphans == []
    ensures c.outcome == Model.Freed ==> c.Value().waiting == []
  {
    var events;
    r, events := Decode(wire);
    c := Session(behaviour, events);
    DrainIsParseStream(Stream(wire));
  }
}
