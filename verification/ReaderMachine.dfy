/** The explicit-stack reader as a step machine over the unread bytes, and its two theorems:
    it refines the recursive parser, and it does not care how its input was cut. */
module ReaderMachine {
  import opened Bytes
  import opened Resp

  /** An array that still waits for elements: its announced count and the elements it has. */
  datatype Frame = Frame(count: nat, done: seq<Reply>)

  /** The task stack. The arrays under construction are `frames`, outermost first; the current
      task sits on top of them, at slot |frames|, with its type byte read or not. */
  datatype State = State(frames: seq<Frame>, kind: Kind)

  const START: State := State([], Unread)

  predicate FramesOk(frames: seq<Frame>) {
    |frames| <= MAX_LEVEL && forall f | f in frames :: |f.done| < f.count
  }

  predicate Valid(s: State) {
    FramesOk(s.frames)
  }

  /** A stack that a call can leave behind: an array type byte in the last slot was refused. */
  predicate Parked(s: State) {
    Valid(s) && (s.kind == ArrayKind ==> |s.frames| < MAX_LEVEL)
  }

  datatype Attached = Finished(reply: Reply) | Continue(frames: seq<Frame>)

  /** moveToNextTask: hand a finished reply to the innermost array, closing every array this
      completes. */
  function Attach(frames: seq<Frame>, r: Reply): (a: Attached)
    requires FramesOk(frames)
    ensures a.Continue? ==> FramesOk(a.frames) && 0 < |a.frames| <= |frames|
  {
    if frames == [] then Finished(r)
    else
      var top := frames[|frames| - 1];
      var below := frames[..|frames| - 1];
      var done := top.done + [r];
      if |done| == top.count then Attach(below, Array(top.count, done))
      else Continue(below + [Frame(top.count, done)])
  }

  datatype StepResult =
    | Next(state: State, rest: seq<byte>)
    | Emit(reply: Reply, rest: seq<byte>)
    | Wait(state: State, rest: seq<byte>)
    | Fail(err: ReadError)

  function Deliver(frames: seq<Frame>, r: Reply, rest: seq<byte>): (res: StepResult)
    requires FramesOk(frames)
    ensures res.Next? || res.Emit?
    ensures res.Next? ==> Valid(res.state)
    ensures res.rest == rest
  {
    match Attach(frames, r)
    case Finished(root) => Emit(root, rest)
    case Continue(frames') => Next(State(frames', Unread), rest)
  }

  predicate Sane(res: StepResult, b: seq<byte>) {
    && (res.Next? ==> Valid(res.state) && |res.rest| < |b|)
    && (res.Emit? ==> |res.rest| < |b|)
    && (res.Wait? ==> Parked(res.state) && |res.rest| <= |b|)
  }

  /** What stands at the front of b for a task of a known type: nothing whole yet, a reply that
      is complete in itself, or the header of an array with elements to come. */
  datatype Item = Partial | Whole(reply: Reply, rest: seq<byte>) | Header(count: nat, rest: seq<byte>)

  function TakeItem(kind: Kind, b: seq<byte>): (item: Item)
    requires kind != Unread
    ensures !item.Partial? ==> |item.rest| < |b|
    ensures item.Header? ==> item.count > 0
    ensures item.Whole? && item.reply.Array? ==> item.reply.element == []
  {
    match SplitLine(b)
    case NoLine => Partial
    case Line(text, rest) =>
      match kind
      case StatusKind => Whole(Status(text), rest)
      case ErrorKind => Whole(Error(text), rest)
      case IntegerKind => Whole(Integer(ReadLongLong(text)), rest)
      case StringKind =>
        var len := ReadLongLong(text);
        if len < 0 then Whole(Nil, rest)
        else if len + 2 <= |rest| then Whole(String(rest[..len]), rest[len + 2..])
        else Partial
      case ArrayKind =>
        var count := ReadLongLong(text);
        if count == -1 then Whole(Nil, rest)
        else if count <= 0 then Whole(Array(count, []), rest)
        else Header(count, rest)
  }

  /** Deliver a whole item, push a task for the first element of an array, or wait. */
  function Apply(frames: seq<Frame>, kind: Kind, b: seq<byte>, item: Item): (res: StepResult)
    requires FramesOk(frames) && kind != Unread
    requires kind == ArrayKind ==> |frames| < MAX_LEVEL
    requires item.Header? ==> |frames| < MAX_LEVEL && item.count > 0
    requires !item.Partial? ==> |item.rest| < |b|
    ensures Sane(res, b)
  {
    match item
    case Partial => Wait(State(frames, kind), b)
    case Whole(r, rest) => Deliver(frames, r, rest)
    case Header(count, rest) => Next(State(frames + [Frame(count, [])], Unread), rest)
  }

  /** processLineItem, processBulkItem and processMultiBulkItem: one item whose type is known. */
  function StepTyped(frames: seq<Frame>, kind: Kind, b: seq<byte>): (res: StepResult)
    requires FramesOk(frames) && kind != Unread
    ensures Sane(res, b)
  {
    if kind == ArrayKind && |frames| == MAX_LEVEL then Fail(TooDeep)
    else Apply(frames, kind, b, TakeItem(kind, b))
  }

  /** processItem: take the type byte unless an earlier call already did, then the item. */
  function Step(s: State, b: seq<byte>): (res: StepResult)
    requires Valid(s)
    ensures Sane(res, b)
  {
    if s.kind != Unread then StepTyped(s.frames, s.kind, b)
    else if b == [] then Wait(s, b)
    else if KindOf(b[0]) == Unread then Fail(BadTypeByte(b[0]))
    else StepTyped(s.frames, KindOf(b[0]), b[1..])
  }

  /** The loop of redisReaderGetReply: items until a reply is complete, input runs out or the
      stream is refused. Ends because every step that goes on takes input. */
  function Run(s: State, b: seq<byte>): (res: StepResult)
    requires Valid(s)
    ensures !res.Next? && Sane(res, b)
    decreases |b|
  {
    match Step(s, b)
    case Next(s', rest) => Run(s', rest)
    case Emit(r, rest) => Emit(r, rest)
    case Wait(s', rest) => Wait(s', rest)
    case Fail(e) => Fail(e)
  }

  // ----- Refinement of the recursive parser

  /** What the recursive parser would still do from a given stack: finish the current item, then
      the missing elements of each open array from the inside out. */
  function Resume(s: State, b: seq<byte>): (o: Outcome<Reply>)
    requires Valid(s)
  {
    Unwind(s.frames, if s.kind == Unread then ParseItem(|s.frames|, b) else ParseTyped(|s.frames|, s.kind, b))
  }

  function Unwind(frames: seq<Frame>, o: Outcome<Reply>): (o': Outcome<Reply>)
    requires FramesOk(frames)
  {
    if frames == [] || !o.Complete? then o
    else
      var top := frames[|frames| - 1];
      match ParseElements(|frames|, top.count - |top.done| - 1, o.rest)
      case Complete(es, rest) =>
        Unwind(frames[..|frames| - 1], Complete(Array(top.count, top.done + [o.value] + es), rest))
      case NeedMore => NeedMore
      case Failed(e) => Failed(e)
  }

  function AsOutcome(res: StepResult): (o: Outcome<Reply>)
    requires !res.Next?
  {
    match res
    case Emit(r, rest) => Complete(r, rest)
    case Wait(_, _) => NeedMore
    case Fail(e) => Failed(e)
  }

  lemma {:induction false} DeliverRefines(frames: seq<Frame>, r: Reply, rest: seq<byte>)
    requires FramesOk(frames)
    ensures var d := Deliver(frames, r, rest);
            Unwind(frames, Complete(r, rest)) == if d.Next? then Resume(d.state, rest) else AsOutcome(d)
    decreases |frames|
  {
    if frames != [] {
      var top := frames[|frames| - 1];
      var below := frames[..|frames| - 1];
      var left := top.count - |top.done| - 1;
      assert top.done + [r] + [] == top.done + [r];
      if left == 0 {
        DeliverRefines(below, Array(top.count, top.done + [r]), rest);
      } else {
        SiblingsRefine(frames, r, rest);
      }
    }
  }

  /** The case of a reply that leaves its array unfinished. */
  lemma SiblingsRefine(frames: seq<Frame>, r: Reply, rest: seq<byte>)
    requires FramesOk(frames) && frames != []
    requires var top := frames[|frames| - 1]; |top.done| + 1 < top.count
    ensures var top := frames[|frames| - 1];
            var frames' := frames[..|frames| - 1] + [Frame(top.count, top.done + [r])];
            Unwind(frames, Complete(r, rest)) == Unwind(frames', ParseItem(|frames|, rest))
  {
    var top := frames[|frames| - 1];
    var below := frames[..|frames| - 1];
    var left := top.count - |top.done| - 1;
    var frames' := below + [Frame(top.count, top.done + [r])];
    assert frames'[..|frames'| - 1] == below;
    var first := ParseItem(|frames|, rest);
    if first.Complete? {
      var others := ParseElements(|frames|, left - 1, first.rest);
      if others.Complete? {
        ConcatAssoc(top.done + [r], [first.value], others.value);
      }
    }
  }

  /** The recursive parser's view of an item whose type is known. */
  function ItemOutcome(level: nat, item: Item): (o: Outcome<Reply>) {
    match item
    case Partial => NeedMore
    case Whole(r, rest) => Complete(r, rest)
    case Header(count, rest) => ArrayOf(count, ParseElements(level + 1, count, rest))
  }

  function ArrayOf(count: nat, es: Outcome<seq<Reply>>): (o: Outcome<Reply>) {
    match es
    case Complete(es, rest) => Complete(Array(count, es), rest)
    case NeedMore => NeedMore
    case Failed(e) => Failed(e)
  }

  lemma TypedByItem(level: nat, kind: Kind, b: seq<byte>)
    requires kind != Unread
    ensures ParseTyped(level, kind, b)
         == if kind == ArrayKind && level >= MAX_LEVEL then Failed(TooDeep) else ItemOutcome(level, TakeItem(kind, b))
  {
  }

  lemma ApplyRefines(frames: seq<Frame>, kind: Kind, b: seq<byte>, item: Item)
    requires FramesOk(frames) && kind != Unread
    requires kind == ArrayKind ==> |frames| < MAX_LEVEL
    requires item.Header? ==> |frames| < MAX_LEVEL && item.count > 0
    requires !item.Partial? ==> |item.rest| < |b|
    ensures var res := Apply(frames, kind, b, item);
            Unwind(frames, ItemOutcome(|frames|, item)) == if res.Next? then Resume(res.state, res.rest) else AsOutcome(res)
  {
    match item {
      case Partial =>
      case Whole(r, rest) => DeliverRefines(frames, r, rest);
      case Header(count, rest) => HeaderRefines(frames, count, rest);
    }
  }

  lemma HeaderRefines(frames: seq<Frame>, count: nat, rest: seq<byte>)
    requires FramesOk(frames) && |frames| < MAX_LEVEL && count > 0
    ensures Unwind(frames, ArrayOf(count, ParseElements(|frames| + 1, count, rest)))
         == Resume(State(frames + [Frame(count, [])], Unread), rest)
  {
    OpenArrayRefines(frames, count, rest);
  }

  lemma StepTypedRefines(frames: seq<Frame>, kind: Kind, b: seq<byte>)
    requires FramesOk(frames) && kind != Unread
    ensures var res := StepTyped(frames, kind, b);
            Unwind(frames, ParseTyped(|frames|, kind, b)) == if res.Next? then Resume(res.state, res.rest) else AsOutcome(res)
  {
    TypedByItem(|frames|, kind, b);
    if kind != ArrayKind || |frames| < MAX_LEVEL {
      ApplyRefines(frames, kind, b, TakeItem(kind, b));
    }
  }

  lemma OpenArrayRefines(frames: seq<Frame>, count: nat, rest: seq<byte>)
    requires FramesOk(frames) && |frames| < MAX_LEVEL && count > 0
    ensures Unwind(frames, ArrayOf(count, ParseElements(|frames| + 1, count, rest)))
         == Unwind(frames + [Frame(count, [])], ParseItem(|frames| + 1, rest))
  {
    var open := frames + [Frame(count, [])];
    assert open[..|open| - 1] == frames;
    var first := ParseItem(|frames| + 1, rest);
    if first.Complete? {
      var others := ParseElements(|frames| + 1, count - 1, first.rest);
      if others.Complete? {
        assert [] + [first.value] + others.value == [first.value] + others.value;
      }
    }
  }

  /** The stack machine computes exactly what the recursive parser computes from the same stack:
      same reply and same bytes left, same refusal, or input missing. */
  lemma {:induction false} RunRefinesParser(s: State, b: seq<byte>)
    requires Valid(s)
    ensures AsOutcome(Run(s, b)) == Resume(s, b)
    decreases |b|
  {
    if s.kind != Unread {
      StepTypedRefines(s.frames, s.kind, b);
    } else if b != [] && KindOf(b[0]) != Unread {
      StepTypedRefines(s.frames, KindOf(b[0]), b[1..]);
    }
    var res := Step(s, b);
    if res.Next? {
      RunRefinesParser(res.state, res.rest);
    }
  }

  /** From a fresh stack: a reply comes out exactly when the recursive parser completes one; it
      is the parse of exactly the bytes that were taken, and every array slot in it is filled. */
  lemma EmittedReplyIsTheParse(b: seq<byte>)
    ensures AsOutcome(Run(START, b)) == ParseItem(0, b)
    ensures Run(START, b).Emit? ==>
              var rest := Run(START, b).rest;
              && |rest| < |b|
              && b[|b| - |rest|..] == rest
              && ParseItem(0, b[..|b| - |rest|]) == Complete(Run(START, b).reply, [])
              && WellFilled(Run(START, b).reply)
  {
    RunRefinesParser(START, b);
    var o := ParseItem(0, b);
    if o.Complete? {
      ParseItemSuffix(0, b);
      ParseItemLocal(0, b, []);
      assert Used(b, o) + [] == b[..|b| - |o.rest|];
      ParseItemWellFilled(0, b);
    }
  }

  // ----- Chunk independence

  lemma SplitLineExtend(b: seq<byte>, x: seq<byte>)
    requires SplitLine(b).Line?
    ensures SplitLine(b + x) == Line(SplitLine(b).text, SplitLine(b).rest + x)
  {
    var l := SplitLine(b);
    SplitLineLocal(b, l.rest + x);
    SplitLineMeaning(b);
    ConcatAssoc(l.text + CRLF, l.rest, x);
  }

  lemma BodyExtend(b: seq<byte>, n: nat, x: seq<byte>)
    requires n + 2 <= |b|
    ensures (b + x)[..n] == b[..n]
    ensures (b + x)[n + 2..] == b[n + 2..] + x
  {
  }

  function Append(res: StepResult, x: seq<byte>): (res': StepResult) {
    if res.Fail? then res else res.(rest := res.rest + x)
  }

  /** An item that is there is not changed by more input. */
  lemma TakeItemExtend(kind: Kind, b: seq<byte>, x: seq<byte>)
    requires kind != Unread && !TakeItem(kind, b).Partial?
    ensures var item := TakeItem(kind, b);
            TakeItem(kind, b + x) == item.(rest := item.rest + x)
  {
    var l := SplitLine(b);
    SplitLineExtend(b, x);
    if kind == StringKind && ReadLongLong(l.text) >= 0 {
      BodyExtend(l.rest, ReadLongLong(l.text), x);
    }
  }

  lemma ApplyExtend(frames: seq<Frame>, kind: Kind, b: seq<byte>, item: Item, x: seq<byte>)
    requires FramesOk(frames) && kind != Unread && !item.Partial?
    requires kind == ArrayKind ==> |frames| < MAX_LEVEL
    requires item.Header? ==> |frames| < MAX_LEVEL && item.count > 0
    requires |item.rest| < |b|
    ensures Apply(frames, kind, b + x, item.(rest := item.rest + x)) == Append(Apply(frames, kind, b, item), x)
  {
  }

  /** A step that did not stop for lack of input is not changed by more input. */
  lemma StepTypedExtend(frames: seq<Frame>, kind: Kind, b: seq<byte>, x: seq<byte>)
    requires FramesOk(frames) && kind != Unread
    ensures var res := StepTyped(frames, kind, b);
            if res.Wait? then res == Wait(State(frames, kind), b)
            else StepTyped(frames, kind, b + x) == Append(res, x)
  {
    var item := TakeItem(kind, b);
    if (kind != ArrayKind || |frames| < MAX_LEVEL) && !item.Partial? {
      TakeItemExtend(kind, b, x);
      ApplyExtend(frames, kind, b, item, x);
    }
  }

  /** More input does not change a step that was taken; a step that stopped is taken up where it
      left off. */
  lemma StepExtend(s: State, b: seq<byte>, x: seq<byte>)
    requires Valid(s)
    ensures var res := Step(s, b);
            if res.Wait? then Step(res.state, res.rest + x) == Step(s, b + x)
            else Step(s, b + x) == Append(res, x)
  {
    if s.kind != Unread {
      StepTypedExtend(s.frames, s.kind, b, x);
    } else if b == [] {
      assert b + x == x;
    } else if KindOf(b[0]) != Unread {
      StepTypedExtend(s.frames, KindOf(b[0]), b[1..], x);
      assert (b + x)[1..] == b[1..] + x;
    }
  }

  lemma {:induction false} RunExtend(s: State, b: seq<byte>, x: seq<byte>)
    requires Valid(s)
    ensures var res := Run(s, b);
            Run(s, b + x) == if res.Wait? then Run(res.state, res.rest + x) else Append(res, x)
    decreases |b|
  {
    StepExtend(s, b, x);
    var res := Step(s, b);
    if res.Next? {
      RunExtend(res.state, res.rest, x);
    }
  }

  /** How a drained reader is left: waiting with a stack and unread bytes, or refused for good. */
  datatype End = Waiting(state: State, rest: seq<byte>) | Refused(err: ReadError)

  /** An end from which reading can go on. */
  predicate Resumable(end: End) {
    end.Waiting? ==> Parked(end.state)
  }

  function Pending(end: End): nat {
    if end.Waiting? then |end.rest| else 0
  }

  datatype Fetched = NoReply(end: End) | Got(reply: Reply, end: End)

  /** One redisReaderGetReply call. */
  function Fetch(end: End): (f: Fetched)
    requires Resumable(end)
    ensures Resumable(f.end)
    ensures f.Got? ==> Pending(f.end) < Pending(end)
  {
    match end
    case Refused(_) => NoReply(end)
    case Waiting(s, b) =>
      match Run(s, b)
      case Emit(r, rest) => Got(r, Waiting(START, rest))
      case Wait(s', rest) => NoReply(Waiting(s', rest))
      case Fail(e) => NoReply(Refused(e))
  }

  datatype Drained = Drained(replies: seq<Reply>, end: End)

  /** Replies taken out until none is left. */
  function Drain(s: State, b: seq<byte>): (d: Drained)
    requires Valid(s)
    ensures Resumable(d.end)
    decreases |b|
  {
    match Run(s, b)
    case Emit(r, rest) => var d := Drain(START, rest); Drained([r] + d.replies, d.end)
    case Wait(s', rest) => Drained([], Waiting(s', rest))
    case Fail(e) => Drained([], Refused(e))
  }

  function DrainEnd(end: End): (d: Drained)
    requires Resumable(end)
    ensures Resumable(d.end)
  {
    if end.Refused? then Drained([], end) else Drain(end.state, end.rest)
  }

  /** Feed a chunk, drain, feed the next; once refused, chunks are ignored. */
  function DrainChunks(end: End, chunks: seq<seq<byte>>): (d: Drained)
    requires Resumable(end)
    ensures Resumable(d.end)
    decreases |chunks|
  {
    if chunks == [] || end.Refused? then Drained([], end)
    else
      var first := Drain(end.state, end.rest + chunks[0]);
      var others := DrainChunks(first.end, chunks[1..]);
      Drained(first.replies + others.replies, others.end)
  }

  function Concat(chunks: seq<seq<byte>>): (b: seq<byte>) {
    if chunks == [] then [] else chunks[0] + Concat(chunks[1..])
  }

  /** Draining early loses nothing and changes nothing. */
  lemma {:induction false} DrainExtend(s: State, b: seq<byte>, x: seq<byte>)
    requires Valid(s)
    ensures var d := Drain(s, b);
            Drain(s, b + x) == if d.end.Refused? then d
                               else var d' := Drain(d.end.state, d.end.rest + x);
                                    Drained(d.replies + d'.replies, d'.end)
    decreases |b|
  {
    RunExtend(s, b, x);
    var res := Run(s, b);
    if res.Emit? {
      DrainExtend(START, res.rest, x);
      var d := Drain(START, res.rest);
      if d.end.Waiting? {
        var d' := Drain(d.end.state, d.end.rest + x);
        ConcatAssoc([res.reply], d.replies, d'.replies);
      }
    }
  }

  /** Every way of cutting a stream into feeds yields the same replies, the same error, and the
      same stack and unread bytes as one feed of the whole stream. */
  lemma {:induction false} ChunkIndependence(s: State, b: seq<byte>, chunks: seq<seq<byte>>)
    requires Valid(s)
    ensures var d := Drain(s, b);
            var cut := DrainChunks(d.end, chunks);
            Drain(s, b + Concat(chunks)) == Drained(d.replies + cut.replies, cut.end)
    decreases |chunks|
  {
    var d := Drain(s, b);
    if chunks == [] {
      assert b + Concat(chunks) == b;
    } else {
      var tail := Concat(chunks[1..]);
      DrainExtend(s, b, chunks[0]);
      ConcatAssoc(b, chunks[0], tail);
      if d.end.Refused? {
        DrainExtend(s, b + chunks[0], tail);
      } else {
        ChunkIndependence(s, b + chunks[0], chunks[1..]);
        var first := Drain(d.end.state, d.end.rest + chunks[0]);
        var others := DrainChunks(first.end, chunks[1..]);
        ConcatAssoc(d.replies, first.replies, others.replies);
      }
    }
  }

  /** The stream read with the recursive parser alone. */
  function ParseStream(b: seq<byte>): (d: (seq<Reply>, Outcome<Reply>))
    ensures !d.1.Complete?
    decreases |b|
  {
    var o := ParseItem(0, b);
    if !o.Complete? then ([], o)
    else var d := ParseStream(o.rest); ([o.value] + d.0, d.1)
  }

  lemma {:induction false} DrainIsParseStream(b: seq<byte>)
    ensures var d := Drain(START, b);
            && d.replies == ParseStream(b).0
            && ParseStream(b).1 == (if d.end.Refused? then Failed(d.end.err) else NeedMore)
    decreases |b|
  {
    RunRefinesParser(START, b);
    var res := Run(START, b);
    if res.Emit? {
      DrainIsParseStream(res.rest);
    }
  }

  /** A fresh reader fed any chunks delivers the replies the recursive parser finds in their
      concatenation, and reports its error if and only if the parser does. */
  lemma ChunkedStreamIsParsed(chunks: seq<seq<byte>>)
    ensures var d := DrainChunks(Waiting(START, []), chunks);
            && d.replies == ParseStream(Concat(chunks)).0
            && ParseStream(Concat(chunks)).1 == (if d.end.Refused? then Failed(d.end.err) else NeedMore)
  {
    ChunkIndependence(START, [], chunks);
    DrainIsParseStream(Concat(chunks));
    assert [] + Concat(chunks) == Concat(chunks);
    var cut := DrainChunks(Waiting(START, []), chunks);
    assert [] + cut.replies == cut.replies;
  }
}
