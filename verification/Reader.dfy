/** The redisReader object: buffer, cursor, task stack and the reply under construction. */
module Reader {
  import opened Bytes
  import opened Resp
  import opened ReaderMachine
  import opened ReplyObjects
  import Sds

  /** Consumed input is dropped from the buffer once it reaches this many bytes. */
  const DISCARD_AT: nat := 1024

  const SLOTS: nat := MAX_LEVEL + 1

  /** redisReadTask. `parent` is the slot of the parent task, -1 at the root. */
  datatype ReadTask = ReadTask(kind: Kind, elements: int, idx: int, obj: Ref, parent: int)

  datatype Err = NoError | Protocol(why: ReadError)

  /** A byte of an sds, whose buffer carries a NUL one past its length. */
  function ByteAt(s: seq<byte>, i: nat): (c: byte)
    requires i <= |s|
  {
    if i == |s| then NUL else s[i]
  }

  lemma LineAt(s: seq<byte>, start: nat, k: nat)
    requires start + k + 2 <= |s| && s[start + k] == CR && s[start + k + 1] == LF
    requires forall j | 0 <= j < k :: !CrlfAt(s[start..], j)
    ensures SplitLine(s[start..]) == Line(s[start..start + k], s[start + k + 2..])
  {
    var text, rest := s[start..start + k], s[start + k + 2..];
    assert s[start..] == text + CRLF + rest;
    SplitLineUnique(s[start..], text, rest);
  }

  /** seekNewline: distance from start to the first CR LF, or -1. The byte after a trailing CR is
      the terminator, so the search never leaves the buffer. */
  method SeekNewline(s: seq<byte>, start: nat) returns (k: int)
    requires start <= |s|
    ensures k == -1 ==> SplitLine(s[start..]).NoLine?
    ensures k != -1 ==>
              && 0 <= k && start + k + 2 <= |s| && s[start + k] == CR
              && SplitLine(s[start..]) == Line(s[start..start + k], s[start + k + 2..])
  {
    var pos := 0;
    var last := |s| - start - 1;
    ghost var b := s[start..];
    SplitLineMeaning(b);
    while pos < last
      invariant 0 <= pos && (last >= 0 ==> pos <= last + 1)
      invariant forall j | 0 <= j < pos :: !CrlfAt(b, j)
      decreases last - pos
    {
      while pos < last && s[start + pos] != CR
        invariant 0 <= pos <= last
        invariant forall j | 0 <= j < pos :: !CrlfAt(b, j)
      {
        pos := pos + 1;
      }
      if s[start + pos] != CR {
        return -1;
      } else if ByteAt(s, start + pos + 1) == LF {
        LineAt(s, start, pos);
        return pos;
      } else {
        pos := pos + 1;
      }
    }
    return -1;
  }

  /** readLongLong on the bytes at `start`; it stops at the first CR, of which there is one at
      `end` at the latest. */
  method ReadNumber(s: seq<byte>, start: nat, ghost end: nat) returns (r: int)
    requires start <= end < |s| && s[end] == CR
    ensures r == ReadLongLong(s[start..end])
  {
    var p, mult := start, 1;
    if s[p] == MINUS {
      mult, p := -1, p + 1;
    } else if s[p] == PLUS {
      p := p + 1;
    }
    ghost var p0 := p;
    assert s[start..end] != [] ==> s[start..end][0] == s[start] && s[start..end][1..] == s[start + 1..end];
    var v: nat := 0;
    while s[p] != CR
      invariant p0 <= p <= end
      invariant ReadDigits(s[p0..end], 0) == ReadDigits(s[p..end], v)
      decreases end - p
    {
      assert s[p..end][0] == s[p] && s[p..end][1..] == s[p + 1..end];
      if IsDigit(s[p]) {
        v := 10 * v + (s[p] - ZERO);
      } else {
        return -1;
      }
      p := p + 1;
    }
    return mult * v;
  }

  lemma BodySlices(s: seq<byte>, start: nat, n: nat)
    requires start + n + 2 <= |s|
    ensures s[start..][..n] == s[start..start + n]
    ensures s[start..][n + 2..] == s[start + n + 2..]
  {
  }

  /** The reading part of processLineItem: the item at pos and the cursor behind it. */
  method ReadLineItem(kind: Kind, buf: seq<byte>, pos: nat) returns (item: Item, next: nat)
    requires pos <= |buf| && (kind == StatusKind || kind == ErrorKind || kind == IntegerKind)
    ensures item == TakeItem(kind, buf[pos..])
    ensures next <= |buf| && if item.Partial? then next == pos else item.rest == buf[next..]
  {
    var n := SeekNewline(buf, pos);
    if n == -1 {
      return Partial, pos;
    }
    next := pos + n + 2;
    if kind == IntegerKind {
      var v := ReadNumber(buf, pos, pos + n);
      item := Whole(Integer(v), buf[next..]);
    } else if kind == StatusKind {
      item := Whole(Status(buf[pos..pos + n]), buf[next..]);
    } else {
      item := Whole(Error(buf[pos..pos + n]), buf[next..]);
    }
  }

  /** The reading part of processBulkItem: nothing is taken unless the whole item is there. */
  method ReadBulkItem(buf: seq<byte>, pos: nat) returns (item: Item, next: nat)
    requires pos <= |buf|
    ensures item == TakeItem(StringKind, buf[pos..])
    ensures next <= |buf| && if item.Partial? then next == pos else item.rest == buf[next..]
  {
    var n := SeekNewline(buf, pos);
    if n == -1 {
      return Partial, pos;
    }
    next := pos + n + 2;
    var bulk := ReadNumber(buf, pos, pos + n);
    if bulk < 0 {
      return Whole(Nil, buf[next..]), next;
    }
    if next + bulk + 2 > |buf| {
      return Partial, pos;
    }
    BodySlices(buf, next, bulk);
    item := Whole(String(buf[next..next + bulk]), buf[next + bulk + 2..]);
    next := next + bulk + 2;
  }

  /** The reading part of processMultiBulkItem. */
  method ReadMultiBulkItem(buf: seq<byte>, pos: nat) returns (item: Item, next: nat)
    requires pos <= |buf|
    ensures item == TakeItem(ArrayKind, buf[pos..])
    ensures next <= |buf| && if item.Partial? then next == pos else item.rest == buf[next..]
  {
    var n := SeekNewline(buf, pos);
    if n == -1 {
      return Partial, pos;
    }
    next := pos + n + 2;
    var count := ReadNumber(buf, pos, pos + n);
    if count == -1 {
      item := Whole(Nil, buf[next..]);
    } else if count <= 0 {
      item := Whole(Array(count, []), buf[next..]);
    } else {
      item := Header(count, buf[next..]);
    }
  }

  /** The task slots agree with the open arrays. */
  ghost predicate TasksOk(tasks: seq<ReadTask>, frames: seq<Frame>, path: seq<Ref>)
    decreases |frames|
  {
    && |frames| == |path| < |tasks|
    && if frames == [] then tasks[0].idx == -1 && tasks[0].parent == -1
       else
         var n := |frames| - 1;
         && tasks[n].kind == ArrayKind && tasks[n].elements == frames[n].count && tasks[n].obj == path[n]
         && tasks[n + 1].parent == n && tasks[n + 1].idx == |frames[n].done|
         && TasksOk(tasks, frames[..n], path[..n])
  }

  /** Slots above the stack do not matter, nor do the type and size fields of the top slot. */
  lemma {:induction false} TasksFrame(tasks: seq<ReadTask>, frames: seq<Frame>, path: seq<Ref>, tasks': seq<ReadTask>)
    requires TasksOk(tasks, frames, path) && |tasks'| == |tasks|
    requires forall k | 0 <= k < |frames| :: tasks'[k] == tasks[k]
    requires tasks'[|frames|].idx == tasks[|frames|].idx && tasks'[|frames|].parent == tasks[|frames|].parent
    ensures TasksOk(tasks', frames, path)
    decreases |frames|
  {
    if frames != [] {
      var n := |frames| - 1;
      TasksFrame(tasks, frames[..n], path[..n], tasks');
    }
  }

  /** The current element of the innermost array is done; its slot serves the next one. */
  lemma TasksAdvance(tasks: seq<ReadTask>, frames: seq<Frame>, path: seq<Ref>, r: Reply, task: ReadTask)
    requires TasksOk(tasks, frames, path) && frames != []
    requires task.idx == tasks[|frames|].idx + 1 && task.parent == tasks[|frames|].parent
    ensures var n := |frames| - 1;
            TasksOk(tasks[|frames| := task], frames[..n] + [Frame(frames[n].count, frames[n].done + [r])], path)
  {
    var n := |frames| - 1;
    var frames' := frames[..n] + [Frame(frames[n].count, frames[n].done + [r])];
    assert frames'[..n] == frames[..n];
    TasksFrame(tasks, frames[..n], path[..n], tasks[|frames| := task]);
  }

  /** The current slot becomes an array task and the slot above it its first element's. */
  lemma TasksOpen(tasks: seq<ReadTask>, frames: seq<Frame>, path: seq<Ref>, count: nat, obj: Ref)
    requires TasksOk(tasks, frames, path) && |frames| + 1 < |tasks| && tasks[|frames|].kind == ArrayKind
    ensures var n := |frames|;
            TasksOk(tasks[n := tasks[n].(elements := count, obj := obj)][n + 1 := ReadTask(Unread, -1, 0, NULL, n)],
                    frames + [Frame(count, [])], path + [obj])
  {
    var n := |frames|;
    var tasks' := tasks[n := tasks[n].(elements := count, obj := obj)][n + 1 := ReadTask(Unread, -1, 0, NULL, n)];
    var frames', path' := frames + [Frame(count, [])], path + [obj];
    assert frames'[..n] == frames && path'[..n] == path;
    TasksFrame(tasks, frames, path, tasks');
  }

  /** Each of these objects denotes the reply at the same place. */
  ghost predicate AllBuilt(objects: seq<Object>, base: nat, refs: seq<Ref>, replies: seq<Reply>) {
    |refs| == |replies| && forall i | 0 <= i < |refs| :: Built(objects, refs[i], base, replies[i])
  }

  lemma AllBuiltFrame(objects: seq<Object>, base: nat, refs: seq<Ref>, replies: seq<Reply>, objects': seq<Object>, base': nat)
    requires AllBuilt(objects, base, refs, replies)
    requires base <= base' <= |objects'| && base <= |objects|
    requires forall i | 0 <= i < base :: objects'[i] == objects[i]
    ensures AllBuilt(objects', base', refs, replies)
  {
    forall i | 0 <= i < |refs|
      ensures Built(objects', refs[i], base', replies[i])
    {
      BuiltFrame(objects, refs[i], base, replies[i], objects', base');
    }
  }

  lemma AllBuiltConcat(objects: seq<Object>, base: nat, refs: seq<Ref>, replies: seq<Reply>, refs': seq<Ref>, replies': seq<Reply>)
    requires AllBuilt(objects, base, refs, replies) && AllBuilt(objects, base, refs', replies')
    ensures AllBuilt(objects, base, refs + refs', replies + replies')
  {
  }

  class RedisReader {
    var err: Err
    var buf: seq<byte>
    var pos: nat
    var len: nat
    const rstack: array<ReadTask>
    var ridx: int
    var reply: Ref
    var objects: seq<Object>

    /** The open arrays and their objects, and where the objects of the current reply begin,
        the reply that was completed last, and how the reader stood after the last call. */
    ghost var frames: seq<Frame>
    ghost var path: seq<Ref>
    ghost var base: nat
    ghost var root: Reply
    ghost var status: End

    ghost predicate Shape()
      reads this, rstack
    {
      && rstack.Length == SLOTS
      && pos <= len == |buf|
      && -1 <= ridx <= MAX_LEVEL
      && base <= |objects|
      && (ridx >= 0 ==> |frames| == ridx && FramesOk(frames) && TasksOk(rstack[..], frames, path))
      && (frames != [] ==> path != [] && path[0] >= base)
    }

    ghost predicate Valid()
      reads this, rstack
    {
      && Shape()
      && Linked(objects, path, frames, NULL)
      && (err != NoError ==> ridx == -1 && buf == [] && reply == NULL)
      && (ridx == -1 ==> frames == [] && path == [] && (reply == NULL || Finished()))
      && (ridx == 0 ==> reply == NULL)
      && (ridx > 0 ==> reply == path[0])
    }

    /** A complete reply waits to be handed out. */
    ghost predicate Finished()
      reads this
    {
      base <= reply && Built(objects, reply, |objects|, root)
    }

    ghost predicate Bounds()
      reads this
    {
      pos <= |buf| && -1 <= ridx < rstack.Length
    }

    /** The stack as the step machine sees it; an empty stack and a fresh root task are the same. */
    ghost function Stack(): (s: State)
      requires Bounds()
      reads this, rstack
    {
      if ridx == -1 then START else State(frames, rstack[ridx].kind)
    }

    ghost function Unread(): (b: seq<byte>)
      requires Bounds()
      reads this
    {
      buf[pos..]
    }

    /** What holds between calls: no reply is left behind, and `status` tells how the reader
        stands. */
    ghost predicate Ready()
      reads this, rstack
    {
      && Valid()
      && (ridx == -1 ==> reply == NULL)
      && status == (if err == NoError then Waiting(Stack(), Unread()) else Refused(err.why))
      && Resumable(status)
    }

    /** redisReaderCreate */
    constructor ()
      ensures Ready() && fresh(rstack)
      ensures status == Waiting(START, [])
    {
      err, buf, pos, len := NoError, [], 0, 0;
      rstack := new ReadTask[SLOTS](_ => ReadTask(Kind.Unread, 0, 0, NULL, -1));
      ridx, reply, objects := -1, NULL, [];
      frames, path, base, root := [], [], 0, Nil;
      status := Waiting(START, []);
    }

    /** redisReaderFeed */
    method Feed(data: seq<byte>) returns (ok: bool)
      requires Ready()
      modifies this
      ensures Ready()
      ensures ok == (old(err) == NoError)
      ensures status == if old(status).Refused? then old(status)
                        else Waiting(old(status).state, old(status).rest + data)
      ensures base == old(base) && objects == old(objects)
    {
      if err != NoError {
        return false;
      }
      if |data| >= 1 {
        buf := buf + data;
        len := |buf|;
        status := Waiting(status.state, status.rest + data);
      }
      return true;
    }

    /** What holds inside a call: the stack empties only when a reply is complete. */
    ghost predicate InCall(ok: bool)
      reads this, rstack
    {
      Valid() && (err == NoError && ridx == -1 ==> ok && Finished())
    }

    /** What one processItem call amounted to, in the terms of the step machine. */
    ghost function Verdict(ok: bool): (res: StepResult)
      requires Bounds()
      reads this, rstack
    {
      if err != NoError then Fail(err.why)
      else if !ok then Wait(Stack(), Unread())
      else if ridx >= 0 then Next(Stack(), Unread())
      else Emit(root, Unread())
    }

    /** Objects of replies handed out earlier are never touched. */
    twostate predicate KeepsOlder()
      reads this
    {
      && base == old(base) <= |old(objects)| <= |objects|
      && forall i | 0 <= i < base :: objects[i] == old(objects)[i]
    }

    /** The same across whole calls, which may hand out more replies. */
    twostate predicate KeepsOlderThan()
      reads this
    {
      && old(base) <= base <= |objects| && old(base) <= |old(objects)|
      && forall i | 0 <= i < old(base) :: objects[i] == old(objects)[i]
    }

    /** __redisReaderSetError */
    method SetError(why: ReadError)
      requires Shape()
      modifies this
      ensures Valid() && err == Protocol(why)
      ensures KeepsOlder()
    {
      reply := NULL;
      buf, pos, len := [], 0, 0;
      ridx := -1;
      frames, path := [], [];
      err := Protocol(why);
    }

    /** The create functions: allocate the object for the current task and write it into its
        parent's slot. Their assertion that the parent is an array object is a proof obligation. */
    method Create(o: Object) returns (obj: Ref)
      requires Valid() && ridx >= 0
      modifies this`objects
      ensures obj == |old(objects)|
      ensures CreateIn.requires(old(objects), path, rstack[ridx].idx, o)
      ensures objects == CreateIn(old(objects), path, rstack[ridx].idx, o)
      ensures KeepsOlder()
    {
      var task := rstack[ridx];
      obj := |objects|;
      if task.parent != -1 {
        LinkedAfterCreate(objects, path, frames, o);
        var parent := rstack[task.parent].obj;
        assert objects[parent].Vector?;
        objects := Link(objects + [o], parent, task.idx, obj);
      } else {
        objects := objects + [o];
      }
    }

    /** moveToNextTask, once the current task's reply r is complete. Both of its assertions are
        proof obligations here. */
    method MoveToNextTask(ghost r: Reply)
      requires Shape() && ridx >= 0
      modifies this`ridx, this`frames, this`path, rstack
      ensures Shape()
      ensures match Attach(old(frames), r)
              case Finished(_) => ridx == -1 && frames == [] && path == []
              case Continue(frames') =>
                frames == frames' && ridx == |frames'| && path == old(path)[..ridx] && rstack[ridx].kind == Kind.Unread
    {
      ghost var r' := r;
      while ridx >= 0
        invariant Shape() && ridx >= 0
        invariant Attach(frames, r') == Attach(old(frames), r)
        invariant ridx <= |old(path)| && path == old(path)[..ridx]
        decreases ridx
      {
        if ridx == 0 {
          ridx := -1;
          return;
        }
        var cur, prv := rstack[ridx], rstack[ridx - 1];
        assert prv.kind == ArrayKind;
        if cur.idx == prv.elements - 1 {
          r' := CloseArray(r');
        } else {
          assert cur.idx < prv.elements;
          NextElement(r');
          return;
        }
      }
    }

    /** The innermost array is complete: its own task is the current one again. */
    method CloseArray(ghost r: Reply) returns (ghost r': Reply)
      requires Shape() && ridx > 0 && rstack[ridx].idx == rstack[ridx - 1].elements - 1
      modifies this`ridx, this`frames, this`path
      ensures Shape() && ridx == old(ridx) - 1 && path == old(path)[..ridx]
      ensures Attach(frames, r') == Attach(old(frames), r)
    {
      ghost var n := ridx - 1;
      r' := Array(frames[n].count, frames[n].done + [r]);
      frames, path := frames[..n], path[..n];
      ridx := ridx - 1;
    }

    /** The slot of a finished element serves the next element. */
    method NextElement(ghost r: Reply)
      requires Shape() && ridx > 0 && rstack[ridx].idx < rstack[ridx - 1].elements - 1
      modifies this`frames, rstack
      ensures Shape() && Attach(old(frames), r) == Continue(frames) && rstack[ridx].kind == Kind.Unread
    {
      var next := rstack[ridx].(kind := Kind.Unread, elements := -1, idx := rstack[ridx].idx + 1);
      TasksAdvance(rstack[..], frames, path, r, next);
      ghost var n := ridx - 1;
      frames := frames[..n] + [Frame(frames[n].count, frames[n].done + [r])];
      rstack[ridx] := next;
    }

    /** The end of every item that is complete in itself: create its object, note it if it is the
        root, and move on. */
    method Deliver(o: Object, ghost r: Reply)
      requires Valid() && ridx >= 0 && err == NoError
      requires if r.Array? then r.element == [] && o == Vector(r.count, []) else o == Leaf(r)
      modifies this`ridx, this`frames, this`path, this`reply, this`objects, this`root, rstack
      ensures InCall(true) && Verdict(true) == ReaderMachine.Deliver(old(frames), r, old(Unread()))
      ensures KeepsOlder()
    {
      DeliverBuilt(objects, path, frames, rstack[ridx].idx, o, r);
      var obj := Create(o);
      if ridx == 0 {
        reply := obj;
      }
      Settle(r);
    }

    /** The objects are in place for a finished r: let the stack follow. */
    method Settle(ghost r: Reply)
      requires Shape() && ridx >= 0 && err == NoError && base <= reply
      requires ridx > 0 ==> reply == path[0]
      requires match Attach(frames, r)
               case Finished(whole) => Built(objects, reply, |objects|, whole)
               case Continue(frames') => Linked(objects, path[..|frames'|], frames', NULL)
      modifies this`ridx, this`frames, this`path, this`root, rstack
      ensures InCall(true) && Verdict(true) == ReaderMachine.Deliver(old(frames), r, old(Unread()))
    {
      ghost var a := Attach(frames, r);
      MoveToNextTask(r);
      if a.Finished? {
        root := a.reply;
      }
    }

    /** The building part shared by the three: create the object and move the task stack. */
    method Build(item: Item, ghost b: seq<byte>) returns (ok: bool)
      requires Valid() && ridx >= 0 && err == NoError && rstack[ridx].kind != Kind.Unread
      requires rstack[ridx].kind == ArrayKind ==> ridx < MAX_LEVEL
      requires item.Header? ==> rstack[ridx].kind == ArrayKind && item.count > 0
      requires item.Whole? && item.reply.Array? ==> item.reply.element == []
      requires if item.Partial? then Unread() == b else Unread() == item.rest && |item.rest| < |b|
      modifies this`ridx, this`frames, this`path, this`reply, this`objects, this`root, rstack
      ensures InCall(ok) && Verdict(ok) == Apply(old(frames), old(rstack[ridx].kind), b, item)
      ensures KeepsOlder()
    {
      match item {
        case Partial =>
          ok := false;
        case Whole(r, _) =>
          Deliver(if r.Array? then Vector(r.count, []) else Leaf(r), r);
          ok := true;
        case Header(count, _) =>
          Open(count);
          ok := true;
      }
    }

    /** The part of processMultiBulkItem that pushes a task for the first element. */
    method Open(count: nat)
      requires Valid() && 0 <= ridx < MAX_LEVEL && err == NoError && rstack[ridx].kind == ArrayKind && count > 0
      modifies this`ridx, this`frames, this`path, this`reply, this`objects, rstack
      ensures Valid() && ridx == old(ridx) + 1 && rstack[ridx].kind == Kind.Unread
      ensures frames == old(frames) + [Frame(count, [])]
      ensures KeepsOlder()
    {
      OpenBuilt(objects, path, frames, rstack[ridx].idx, count);
      var atRoot := ridx == 0;
      var obj := Create(Vector(count, Nulls(count)));
      PushTask(count, obj);
      reply := if atRoot then obj else reply;
    }

    method PushTask(count: nat, obj: Ref)
      requires Shape() && 0 <= ridx < MAX_LEVEL && rstack[ridx].kind == ArrayKind && count > 0
      requires path == [] ==> obj >= base
      modifies this`ridx, this`frames, this`path, rstack
      ensures Shape() && ridx == old(ridx) + 1 && rstack[ridx].kind == Kind.Unread
      ensures frames == old(frames) + [Frame(count, [])] && path == old(path) + [obj]
    {
      TasksOpen(rstack[..], frames, path, count, obj);
      rstack[ridx] := rstack[ridx].(elements := count, obj := obj);
      ridx := ridx + 1;
      rstack[ridx] := ReadTask(Kind.Unread, -1, 0, NULL, ridx - 1);
      frames, path := frames + [Frame(count, [])], path + [obj];
    }

    /** The typed half of processItem: processLineItem, processBulkItem or processMultiBulkItem. */
    method ProcessTyped() returns (ok: bool)
      requires Valid() && ridx >= 0 && err == NoError && rstack[ridx].kind != Kind.Unread
      modifies this, rstack
      ensures InCall(ok) && Verdict(ok) == StepTyped(old(frames), old(rstack[ridx].kind), old(Unread()))
      ensures KeepsOlder()
    {
      ghost var b := Unread();
      var kind, item := rstack[ridx].kind, Partial;
      if kind == ArrayKind && ridx == MAX_LEVEL {
        SetError(TooDeep);
        return false;
      }
      if kind == StringKind {
        item, pos := ReadBulkItem(buf, pos);
      } else if kind == ArrayKind {
        item, pos := ReadMultiBulkItem(buf, pos);
      } else {
        item, pos := ReadLineItem(kind, buf, pos);
      }
      ok := Build(item, b);
    }

    /** Note the type a type byte announces in the current task. */
    method SetKind(kind: Kind)
      requires Valid() && ridx >= 0 && err == NoError
      modifies rstack
      ensures Valid() && Stack() == State(frames, kind)
    {
      TasksFrame(rstack[..], frames, path, rstack[..][ridx := rstack[ridx].(kind := kind)]);
      rstack[ridx] := rstack[ridx].(kind := kind);
    }

    /** processItem */
    method ProcessItem() returns (ok: bool)
      requires Valid() && ridx >= 0 && err == NoError
      modifies this, rstack
      ensures InCall(ok) && Verdict(ok) == Step(old(Stack()), old(Unread()))
      ensures KeepsOlder()
    {
      ok := false;
      if rstack[ridx].kind != Kind.Unread {
        ok := ProcessTyped();
      } else if len - pos >= 1 {
        var c := buf[pos];
        pos := pos + 1;
        if KindOf(c) == Kind.Unread {
          SetError(BadTypeByte(c));
        } else {
          SetKind(KindOf(c));
          ok := ProcessTyped();
        }
      }
    }

    /** Push the root task when the stack is empty. */
    method EnsureRoot()
      requires Ready() && err == NoError
      modifies this`ridx, rstack
      ensures Valid() && ridx >= 0 && Stack() == old(Stack())
    {
      if ridx == -1 {
        rstack[0] := ReadTask(Kind.Unread, -1, -1, NULL, -1);
        ridx := 0;
      }
    }

    /** The item loop of redisReaderGetReply. */
    method ProcessItems() returns (ok: bool)
      requires Valid() && ridx >= 0 && err == NoError
      modifies this, rstack
      ensures InCall(ok) && Verdict(ok) == Run(old(Stack()), old(Unread()))
      ensures KeepsOlder()
    {
      ok := true;
      while ridx >= 0 && ok
        invariant InCall(ok) && KeepsOlder()
        invariant ridx >= 0 && ok ==> err == NoError && Run(Stack(), Unread()) == Run(old(Stack()), old(Unread()))
        invariant !(ridx >= 0 && ok) ==> Verdict(ok) == Run(old(Stack()), old(Unread()))
        decreases ridx >= 0 && ok, |buf| - pos
      {
        ok := ProcessItem();
      }
    }

    /** Drop consumed input once there is enough of it. */
    method Discard()
      requires Valid() && err == NoError
      modifies this`buf, this`pos, this`len
      ensures Valid() && Unread() == old(Unread()) && pos < DISCARD_AT
    {
      if pos >= DISCARD_AT {
        Sds.RangeDropsPrefix(buf, pos);
        buf := Sds.RangeOf(buf, pos, -1);
        pos := 0;
        len := |buf|;
      }
    }

    /** The end of redisReaderGetReply: discard, and emit a reply when there is one. */
    method HandOut(ghost ok: bool) returns (out: Ref)
      requires InCall(ok) && err == NoError && (ok ==> ridx == -1) && Parked(Stack())
      modifies this`buf, this`pos, this`len, this`reply, this`base, this`status
      ensures Ready() && old(base) <= base
      ensures ridx >= 0 ==> out == NULL && status == old(Waiting(Stack(), Unread()))
      ensures ridx == -1 ==> status == Waiting(START, old(Unread()))
      ensures ridx >= 0 || Built(objects, out, base, root)
    {
      Discard();
      out := NULL;
      if ridx == -1 {
        out := reply;
        reply := NULL;
        base := |objects|;
      }
      status := Waiting(Stack(), Unread());
    }

    /** redisReaderGetReply: `out` is NULL when no reply is complete yet. */
    method GetReply() returns (ok: bool, out: Ref)
      requires Ready()
      modifies this, rstack
      ensures Ready()
      ensures KeepsOlderThan()
      ensures ok == (err == NoError)
      ensures status == Fetch(old(status)).end
      ensures var f := Fetch(old(status)); f.NoReply? || Built(objects, out, base, f.reply)
      ensures Fetch(old(status)).NoReply? <==> out == NULL
    {
      if err != NoError {
        return false, NULL;
      }
      if len == 0 {
        return true, NULL;
      }
      ok, out := TakeReply();
    }

    /** The root task when there is none, and the item loop. */
    method ProcessAll() returns (ok: bool)
      requires Ready() && err == NoError
      modifies this, rstack
      ensures InCall(ok) && KeepsOlder() && old(status).Waiting?
      ensures Verdict(ok) == Run(old(status).state, old(status).rest)
    {
      EnsureRoot();
      ok := ProcessItems();
    }

    /** The working part of redisReaderGetReply. */
    method TakeReply() returns (ok: bool, out: Ref)
      requires Ready() && err == NoError
      modifies this, rstack
      ensures Ready()
      ensures KeepsOlderThan()
      ensures ok == (err == NoError)
      ensures status == Fetch(old(status)).end
      ensures var f := Fetch(old(status)); f.NoReply? || Built(objects, out, base, f.reply)
      ensures Fetch(old(status)).NoReply? <==> out == NULL
    {
      ghost var f := Fetch(status);
      ok := ProcessAll();
      if err != NoError {
        status := f.end;
        return false, NULL;
      }
      out := HandOut(ok);
      ok := true;
    }
  }

  /** Takes replies until there is none, as redisProcessCallbacks does. */
  method DrainReader(r: RedisReader) returns (outs: seq<Ref>)
    requires r.Ready()
    modifies r, r.rstack
    ensures r.Ready() && r.KeepsOlderThan()
    ensures r.status == DrainEnd(old(r.status)).end
    ensures AllBuilt(r.objects, r.base, outs, DrainEnd(old(r.status)).replies)
  {
    outs := [];
    ghost var got: seq<Reply> := [];
    ghost var all := DrainEnd(r.status);
    while true
      invariant r.Ready() && r.KeepsOlderThan()
      invariant AllBuilt(r.objects, r.base, outs, got)
      invariant all == Drained(got + DrainEnd(r.status).replies, DrainEnd(r.status).end)
      decreases Pending(r.status)
    {
      ghost var f := Fetch(r.status);
      ghost var objects, base := r.objects, r.base;
      var ok, out := r.GetReply();
      AllBuiltFrame(objects, base, outs, got, r.objects, r.base);
      if !ok || out == NULL {
        assert got + [] == got;
        return;
      }
      ConcatAssoc(got, [f.reply], DrainEnd(r.status).replies);
      AllBuiltConcat(r.objects, r.base, outs, got, [out], [f.reply]);
      outs, got := outs + [out], got + [f.reply];
    }
  }

  /** Feed and drain, chunk by chunk. */
  method FeedChunks(r: RedisReader, chunks: seq<seq<byte>>) returns (outs: seq<Ref>)
    requires r.Ready()
    modifies r, r.rstack
    ensures r.Ready() && r.KeepsOlderThan()
    ensures r.status == DrainChunks(old(r.status), chunks).end
    ensures AllBuilt(r.objects, r.base, outs, DrainChunks(old(r.status), chunks).replies)
    decreases |chunks|
  {
    outs := [];
    if chunks != [] {
      var ok := r.Feed(chunks[0]);
      if ok {
        ghost var d := DrainEnd(r.status);
        var first := DrainReader(r);
        ghost var objects, base := r.objects, r.base;
        var others := FeedChunks(r, chunks[1..]);
        AllBuiltFrame(objects, base, first, d.replies, r.objects, r.base);
        AllBuiltConcat(r.objects, r.base, first, d.replies, others, DrainChunks(d.end, chunks[1..]).replies);
        outs := first + others;
      }
    }
  }

  /** A fresh reader fed in any number of pieces: the objects handed out denote, in order, the
      replies that the recursive parser finds in the concatenated stream, and the reader ends in
      error exactly when the parser refuses the stream. */
  method ReadChunks(chunks: seq<seq<byte>>) returns (r: RedisReader, outs: seq<Ref>)
    ensures fresh(r) && fresh(r.rstack) && r.Ready()
    ensures AllBuilt(r.objects, r.base, outs, ParseStream(Concat(chunks)).0)
    ensures ParseStream(Concat(chunks)).1 == (if r.err == NoError then NeedMore else Failed(r.err.why))
  {
    r := new RedisReader();
    outs := FeedChunks(r, chunks);
    ChunkedStreamIsParsed(chunks);
  }
}
