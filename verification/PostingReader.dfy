/** Readers of one posting list while the builder pushes and the cleaner clears: every call on
    the iterator, every push and the clear is one step. */
module PostingReader {
  import opened PostingList

  /** The prescribed order of calls: HasValue, GetValue, Next, and again. */
  datatype Stage = AskFirst | MayGet | MustMove

  datatype Reader = Reader(cur: Cursor, stage: Stage)

  /** The list and its reader, the document id counter, the ids erased from the list and the ids the
      reader was given. */
  datatype State = State(list: List, reader: Reader, nextId: nat, erased: set<nat>, yielded: seq<nat>)

  datatype Step = Push(p: Posting) | Clear | HasValue | GetValue | Next

  predicate Wellformed(l: List, bound: nat) {
    Falling(l.nodes) && Below(l.nodes, bound) && MarkPlaced(l)
  }

  /** Whether a step can be taken: the iterator is used in the prescribed order, and the builder
      pushes a document it has not pushed before. */
  predicate Enabled(s: State, step: Step) {
    match step
    case Push(p) => p.id >= s.nextId
    case Clear => true
    case HasValue => s.reader.stage == AskFirst
    case GetValue => s.reader.stage == MayGet
    case Next => s.reader.stage == MustMove
  }

  /** GetValue and Next follow cur->next, which must not be NULL. */
  predicate Safe(s: State) {
    s.reader.stage != AskFirst ==> NextIndex(s.list.nodes, s.reader.cur) < |s.list.nodes|
  }

  function Take(s: State, step: Step): (s': State)
    requires Enabled(s, step) && Safe(s)
  {
    var l, r := s.list, s.reader;
    match step
    case Push(p) => s.(list := Pushed(l, p), nextId := p.id + 1)
    case Clear => s.(list := Cleared(l), erased := s.erased + Dropped(l))
    case HasValue => s.(reader := Reader(r.cur, if HasValueNow(l, r.cur) then MayGet else AskFirst))
    case GetValue =>
      s.(reader := Reader(r.cur, MustMove), yielded := s.yielded + [l.nodes[NextIndex(l.nodes, r.cur)].id])
    case Next => s.(reader := Reader(On(l.nodes[NextIndex(l.nodes, r.cur)].id), AskFirst))
  }

  /** The reader stands on a node that the clear keeps, or in front of the list, and what it may
      still take is kept, too. */
  ghost predicate Placed(l: List, r: Reader) {
    var next := NextIndex(l.nodes, r.cur);
    && next <= KeptCount(l)
    && (r.cur.On? ==> next > 0 && l.nodes[next - 1].id == r.cur.id)
    && (r.stage != AskFirst ==> next < KeptCount(l))
  }

  /** Nothing the reader took is erased or about to be. */
  ghost predicate Clean(l: List, bound: nat, erased: set<nat>, yielded: seq<nat>) {
    && (forall i | 0 <= i < |l.nodes| :: l.nodes[i].id !in erased)
    && (forall x | x in erased :: x < bound)
    && (forall y | 0 <= y < |yielded| :: yielded[y] < bound && yielded[y] !in erased)
    && (forall y, i | 0 <= y < |yielded| && KeptCount(l) <= i < |l.nodes| :: yielded[y] != l.nodes[i].id)
  }

  ghost predicate Inv(s: State) {
    Wellformed(s.list, s.nextId) && Placed(s.list, s.reader) && Clean(s.list, s.nextId, s.erased, s.yielded)
  }

  /** A push shifts everything one place to the back. */
  lemma PushShifts(l: List, bound: nat, p: Posting)
    requires Wellformed(l, bound) && p.id >= bound
    ensures var l' := Pushed(l, p);
            && Wellformed(l', p.id + 1)
            && KeptCount(l') == (if l.mark == AtFront then 0 else KeptCount(l) + 1)
            && (forall i | 0 < i < |l'.nodes| :: l'.nodes[i] == l.nodes[i - 1])
  {
    var l' := Pushed(l, p);
    assert forall i | 0 < i < |l'.nodes| :: l'.nodes[i] == l.nodes[i - 1];
    if l.mark.AtNode? {
      var k := MarkCount(l);
      assert l'.nodes[k].id == l.mark.id;
      assert Falling(l'.nodes);
      NextAfter(l'.nodes, k);
    }
  }

  lemma PushPlaced(l: List, bound: nat, r: Reader, p: Posting)
    requires Wellformed(l, bound) && p.id >= bound && Placed(l, r)
    ensures Placed(Pushed(l, p), r)
  {
    PushShifts(l, bound, p);
    var l' := Pushed(l, p);
    if r.cur.On? {
      var next := NextIndex(l.nodes, r.cur);
      assert l'.nodes[next] == l.nodes[next - 1];
      NextAfter(l'.nodes, next);
    }
  }

  lemma PushClean(l: List, bound: nat, erased: set<nat>, yielded: seq<nat>, p: Posting)
    requires Wellformed(l, bound) && p.id >= bound && Clean(l, bound, erased, yielded)
    ensures Clean(Pushed(l, p), p.id + 1, erased, yielded)
  {
    PushShifts(l, bound, p);
    var l' := Pushed(l, p);
    forall y, i | 0 <= y < |yielded| && KeptCount(l') <= i < |l'.nodes|
      ensures yielded[y] != l'.nodes[i].id
    {
      if i > 0 {
        assert l'.nodes[i] == l.nodes[i - 1];
      }
    }
  }

  lemma ClearPlaced(l: List, bound: nat, r: Reader)
    requires Wellformed(l, bound) && Placed(l, r)
    ensures Wellformed(Cleared(l), bound) && Placed(Cleared(l), r)
  {
    var l' := Cleared(l);
    if r.cur.On? {
      var next := NextIndex(l.nodes, r.cur);
      assert l'.nodes[next - 1] == l.nodes[next - 1];
      NextAfter(l'.nodes, next - 1);
    }
  }

  lemma ClearClean(l: List, bound: nat, erased: set<nat>, yielded: seq<nat>)
    requires Wellformed(l, bound) && Clean(l, bound, erased, yielded)
    ensures Clean(Cleared(l), bound, erased + Dropped(l), yielded)
  {
    var k := KeptCount(l);
    forall i | 0 <= i < k
      ensures Kept(l)[i].id !in Dropped(l)
    {
      NotDropped(l, l.nodes[i].id);
    }
    forall y | 0 <= y < |yielded|
      ensures yielded[y] !in Dropped(l)
    {
      NotDropped(l, yielded[y]);
    }
    forall x | x in Dropped(l)
      ensures x < bound
    {
      var i :| k <= i < |l.nodes| && l.nodes[i].id == x;
    }
  }

  lemma NotDropped(l: List, id: nat)
    requires forall i | KeptCount(l) <= i < |l.nodes| :: l.nodes[i].id != id
    ensures id !in Dropped(l)
  {
    var tail := l.nodes[KeptCount(l)..];
    assert forall j | 0 <= j < |tail| :: tail[j] == l.nodes[KeptCount(l) + j];
  }

  lemma StepKeepsInv(s: State, step: Step)
    requires Inv(s) && Enabled(s, step)
    ensures Safe(s) && Inv(Take(s, step))
  {
    var l, cur, bound := s.list, s.reader.cur, s.nextId;
    match step {
      case Push(p) =>
        PushShifts(l, bound, p);
        PushPlaced(l, bound, s.reader, p);
        PushClean(l, bound, s.erased, s.yielded, p);
      case Clear => ClearPlaced(l, bound, s.reader); ClearClean(l, bound, s.erased, s.yielded);
      case HasValue =>
        if l.mark.AtNode? {
          var k := MarkCount(l);
        }
      case GetValue =>
      case Next => NextAfter(l.nodes, NextIndex(l.nodes, cur));
    }
  }

  /** All steps, as long as each is allowed. */
  function Run(s: State, steps: seq<Step>): (s': State)
    decreases |steps|
  {
    if steps == [] || !Enabled(s, steps[0]) || !Safe(s) then s
    else Run(Take(s, steps[0]), steps[1..])
  }

  lemma {:induction false} RunKeepsInv(s: State, steps: seq<Step>)
    requires Inv(s)
    ensures Inv(Run(s, steps))
    decreases |steps|
  {
    if steps != [] && Enabled(s, steps[0]) {
      StepKeepsInv(s, steps[0]);
      RunKeepsInv(Take(s, steps[0]), steps[1..]);
    }
  }

  /** A reader created on a freshly marked list never follows a NULL link and is never given a
      posting that the clear phase erases, under every interleaving with pushes and the clear. */
  lemma ReaderSafety(l: List, nextId: nat, target: int, steps: seq<Step>)
    requires Wellformed(l, nextId)
    ensures var s := Run(State(Marked(l, target), Reader(Front, AskFirst), nextId, {}, []), steps);
            Safe(s) && forall y | y in s.yielded :: y !in s.erased
  {
    MarkForMarks(l.nodes, target, AtFront);
    RunKeepsInv(State(Marked(l, target), Reader(Front, AskFirst), nextId, {}, []), steps);
  }

  /** A push between GetValue and Next moves the reader onto the new posting, so the one it was
      given comes again. */
  lemma PushRepeatsPosting(l: List, nextId: nat, p: Posting)
    requires Wellformed(l, nextId) && p.id >= nextId && l.mark == Unmarked && l.nodes != []
    ensures var s := Run(State(l, Reader(Front, AskFirst), nextId, {}, []), [HasValue] + [GetValue, Push(p), Next, HasValue, GetValue]);
            s.yielded == [l.nodes[0].id, l.nodes[0].id]
  {
    var s0 := State(l, Reader(Front, AskFirst), nextId, {}, []);
    var s1 := Take(s0, HasValue);
    var s2 := Take(s1, GetValue);
    var s3 := Take(s2, Push(p));
    var s4 := Take(s3, Next);
    assert s4.list.nodes[1..] == l.nodes;
    var s5 := Take(s4, HasValue);
    RunOne(s0, HasValue, [GetValue, Push(p), Next, HasValue, GetValue]);
    RunOne(s1, GetValue, [Push(p), Next, HasValue, GetValue]);
    RunOne(s2, Push(p), [Next, HasValue, GetValue]);
    RunOne(s3, Next, [HasValue, GetValue]);
    RunOne(s4, HasValue, [GetValue]);
    RunOne(s5, GetValue, []);
  }

  lemma RunOne(s: State, step: Step, rest: seq<Step>)
    requires Enabled(s, step) && Safe(s)
    ensures Run(s, [step] + rest) == Run(Take(s, step), rest)
  {
    assert ([step] + rest)[1..] == rest;
  }
}
