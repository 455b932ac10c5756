/** When an iterator is given a posting twice. The one place where that can start is in front of the
    list, between the first GetValue and the first Next: a push there puts nodes in front of the posting
    just given, and the reader walks over them and meets that posting again. */
module PostingRepeats {
  import opened PostingList
  import opened PostingReader

  /** Whether the step is a push between the first GetValue and the first Next. */
  function InWindow(s: State, step: Step): (n: nat) {
    if step.Push? && s.reader == Reader(Front, MustMove) then 1 else 0
  }

  /** How many pushes are taken between the first GetValue and the first Next. */
  function Window(s: State, steps: seq<Step>): (m: nat)
    decreases |steps|
  {
    if steps == [] || !Enabled(s, steps[0]) || !Safe(s) then 0
    else InWindow(s, steps[0]) + Window(Take(s, steps[0]), steps[1..])
  }

  /** How many times GetValue is taken. */
  function Gets(s: State, steps: seq<Step>): (n: nat)
    decreases |steps|
  {
    if steps == [] || !Enabled(s, steps[0]) || !Safe(s) then 0
    else (if steps[0].GetValue? then 1 else 0) + Gets(Take(s, steps[0]), steps[1..])
  }

  ghost predicate Distinct(ids: seq<nat>) {
    forall i, j | 0 <= i < j < |ids| :: ids[i] != ids[j]
  }

  ghost predicate Descends(ids: seq<nat>) {
    forall i, j | 0 <= i < j < |ids| :: ids[i] > ids[j]
  }

  ghost predicate AtLeast(ids: seq<nat>, low: nat) {
    forall i | 0 <= i < |ids| :: ids[i] >= low
  }

  ghost predicate Stands(nodes: seq<Posting>, at: int, id: nat) {
    0 <= at < |nodes| && nodes[at].id == id
  }

  // ----- Where the first posting stands while the reader walks

  /** What was given, without the posting that will come again. */
  ghost function Trail(yielded: seq<nat>, m: nat): (ids: seq<nat>)
    requires |yielded| > 0
  {
    if m == 0 then yielded else yielded[1..]
  }

  /** After m > 0 pushes in the window: the first posting came again as number m, or it is still
      ahead, one step nearer with every posting given. */
  ghost predicate Returns(nodes: seq<Posting>, next: nat, stage: Stage, yielded: seq<nat>, m: nat)
    requires |yielded| > 0
  {
    var k := |yielded| - 1;
    if k >= m then yielded[m] == yielded[0]
    else Stands(nodes, next + m - k - (if stage == MustMove then 0 else 1), yielded[0])
  }

  ghost predicate Walking(l: List, r: Reader, yielded: seq<nat>, m: nat)
    requires r.cur.On?
  {
    var next := NextIndex(l.nodes, r.cur);
    && |yielded| > 0
    && (r.stage == MustMove ==> next < |l.nodes|)
    && Descends(Trail(yielded, m))
    && AtLeast(Trail(yielded, m), if r.stage == MustMove then l.nodes[next].id else r.cur.id)
    && (m > 0 ==> Returns(l.nodes, next, r.stage, yielded, m))
  }

  ghost predicate Trace(l: List, r: Reader, yielded: seq<nat>, m: nat) {
    if r.cur.On? then Walking(l, r, yielded, m)
    else if r.stage == MustMove then |yielded| == 1 && Stands(l.nodes, m, yielded[0])
    else |yielded| == 0 && m == 0
  }

  lemma NextShifts(l: List, bound: nat, cur: Cursor, p: Posting)
    requires Below(l.nodes, bound) && p.id >= bound && cur.On? && NextIndex(l.nodes, cur) > 0 && cur.id < bound
    ensures NextIndex(Pushed(l, p).nodes, cur) == NextIndex(l.nodes, cur) + 1
  {
    assert Pushed(l, p).nodes[1..] == l.nodes;
  }

  lemma PushReturns(nodes: seq<Posting>, p: Posting, next: nat, stage: Stage, yielded: seq<nat>, m: nat)
    requires |yielded| > 0 && Returns(nodes, next, stage, yielded, m)
    ensures Returns([p] + nodes, next + 1, stage, yielded, m)
  {
  }

  lemma PushTrace(l: List, bound: nat, r: Reader, yielded: seq<nat>, m: nat, p: Posting)
    requires Wellformed(l, bound) && Placed(l, r) && p.id >= bound && Trace(l, r, yielded, m)
    ensures Trace(Pushed(l, p), r, yielded, if r == Reader(Front, MustMove) then m + 1 else m)
  {
    if r.cur.On? {
      PushWalking(l, bound, r, yielded, m, p);
    }
  }

  lemma PushWalking(l: List, bound: nat, r: Reader, yielded: seq<nat>, m: nat, p: Posting)
    requires Below(l.nodes, bound) && Placed(l, r) && p.id >= bound && r.cur.On? && Walking(l, r, yielded, m)
    ensures Walking(Pushed(l, p), r, yielded, m)
  {
    var next := NextIndex(l.nodes, r.cur);
    NextShifts(l, bound, r.cur, p);
    assert next < |l.nodes| ==> ([p] + l.nodes)[next + 1] == l.nodes[next];
    if m > 0 {
      PushReturns(l.nodes, p, next, r.stage, yielded, m);
    }
  }

  /** A clear does not take the first posting, so it stays where it is. */
  lemma ClearReturns(nodes: seq<Posting>, k: nat, next: nat, stage: Stage, yielded: seq<nat>, m: nat)
    requires |yielded| > 0 && k <= |nodes| && Returns(nodes, next, stage, yielded, m)
    requires forall i | k <= i < |nodes| :: yielded[0] != nodes[i].id
    ensures Returns(nodes[..k], next, stage, yielded, m)
  {
  }

  lemma ClearTrace(l: List, bound: nat, r: Reader, erased: set<nat>, yielded: seq<nat>, m: nat)
    requires Wellformed(l, bound) && Placed(l, r) && Clean(l, bound, erased, yielded) && Trace(l, r, yielded, m)
    ensures Trace(Cleared(l), r, yielded, m)
  {
    var k, next := KeptCount(l), NextIndex(l.nodes, r.cur);
    if r.cur.On? {
      assert l.nodes[..k][next - 1] == l.nodes[next - 1];
      NextAfter(l.nodes[..k], next - 1);
      if m > 0 {
        ClearReturns(l.nodes, k, next, r.stage, yielded, m);
      }
    }
  }

  lemma GetTrace(l: List, r: Reader, yielded: seq<nat>, m: nat)
    requires Falling(l.nodes) && Placed(l, r) && Trace(l, r, yielded, m) && r.stage == MayGet
    ensures NextIndex(l.nodes, r.cur) < |l.nodes|
    ensures Trace(l, Reader(r.cur, MustMove), yielded + [l.nodes[NextIndex(l.nodes, r.cur)].id], m)
  {
    var next := NextIndex(l.nodes, r.cur);
    var id := l.nodes[next].id;
    if r.cur.On? {
      assert l.nodes[next - 1].id > id;
      assert Trail(yielded + [id], m) == Trail(yielded, m) + [id];
    }
  }

  lemma NextTrace(l: List, r: Reader, yielded: seq<nat>, m: nat)
    requires Falling(l.nodes) && Placed(l, r) && Trace(l, r, yielded, m) && r.stage == MustMove
    ensures NextIndex(l.nodes, r.cur) < |l.nodes|
    ensures Trace(l, Reader(On(l.nodes[NextIndex(l.nodes, r.cur)].id), AskFirst), yielded, m)
  {
    var next := NextIndex(l.nodes, r.cur);
    NextAfter(l.nodes, next);
    if r.cur.On? {
      NextWalking(l, r, yielded, m);
    }
  }

  lemma NextWalking(l: List, r: Reader, yielded: seq<nat>, m: nat)
    requires Falling(l.nodes) && r.cur.On? && r.stage == MustMove && Walking(l, r, yielded, m)
    requires NextIndex(l.nodes, On(l.nodes[NextIndex(l.nodes, r.cur)].id)) == NextIndex(l.nodes, r.cur) + 1
    ensures Walking(l, Reader(On(l.nodes[NextIndex(l.nodes, r.cur)].id), AskFirst), yielded, m)
  {
  }

  ghost predicate Traced(s: State, m: nat) {
    Inv(s) && Trace(s.list, s.reader, s.yielded, m)
  }

  lemma StepTrace(s: State, step: Step, m: nat)
    requires Inv(s) && Trace(s.list, s.reader, s.yielded, m) && Enabled(s, step) && Safe(s)
    ensures !Inv(s) || Trace(Take(s, step).list, Take(s, step).reader, Take(s, step).yielded, m + InWindow(s, step))
  {
    match step {
      case Push(p) => PushTrace(s.list, s.nextId, s.reader, s.yielded, m, p);
      case Clear => ClearTrace(s.list, s.nextId, s.reader, s.erased, s.yielded, m);
      case HasValue =>
      case GetValue => GetTrace(s.list, s.reader, s.yielded, m);
      case Next => NextTrace(s.list, s.reader, s.yielded, m);
    }
  }

  lemma StepTraced(s: State, step: Step, m: nat)
    requires Traced(s, m) && Enabled(s, step)
    ensures Safe(s)
    ensures !Inv(s) || Traced(Take(s, step), m + InWindow(s, step))
  {
    StepKeepsInv(s, step);
    StepTrace(s, step, m);
  }

  lemma {:induction false} RunTrace(s: State, steps: seq<Step>, m: nat)
    ensures !Traced(s, m) || Traced(Run(s, steps), m + Window(s, steps))
    decreases |steps|
  {
    if Traced(s, m) && steps != [] && Enabled(s, steps[0]) {
      StepTraced(s, steps[0], m);
      RunTrace(Take(s, steps[0]), steps[1..], m + InWindow(s, steps[0]));
    }
  }

  lemma {:induction false} GetsAreGiven(s: State, steps: seq<Step>)
    ensures |Run(s, steps).yielded| == |s.yielded| + Gets(s, steps)
    decreases |steps|
  {
    if steps != [] && Enabled(s, steps[0]) && Safe(s) {
      GetsAreGiven(Take(s, steps[0]), steps[1..]);
    }
  }

  /** A posting came twice exactly when the walk went far enough over the pushes of the window. */
  lemma RepeatsIff(l: List, r: Reader, yielded: seq<nat>, m: nat)
    requires Falling(l.nodes) && Placed(l, r) && Trace(l, r, yielded, m)
    ensures Distinct(yielded) <==> m == 0 || |yielded| <= m
    ensures m == 0 ==> Descends(yielded)
  {
    if r.cur.On? && m > 0 {
      if |yielded| > m {
        assert yielded[0] == yielded[m];
      } else {
        var next, first := NextIndex(l.nodes, r.cur), yielded[0];
        forall i | 0 < i < |yielded|
          ensures yielded[i] > first
        {
          assert yielded[1..][i - 1] == yielded[i];
        }
        forall i, j | 0 < i < j < |yielded|
          ensures yielded[i] != yielded[j]
        {
          assert yielded[1..][i - 1] == yielded[i] && yielded[1..][j - 1] == yielded[j];
        }
      }
    }
  }

  /** An iterator is given no posting twice, over every run, if and only if no push falls between its
      first GetValue and its first Next, or it stops before it has walked over those that do: with m > 0
      such pushes the first posting comes again at the m-th GetValue after it. Without them the ids
      fall all the way. */
  lemma NoPostingTwice(l: List, nextId: nat, steps: seq<Step>)
    requires Wellformed(l, nextId)
    ensures var s := State(l, Reader(Front, AskFirst), nextId, {}, []);
            var yielded, m := Run(s, steps).yielded, Window(s, steps);
            && (Distinct(yielded) <==> m == 0 || Gets(s, steps) <= m)
            && (m == 0 ==> Descends(yielded))
            && (0 < m < Gets(s, steps) ==> m < |yielded| && yielded[m] == yielded[0])
  {
    var s := State(l, Reader(Front, AskFirst), nextId, {}, []);
    RunTrace(s, steps, 0);
    GetsAreGiven(s, steps);
    var s' := Run(s, steps);
    RepeatsIff(s'.list, s'.reader, s'.yielded, Window(s, steps));
  }
}
