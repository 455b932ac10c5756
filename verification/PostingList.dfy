/** posting.cc: a posting list with its end mark, as the builder, the cleaner and the readers see it. */
module PostingList {

  /** A posting, and the list node that holds it. Postings are pushed at the front with ever larger
      document ids, so ids fall from front to back and name the nodes. */
  datatype Posting = Posting(id: nat, weight: int, timestamp: int)

  /** end_mark_: NULL, the sentinel in front of the list, or a node. */
  datatype Mark = Unmarked | AtFront | AtNode(id: nat)

  datatype List = List(nodes: seq<Posting>, mark: Mark)

  /** A position: the sentinel or a node. */
  datatype Cursor = Front | On(id: nat)

  predicate Falling(nodes: seq<Posting>) {
    forall i, j | 0 <= i < j < |nodes| :: nodes[i].id > nodes[j].id
  }

  predicate Below(nodes: seq<Posting>, bound: nat) {
    forall i | 0 <= i < |nodes| :: nodes[i].id < bound
  }

  predicate MarkPlaced(l: List) {
    l.mark.AtNode? ==> exists i :: 0 <= i < |l.nodes| && l.nodes[i].id == l.mark.id
  }

  /** PostingList::AddPosting */
  function Pushed(l: List, p: Posting): (l': List) {
    List([p] + l.nodes, l.mark)
  }

  /** Index of cur->next; the length of the list when that is NULL. */
  function NextIndex(nodes: seq<Posting>, cur: Cursor): (i: nat)
    ensures i <= |nodes|
  {
    if nodes == [] || cur.Front? then 0
    else if nodes[0].id < cur.id then 0
    else 1 + NextIndex(nodes[1..], cur)
  }

  /** Standing on the k-th node, the next is the one after it. */
  lemma {:induction false} NextAfter(nodes: seq<Posting>, k: nat)
    requires Falling(nodes) && k < |nodes|
    ensures NextIndex(nodes, On(nodes[k].id)) == k + 1
  {
    if k > 0 {
      NextAfter(nodes[1..], k - 1);
    } else if |nodes| > 1 {
      assert nodes[1].id < nodes[0].id;
      assert nodes[1..][0] == nodes[1];
    }
  }

  /** How many nodes EraseAfter(end mark) leaves. */
  function KeptCount(l: List): (k: nat)
    ensures k <= |l.nodes|
  {
    match l.mark
    case Unmarked => |l.nodes|
    case AtFront => 0
    case AtNode(id) => NextIndex(l.nodes, On(id))
  }

  function Kept(l: List): (nodes: seq<Posting>) { l.nodes[..KeptCount(l)] }

  function Ids(nodes: seq<Posting>): (ids: set<nat>) {
    set i | 0 <= i < |nodes| :: nodes[i].id
  }

  /** The documents whose postings the clear phase drops from this list. */
  function Dropped(l: List): (ids: set<nat>) { Ids(l.nodes[KeptCount(l)..]) }

  /** The clear phase on this list. */
  function Cleared(l: List): (l': List) {
    List(Kept(l), Unmarked)
  }

  /** The marking phase: the last node of the leading run of postings that are young enough. */
  function MarkFor(nodes: seq<Posting>, target: int, last: Mark): (m: Mark) {
    if nodes == [] || nodes[0].timestamp < target then last
    else MarkFor(nodes[1..], target, AtNode(nodes[0].id))
  }

  function Marked(l: List, target: int): (l': List) {
    l.(mark := MarkFor(l.nodes, target, AtFront))
  }

  lemma {:induction false} MarkForMarks(nodes: seq<Posting>, target: int, last: Mark)
    ensures var m := MarkFor(nodes, target, last);
            m == last || (m.AtNode? && exists i :: 0 <= i < |nodes| && nodes[i].id == m.id)
  {
    if nodes != [] && nodes[0].timestamp >= target {
      MarkForMarks(nodes[1..], target, AtNode(nodes[0].id));
      var m := MarkFor(nodes, target, last);
      if m != AtNode(nodes[0].id) {
        var i :| 0 <= i < |nodes| - 1 && nodes[1..][i].id == m.id;
        assert nodes[i + 1].id == m.id;
      }
    }
  }

  /** The marking loop of CleanOldStoryThread::Run on one list. */
  method MarkList(l: List, target: int) returns (l': List)
    ensures l' == Marked(l, target)
  {
    var cur, i := AtFront, 0;
    assert l.nodes[0..] == l.nodes;
    while i < |l.nodes| && l.nodes[i].timestamp >= target
      invariant i <= |l.nodes|
      invariant MarkFor(l.nodes[i..], target, cur) == MarkFor(l.nodes, target, AtFront)
    {
      assert l.nodes[i..][1..] == l.nodes[i + 1..];
      cur, i := AtNode(l.nodes[i].id), i + 1;
    }
    l' := l.(mark := cur);
  }

  /** PostingIteratorImpl::HasValue */
  predicate HasValueNow(l: List, cur: Cursor) {
    && NextIndex(l.nodes, cur) < |l.nodes|
    && l.mark != AtFront
    && !(cur.On? && l.mark == AtNode(cur.id))
  }

  /** The mark's node is the last one that is kept. */
  lemma MarkCount(l: List) returns (k: nat)
    requires Falling(l.nodes) && MarkPlaced(l) && l.mark.AtNode?
    ensures k == KeptCount(l) > 0 && l.nodes[k - 1].id == l.mark.id
  {
    var i :| 0 <= i < |l.nodes| && l.nodes[i].id == l.mark.id;
    NextAfter(l.nodes, i);
    k := i + 1;
  }

  /** PostingList::Size counts up to the mark: what a clear would keep. */
  method Size(l: List) returns (size: nat)
    requires Falling(l.nodes) && MarkPlaced(l)
    ensures size == KeptCount(l)
  {
    size := 0;
    if l.mark == AtFront {
      return;
    }
    if l.mark.AtNode? {
      ghost var k := MarkCount(l);
    }
    while size < |l.nodes| && !(size > 0 && l.mark == AtNode(l.nodes[size - 1].id))
      invariant size <= KeptCount(l)
    {
      size := size + 1;
    }
  }
}
