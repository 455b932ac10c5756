/** The singly linked callback lists of the asynchronous client. */
module CallbackList {

  /** A registered callback; fn may be NULL. */
  datatype Callback = Callback(id: int, hasFn: bool)

  class Node {
    var cb: Callback
    var next: Node?

    constructor (cb: Callback)
      ensures this.cb == cb && next == null
    {
      this.cb, next := cb, null;
    }
  }

  ghost function Successor(spine: seq<Node>, i: nat): Node? {
    if i + 1 < |spine| then spine[i + 1] else null
  }

  class Queue {
    var head: Node?
    var tail: Node?
    /** The callbacks, oldest first, and the nodes that hold them. */
    ghost var contents: seq<Callback>
    ghost var spine: seq<Node>
    /** The list and all its nodes. */
    ghost var Repr: set<object>

    ghost predicate Valid()
      reads this, Repr
    {
      && this in Repr && (forall i | 0 <= i < |spine| :: spine[i] in Repr)
      && (forall i, j | 0 <= i < j < |spine| :: spine[i] != spine[j])
      && (forall i | 0 <= i < |spine| :: spine[i].next == Successor(spine, i))
      && head == (if spine == [] then null else spine[0])
      && tail == (if spine == [] then null else spine[|spine| - 1])
      && |contents| == |spine| && (forall i | 0 <= i < |spine| :: contents[i] == spine[i].cb)
    }

    constructor ()
      ensures Valid() && contents == [] && fresh(Repr)
    {
      head, tail, spine, contents := null, null, [], [];
      Repr := {this};
    }

    /** __redisPushCallback */
    method Push(cb: Callback)
      requires Valid()
      modifies Repr
      ensures Valid() && contents == old(contents) + [cb] && fresh(Repr - old(Repr))
    {
      var n := new Node(cb);
      if head == null {
        head := n;
      }
      if tail != null {
        tail.next := n;
      }
      tail := n;
      spine, contents, Repr := spine + [n], contents + [cb], Repr + {n};
    }

    /** __redisShiftCallback */
    method Shift() returns (ok: bool, cb: Callback)
      requires Valid()
      modifies this
      ensures Valid() && ok == (old(contents) != []) && Repr == old(Repr)
      ensures ok ==> cb == old(contents)[0] && contents == old(contents)[1..]
      ensures !ok ==> contents == []
    {
      ok, cb := false, Callback(0, false);
      if head != null {
        assert head == spine[0] && head.next == Successor(spine, 0);
        ok, cb := true, head.cb;
        var n := head;
        head := n.next;
        if n == tail {
          tail := null;
        }
        spine, contents := spine[1..], contents[1..];
      }
    }
  }
}
