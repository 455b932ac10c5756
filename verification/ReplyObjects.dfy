/** The reply objects the reader allocates. A pointer is the allocation number of an object, and
    an array object is linked into its parent's slot before its own elements exist, as
    createArrayObject does. The predicates say which reply a linked structure denotes. */
module ReplyObjects {
  import opened Resp
  import opened ReaderMachine

  type Ref = int

  const NULL: Ref := -1

  datatype Object =
    | Leaf(reply: Reply)
    | Vector(elements: int, element: seq<Ref>)

  /** The object at id, with everything below it inside [id, hi), denotes r. */
  ghost predicate Built(objects: seq<Object>, id: Ref, hi: nat, r: Reply)
    decreases r
  {
    && 0 <= id < hi <= |objects|
    && match r {
         case Array(count, es) =>
           && objects[id].Vector?
           && objects[id].elements == count
           && |objects[id].element| == |es|
           && forall j | 0 <= j < |es| ::
                id < objects[id].element[j] && Built(objects, objects[id].element[j], hi, es[j])
         case _ => objects[id] == Leaf(r)
       }
  }

  /** A structure lives in its own range: other allocations and writes leave it alone. */
  lemma {:induction false} BuiltFrame(objects: seq<Object>, id: Ref, hi: nat, r: Reply, objects': seq<Object>, hi': nat)
    requires Built(objects, id, hi, r)
    requires hi <= hi' <= |objects'|
    requires forall i | id <= i < hi :: objects'[i] == objects[i]
    ensures Built(objects', id, hi', r)
    decreases r
  {
    if r.Array? {
      forall j | 0 <= j < |r.element|
        ensures Built(objects', objects[id].element[j], hi', r.element[j])
      {
        BuiltFrame(objects, objects[id].element[j], hi, r.element[j], objects', hi');
      }
    }
  }

  /** An array under construction at `self`: its finished elements are in its first slots, built
      before `limit`; the next slot holds `child`; the rest are still NULL. */
  ghost predicate FrameBuilt(objects: seq<Object>, self: Ref, limit: int, child: Ref, f: Frame) {
    && 0 <= self < limit <= |objects|
    && |f.done| < f.count
    && objects[self].Vector?
    && objects[self].elements == f.count == |objects[self].element|
    && (forall j | 0 <= j < |f.done| ::
          self < objects[self].element[j] && Built(objects, objects[self].element[j], limit, f.done[j]))
    && objects[self].element[|f.done|] == child
    && (forall j | |f.done| < j < f.count :: objects[self].element[j] == NULL)
  }

  /** The open arrays form a chain from the root: each sits in the next slot of the one outside
      it, and `tip` (or NULL) sits in the next slot of the innermost. */
  ghost predicate Linked(objects: seq<Object>, path: seq<Ref>, frames: seq<Frame>, tip: Ref)
    decreases |path|
  {
    && |path| == |frames|
    && (path == [] ||
        var n := |path| - 1;
        && FrameBuilt(objects, path[n], if tip == NULL then |objects| else tip, tip, frames[n])
        && Linked(objects, path[..n], frames[..n], path[n]))
  }

  /** The parent write of the create functions. */
  function Link(objects: seq<Object>, parent: Ref, idx: int, child: Ref): (objects': seq<Object>)
    requires 0 <= parent < |objects| && objects[parent].Vector? && 0 <= idx < |objects[parent].element|
    ensures |objects'| == |objects|
  {
    objects[parent := Vector(objects[parent].elements, objects[parent].element[idx := child])]
  }

  /** Arrays are allocated from the outside in. */
  lemma {:induction false} RootIsOldest(objects: seq<Object>, path: seq<Ref>, frames: seq<Frame>, tip: Ref)
    requires Linked(objects, path, frames, tip) && path != []
    ensures 0 <= path[0] <= path[|path| - 1]
    decreases |path|
  {
    var n := |path| - 1;
    if n > 0 {
      RootIsOldest(objects, path[..n], frames[..n], path[n]);
    }
  }

  /** The outer arrays of a chain do not see writes at or above its tip. */
  lemma {:induction false} LinkedFrame(objects: seq<Object>, path: seq<Ref>, frames: seq<Frame>, tip: Ref, objects': seq<Object>)
    requires Linked(objects, path, frames, tip) && 0 <= tip < |objects| <= |objects'|
    requires forall i | 0 <= i < tip :: objects'[i] == objects[i]
    ensures Linked(objects', path, frames, tip)
    decreases |path|
  {
    if path != [] {
      var n := |path| - 1;
      var f := frames[n];
      forall j | 0 <= j < |f.done|
        ensures Built(objects', objects[path[n]].element[j], tip, f.done[j])
      {
        BuiltFrame(objects, objects[path[n]].element[j], tip, f.done[j], objects', tip);
      }
      LinkedFrame(objects, path[..n], frames[..n], path[n], objects');
    }
  }

  /** Allocating `o` and linking it below the innermost open array. */
  lemma LinkedAfterCreate(objects: seq<Object>, path: seq<Ref>, frames: seq<Frame>, o: Object)
    requires Linked(objects, path, frames, NULL) && path != []
    ensures var n := |path| - 1;
            && 0 <= path[0] <= path[n] < |objects|
            && objects[path[n]].Vector?
            && |frames[n].done| < |objects[path[n]].element|
            && Linked(Link(objects + [o], path[n], |frames[n].done|, |objects|), path, frames, |objects|)
  {
    var n := |path| - 1;
    var f := frames[n];
    RootIsOldest(objects, path, frames, NULL);
    var objects' := Link(objects + [o], path[n], |f.done|, |objects|);
    forall j | 0 <= j < |f.done|
      ensures Built(objects', objects[path[n]].element[j], |objects|, f.done[j])
    {
      BuiltFrame(objects, objects[path[n]].element[j], |objects|, f.done[j], objects', |objects|);
    }
    LinkedFrame(objects, path[..n], frames[..n], path[n], objects');
  }

  /** A finished element completes its array: the array itself is then built. */
  lemma ArrayCompleted(objects: seq<Object>, self: Ref, tip: Ref, f: Frame, r: Reply)
    requires FrameBuilt(objects, self, tip, tip, f) && |f.done| + 1 == f.count
    requires Built(objects, tip, |objects|, r)
    ensures Built(objects, self, |objects|, Array(f.count, f.done + [r]))
  {
    var es := f.done + [r];
    forall j | 0 <= j < |es|
      ensures self < objects[self].element[j] && Built(objects, objects[self].element[j], |objects|, es[j])
    {
      if j < |f.done| {
        BuiltFrame(objects, objects[self].element[j], tip, f.done[j], objects, |objects|);
      }
    }
  }

  /** A finished element that leaves its array open moves the array on to its next slot. */
  lemma ElementAdded(objects: seq<Object>, self: Ref, tip: Ref, f: Frame, r: Reply)
    requires FrameBuilt(objects, self, tip, tip, f) && |f.done| + 1 < f.count
    requires Built(objects, tip, |objects|, r)
    ensures FrameBuilt(objects, self, |objects|, NULL, Frame(f.count, f.done + [r]))
  {
    forall j | 0 <= j < |f.done|
      ensures Built(objects, objects[self].element[j], |objects|, f.done[j])
    {
      BuiltFrame(objects, objects[self].element[j], tip, f.done[j], objects, |objects|);
    }
  }

  /** The element vector calloc gives a new array object. */
  function Nulls(count: nat): (element: seq<Ref>)
    ensures |element| == count
    ensures forall j | 0 <= j < count :: element[j] == NULL
  {
    seq(count, _ => NULL)
  }

  /** The root object of the reply in progress, when `tip` is the newest object. */
  ghost function Root(path: seq<Ref>, tip: Ref): Ref {
    if path == [] then tip else path[0]
  }

  /** Once `tip` denotes r, the objects agree with what Attach does to the open arrays: either the
      root object denotes the whole reply, or the remaining arrays are still well linked. */
  lemma {:induction false} AttachBuilt(objects: seq<Object>, path: seq<Ref>, frames: seq<Frame>, tip: Ref, r: Reply)
    requires FramesOk(frames) && Linked(objects, path, frames, tip) && tip != NULL
    requires Built(objects, tip, |objects|, r)
    ensures match Attach(frames, r)
            case Finished(root) => Built(objects, Root(path, tip), |objects|, root)
            case Continue(frames') => Linked(objects, path[..|frames'|], frames', NULL)
    decreases |path|
  {
    if path != [] {
      var n := |path| - 1;
      var f := frames[n];
      if |f.done| + 1 == f.count {
        ArrayCompleted(objects, path[n], tip, f, r);
        AttachBuilt(objects, path[..n], frames[..n], path[n], Array(f.count, f.done + [r]));
        var a := Attach(frames[..n], Array(f.count, f.done + [r]));
        assert a.Continue? ==> path[..n][..|a.frames|] == path[..|a.frames|];
      } else {
        StillOpen(objects, path, frames, tip, r);
      }
    }
  }

  /** A finished element that leaves the innermost array open. */
  lemma StillOpen(objects: seq<Object>, path: seq<Ref>, frames: seq<Frame>, tip: Ref, r: Reply)
    requires FramesOk(frames) && Linked(objects, path, frames, tip) && tip != NULL && path != []
    requires Built(objects, tip, |objects|, r)
    requires var f := frames[|frames| - 1]; |f.done| + 1 < f.count
    ensures var n := |path| - 1;
            var frames' := frames[..n] + [Frame(frames[n].count, frames[n].done + [r])];
            Linked(objects, path[..|frames'|], frames', NULL)
  {
    var n := |path| - 1;
    var f := frames[n];
    ElementAdded(objects, path[n], tip, f, r);
    var frames' := frames[..n] + [Frame(f.count, f.done + [r])];
    assert frames'[..n] == frames[..n];
    assert path[..|frames'|] == path;
  }

  /** The effect of a create function on the objects, for a task below the open arrays. */
  function CreateIn(objects: seq<Object>, path: seq<Ref>, idx: int, o: Object): (objects': seq<Object>)
    requires path != [] ==>
               && 0 <= path[|path| - 1] < |objects|
               && objects[path[|path| - 1]].Vector?
               && 0 <= idx < |objects[path[|path| - 1]].element|
    ensures |objects'| == |objects| + 1
  {
    if path == [] then objects + [o] else Link(objects + [o], path[|path| - 1], idx, |objects|)
  }

  /** Create then move on, for an item that is complete in itself. */
  lemma DeliverBuilt(objects: seq<Object>, path: seq<Ref>, frames: seq<Frame>, idx: int, o: Object, r: Reply)
    requires FramesOk(frames) && Linked(objects, path, frames, NULL)
    requires path != [] ==> idx == |frames[|frames| - 1].done|
    requires if r.Array? then r.element == [] && o == Vector(r.count, []) else o == Leaf(r)
    ensures CreateIn.requires(objects, path, idx, o)
    ensures var objects', tip := CreateIn(objects, path, idx, o), |objects|;
            match Attach(frames, r)
            case Finished(root) => Built(objects', Root(path, tip), |objects'|, root)
            case Continue(frames') => Linked(objects', path[..|frames'|], frames', NULL)
  {
    if path != [] {
      LinkedAfterCreate(objects, path, frames, o);
    }
    var objects' := CreateIn(objects, path, idx, o);
    assert objects'[|objects|] == o;
    AttachBuilt(objects', path, frames, |objects|, r);
  }

  /** Create and open, for an array that waits for elements. */
  lemma OpenBuilt(objects: seq<Object>, path: seq<Ref>, frames: seq<Frame>, idx: int, count: nat)
    requires Linked(objects, path, frames, NULL) && count > 0
    requires path != [] ==> idx == |frames[|frames| - 1].done|
    ensures var o := Vector(count, Nulls(count));
            && CreateIn.requires(objects, path, idx, o)
            && Linked(CreateIn(objects, path, idx, o), path + [|objects|], frames + [Frame(count, [])], NULL)
  {
    var o := Vector(count, Nulls(count));
    if path != [] {
      LinkedAfterCreate(objects, path, frames, o);
    }
    var objects' := CreateIn(objects, path, idx, o);
    assert objects'[|objects|] == o;
    var path', frames' := path + [|objects|], frames + [Frame(count, [])];
    assert path'[..|path|] == path && frames'[..|frames|] == frames;
  }
}
