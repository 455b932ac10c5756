/** The watch table of the event loop (ae.c) and two kernel back ends for it: illumos event ports
    (ae_evport.c) and epoll (ae_epoll.c). */
module EventLoop {

  datatype Interest = Readable | Writable

  /** AE_NONE is the empty mask. */
  type Mask = set<Interest>

  const MAX_EVENT_BATCHSZ: nat := 512

  /** poll(2) and epoll(7) flags. */
  datatype Flag = In | Out | Err | Hup

  /** What the kernel reports, and what the loop is told has fired. */
  datatype KernelEvent = KernelEvent(fd: int, flags: set<Flag>)

  datatype Fired = Fired(fd: int, mask: Mask)

  function PortMask(flags: set<Flag>): (m: Mask) {
    (if In in flags then {Readable} else {}) + (if Out in flags then {Writable} else {})
  }

  /** Errors and hangups count as writable with epoll. */
  function EpollMask(flags: set<Flag>): (m: Mask) {
    (if In in flags then {Readable} else {}) + (if flags * {Out, Err, Hup} != {} then {Writable} else {})
  }

  /** An event port reports readable for In and writable for Out, and nothing else. */
  predicate PortFires(event: KernelEvent, f: Fired) {
    && f.fd == event.fd
    && (Readable in f.mask <==> In in event.flags)
    && (Writable in f.mask <==> Out in event.flags)
  }

  /** epoll reports readable for In, and writable for Out, an error or a hangup. */
  predicate EpollFires(event: KernelEvent, f: Fired) {
    && f.fd == event.fd
    && (Readable in f.mask <==> In in event.flags)
    && (Writable in f.mask <==> Out in event.flags || Err in event.flags || Hup in event.flags)
  }

  lemma EpollMaskFires(event: KernelEvent)
    ensures EpollFires(event, Fired(event.fd, EpollMask(event.flags)))
  {
    var both := event.flags * {Out, Err, Hup};
    assert Out in event.flags <==> Out in both;
    assert Err in event.flags <==> Err in both;
    assert Hup in event.flags <==> Hup in both;
    if both != {} {
      var f :| f in both;
      assert f in {Out, Err, Hup};
    }
  }

  /** One call on the loop; a poll comes with the kernel's report. */
  datatype Op = Create(fd: nat, mask: Mask) | Delete(fd: nat, mask: Mask) | Poll(ready: seq<KernelEvent>)

  /** The abstract table: which events each descriptor is watched for. */
  function ApplyOp(masks: seq<Mask>, op: Op): (masks': seq<Mask>)
    ensures |masks'| == |masks|
  {
    match op
    case Create(fd, mask) => if fd < |masks| then masks[fd := masks[fd] + mask] else masks
    case Delete(fd, mask) => if fd < |masks| then masks[fd := masks[fd] - mask] else masks
    case Poll(_) => masks
  }

  /** A call and whether the kernel grants what the call asks of it. */
  datatype Call = Call(op: Op, granted: bool)

  /** The abstract table after calls with these results: a registration that failed changes nothing. */
  function ApplyCalls(masks: seq<Mask>, calls: seq<Call>, oks: seq<bool>): (masks': seq<Mask>)
    requires |calls| == |oks|
    ensures |masks'| == |masks|
    decreases |calls|
  {
    if calls == [] then masks
    else
      var n := |calls| - 1;
      var before := ApplyCalls(masks, calls[..n], oks[..n]);
      if oks[n] then ApplyOp(before, calls[n].op) else before
  }

  /** The call registers fd for e, or deletes that. */
  predicate Registers(op: Op, fd: nat, e: Interest) { op.Create? && op.fd == fd && e in op.mask }

  predicate Unregisters(op: Op, fd: nat, e: Interest) { op.Delete? && op.fd == fd && e in op.mask }

  /** Call i registered fd for e, and none since deleted it. */
  ghost predicate Stands(calls: seq<Call>, oks: seq<bool>, fd: nat, e: Interest, i: nat)
    requires |calls| == |oks| && i < |calls|
  {
    oks[i] && Registers(calls[i].op, fd, e) && forall j | i < j < |calls| && oks[j] :: !Unregisters(calls[j].op, fd, e)
  }

  /** fd is watched for e exactly when some registration succeeded and was not deleted since. */
  lemma {:induction false} WatchedIffStands(masks: seq<Mask>, calls: seq<Call>, oks: seq<bool>, fd: nat, e: Interest)
    requires |calls| == |oks| && fd < |masks| && masks[fd] == {}
    ensures e in ApplyCalls(masks, calls, oks)[fd] <==> exists i | 0 <= i < |calls| :: Stands(calls, oks, fd, e, i)
    decreases |calls|
  {
    if calls != [] {
      var n := |calls| - 1;
      var calls1, oks1 := calls[..n], oks[..n];
      WatchedIffStands(masks, calls1, oks1, fd, e);
      var gone := oks[n] && Unregisters(calls[n].op, fd, e);
      assert forall i | 0 <= i < n :: Stands(calls, oks, fd, e, i) <==> Stands(calls1, oks1, fd, e, i) && !gone by {
        forall i | 0 <= i < n ensures Stands(calls, oks, fd, e, i) <==> Stands(calls1, oks1, fd, e, i) && !gone {
          StandsStep(calls, oks, fd, e, i);
        }
      }
      assert Stands(calls, oks, fd, e, n) <==> oks[n] && Registers(calls[n].op, fd, e);
    }
  }

  lemma StandsStep(calls: seq<Call>, oks: seq<bool>, fd: nat, e: Interest, i: nat)
    requires |calls| == |oks| && i < |calls| - 1
    ensures var n := |calls| - 1;
            Stands(calls, oks, fd, e, i)
            <==> Stands(calls[..n], oks[..n], fd, e, i) && !(oks[n] && Unregisters(calls[n].op, fd, e))
  {
    var n := |calls| - 1;
    assert forall j | 0 <= j < n :: calls[..n][j] == calls[j] && oks[..n][j] == oks[j];
  }

  /** The watched descriptors with their masks. */
  ghost function Watched(masks: seq<Mask>): (t: map<int, Mask>) {
    map fd | 0 <= fd < |masks| && masks[fd] != {} :: masks[fd]
  }

  /** Associations carry the masks of the loop, and a watched descriptor has one. */
  ghost predicate Covers(masks: seq<Mask>, t: map<int, Mask>) {
    && (forall fd | fd in t :: 0 <= fd < |masks| && t[fd] == masks[fd])
    && (forall fd | 0 <= fd < |masks| && masks[fd] != {} :: fd in t)
  }

  /** A descriptor that has an association although nobody watches it. */
  predicate LeftOver(masks: seq<Mask>, t: map<int, Mask>, fd: int) {
    fd in t && 0 <= fd < |masks| && masks[fd] == {}
  }

  /** Associations are exactly the watch table when none is left over. */
  lemma WatchedIffNoneLeftOver(masks: seq<Mask>, t: map<int, Mask>)
    requires Covers(masks, t)
    ensures t == Watched(masks) <==> forall fd :: !LeftOver(masks, t, fd)
  {
    var w := Watched(masks);
    assert forall fd | fd in w :: fd in t && t[fd] == w[fd];
    assert forall fd | fd in t :: fd in w <==> !LeftOver(masks, t, fd);
    if forall fd :: !LeftOver(masks, t, fd) {
      assert t.Keys == w.Keys;
    }
  }

  /** What a deletion does to the associations. */
  function Dropped(masks: seq<Mask>, t: map<int, Mask>, fd: nat, mask: Mask): (t': map<int, Mask>) {
    if fd >= |masks| || masks[fd] == {} then t
    else if masks[fd] - mask == {} then t - {fd}
    else t[fd := masks[fd] - mask]
  }

  /** What a call that succeeds does to the associations. */
  function ApplyTo(masks: seq<Mask>, t: map<int, Mask>, op: Op): (t': map<int, Mask>) {
    match op
    case Create(fd, mask) => if fd < |masks| then t[fd := masks[fd] + mask] else t
    case Delete(fd, mask) => Dropped(masks, t, fd, mask)
    case Poll(_) => t
  }

  /** A registration of fd for no event, while nobody watches fd. */
  predicate Idle(masks: seq<Mask>, op: Op, fd: int) {
    op.Create? && op.fd == fd && fd < |masks| && masks[fd] + op.mask == {}
  }

  /** Only a registration changes what is left over, for its own descriptor. */
  lemma LeftOverAfter(masks: seq<Mask>, t: map<int, Mask>, op: Op, fd: int)
    requires Covers(masks, t) && (op.Create? ==> op.fd < |masks|)
    ensures LeftOver(ApplyOp(masks, op), ApplyTo(masks, t, op), fd)
            <==> if op.Create? && op.fd == fd then Idle(masks, op, fd) else LeftOver(masks, t, fd)
  {
    match op {
      case Create(d, mask) =>
      case Delete(d, mask) =>
        if d < |masks| && masks[d] == {} {
          assert masks[d] - mask == masks[d];
          assert masks[d := masks[d] - mask] == masks;
        }
      case Poll(_) =>
    }
  }

  /** ae.c: one mask per descriptor, and a bound above which nothing is watched. */
  class AeTable {
    const events: array<Mask>
    var maxfd: int

    ghost predicate Valid()
      reads this, events
    {
      -1 <= maxfd < events.Length && forall fd | maxfd < fd < events.Length :: events[fd] == {}
    }

    /** maxfd itself is watched, unless nothing is. */
    ghost predicate Exact()
      requires Valid()
      reads this, events
    {
      maxfd == -1 || events[maxfd] != {}
    }

    constructor (setsize: nat)
      ensures Valid() && Exact() && fresh(events) && events.Length == setsize
      ensures forall fd | 0 <= fd < setsize :: events[fd] == {}
    {
      events := new Mask[setsize](_ => {});
      maxfd := -1;
    }

    /** The table update of aeCreateFileEvent. */
    method Record(fd: nat, mask: Mask)
      requires Valid() && fd < events.Length
      modifies this, events
      ensures Valid() && events[..] == ApplyOp(old(events[..]), Create(fd, mask))
      ensures old(Exact()) && mask != {} ==> Exact()
    {
      events[fd] := events[fd] + mask;
      if fd > maxfd {
        maxfd := fd;
      }
    }

    /** The table update of aeDeleteFileEvent, with its search for the new maxfd. */
    method Forget(fd: nat, mask: Mask)
      requires Valid() && fd < events.Length && events[fd] != {}
      modifies this, events
      ensures Valid() && events[..] == ApplyOp(old(events[..]), Delete(fd, mask))
      ensures old(Exact()) ==> Exact()
    {
      events[fd] := events[fd] - mask;
      if fd == maxfd && events[fd] == {} {
        var j := maxfd - 1;
        while j >= 0 && events[j] == {}
          invariant -1 <= j < maxfd
          invariant forall k | j < k < events.Length :: events[k] == {}
        {
          j := j - 1;
        }
        maxfd := j;
      }
    }
  }

  // ----- Event ports

  /** Each association is either in the kernel or in the pending arrays, never in both, and always
      with the mask of the loop; a watched descriptor has one. */
  ghost predicate Ported(masks: seq<Mask>, kernel: map<int, Mask>, fds: seq<int>, pmasks: seq<Mask>) {
    && |fds| == |pmasks|
    && (forall i | 0 <= i < |fds| :: fds[i] == -1 ||
          (0 <= fds[i] < |masks| && fds[i] !in kernel && pmasks[i] == masks[fds[i]]))
    && (forall i, j | 0 <= i < j < |fds| :: fds[i] == -1 || fds[i] != fds[j])
    && (forall fd | fd in kernel :: 0 <= fd < |masks| && kernel[fd] == masks[fd])
    && (forall fd | 0 <= fd < |masks| && masks[fd] != {} :: fd in kernel || fd in fds)
  }

  /** An event port_getn may report: an associated descriptor and the events that happened. */
  predicate Reportable(kernel: map<int, Mask>, ready: seq<KernelEvent>) {
    && |ready| <= MAX_EVENT_BATCHSZ
    && (forall i | 0 <= i < |ready| :: ready[i].fd in kernel)
    && (forall i, j | 0 <= i < j < |ready| :: ready[i].fd != ready[j].fd)
  }

  class PortLoop {
    const ae: AeTable
    var kernel: map<int, Mask>
    var npending: nat
    const pendingFds: array<int>
    const pendingMasks: array<Mask>
    const fired: array<Fired>

    ghost predicate Wired()
      reads this, ae
    {
      && pendingFds.Length == pendingMasks.Length == MAX_EVENT_BATCHSZ
      && ae.events != pendingMasks
      && fired.Length == ae.events.Length
      && npending <= MAX_EVENT_BATCHSZ
    }

    ghost predicate Valid()
      reads this, ae, ae.events, pendingFds, pendingMasks
    {
      && Wired()
      && ae.Valid()
      && Ported(ae.events[..], kernel, pendingFds[..npending], pendingMasks[..npending])
    }

    /** All associations, in the kernel and pending. */
    function Table(): (t: map<int, Mask>)
      requires npending <= pendingFds.Length
      reads this, ae, ae.events, pendingFds
    {
      PortTable(ae.events[..], kernel, pendingFds[..npending])
    }

    constructor (setsize: nat)
      ensures Valid() && Table() == map[] && ae.Exact() && fresh(ae) && fresh(ae.events)
      ensures fresh(pendingFds) && fresh(pendingMasks) && fresh(fired)
      ensures ae.events.Length == setsize && forall fd | 0 <= fd < setsize :: ae.events[fd] == {}
    {
      ae := new AeTable(setsize);
      kernel, npending := map[], 0;
      pendingFds := new int[MAX_EVENT_BATCHSZ](_ => -1);
      pendingMasks := new Mask[MAX_EVENT_BATCHSZ](_ => {});
      fired := new Fired[setsize](_ => Fired(-1, {}));
    }

    /** aeApiLookupPending */
    method LookupPending(fd: nat) returns (p: int)
      requires Wired()
      ensures p == -1 ==> fd !in pendingFds[..npending]
      ensures p != -1 ==> 0 <= p < npending && pendingFds[p] == fd
    {
      for i := 0 to npending
        invariant fd !in pendingFds[..i]
      {
        if pendingFds[i] == fd {
          return i;
        }
      }
      return -1;
    }

    /** aeApiAddEvent, before the loop's own mask changes. `granted` is whether port_associate
        succeeds. */
    method AddEvent(fd: nat, mask: Mask, granted: bool) returns (ok: bool)
      requires Valid() && fd < ae.events.Length
      modifies this`kernel, pendingMasks
      ensures ae.events[..] == old(ae.events[..])
      ensures ok == (granted || fd in pendingFds[..npending])
      ensures !ok ==> Valid() && kernel == old(kernel)
      ensures var masks := ApplyOp(ae.events[..], Create(fd, mask));
              ok ==> && Ported(masks, kernel, pendingFds[..npending], pendingMasks[..npending])
                     && PortTable(masks, kernel, pendingFds[..npending]) == ApplyTo(ae.events[..], old(Table()), Create(fd, mask))
    {
      ghost var masks, fds := ae.events[..], pendingFds[..npending];
      ghost var pmasks := pendingMasks[..npending];
      var fullmask := mask + ae.events[fd];
      var p := LookupPending(fd);
      ok := true;
      if p != -1 {
        PendingChanges(masks, kernel, fds, pmasks, p, fullmask);
        pendingMasks[p] := pendingMasks[p] + fullmask;
        assert pendingMasks[p] == fullmask;
        assert pendingMasks[..npending] == pmasks[p := fullmask];
      } else if granted {
        KernelChanges(masks, kernel, fds, pmasks, fd, fullmask);
        kernel := kernel[fd := fullmask];
      } else {
        ok := false;
      }
      assert mask + masks[fd] == masks[fd] + mask;
    }

    /** aeCreateFileEvent */
    method CreateFileEvent(fd: nat, mask: Mask, granted: bool) returns (ok: bool)
      requires Valid()
      modifies this`kernel, ae, ae.events, pendingMasks
      ensures Valid()
      ensures ok ==> fd < ae.events.Length && ae.events[..] == ApplyOp(old(ae.events[..]), Create(fd, mask))
      ensures !ok ==> ae.events[..] == old(ae.events[..]) && Table() == old(Table())
      ensures ok ==> Table() == ApplyTo(old(ae.events[..]), old(Table()), Create(fd, mask))
      ensures ok == (fd < ae.events.Length && (granted || fd in pendingFds[..npending]))
      ensures old(ae.Exact()) && mask != {} ==> ae.Exact()
    {
      if fd >= ae.events.Length {
        return false;
      }
      ok := AddEvent(fd, mask, granted);
      if ok {
        ae.Record(fd, mask);
      }
    }

    /** aeApiDelEvent, after the loop's own mask changed. That port_dissociate finds the
        association is a proof obligation; a port_associate failure here aborts the process. */
    method DelEvent(fd: nat, mask: Mask, ghost masks: seq<Mask>)
      requires Wired() && Ported(masks, kernel, pendingFds[..npending], pendingMasks[..npending])
      requires fd < |masks| && masks[fd] != {} && ae.events[..] == ApplyOp(masks, Delete(fd, mask))
      modifies this`kernel, pendingFds, pendingMasks
      ensures ae.events[..] == old(ae.events[..])
      ensures Ported(ae.events[..], kernel, pendingFds[..npending], pendingMasks[..npending])
      ensures Table() == Dropped(masks, PortTable(masks, old(kernel), old(pendingFds[..npending])), fd, mask)
    {
      ghost var fds, pmasks := pendingFds[..npending], pendingMasks[..npending];
      var p := LookupPending(fd);
      if p != -1 {
        DelPending(p, mask, masks);
      } else {
        var fullmask := ae.events[fd];
        assert fd in kernel;
        if fullmask == {} {
          KernelDrops(masks, kernel, fds, pmasks, fd);
          kernel := kernel - {fd};
        } else {
          KernelChanges(masks, kernel, fds, pmasks, fd, fullmask);
          kernel := kernel[fd := fullmask];
        }
      }
    }

    method DelPending(p: nat, mask: Mask, ghost masks: seq<Mask>)
      requires Wired() && Ported(masks, kernel, pendingFds[..npending], pendingMasks[..npending])
      requires p < npending && 0 <= pendingFds[p] < |masks| && masks[pendingFds[p]] != {}
      modifies pendingFds, pendingMasks
      ensures var fd, fds := old(pendingFds[p]), pendingFds[..npending];
              var masks' := masks[fd := masks[fd] - mask];
              && Ported(masks', kernel, fds, pendingMasks[..npending])
              && PortTable(masks', kernel, fds) == Dropped(masks, PortTable(masks, kernel, old(pendingFds[..npending])), fd, mask)
    {
      ghost var fds, pmasks := pendingFds[..npending], pendingMasks[..npending];
      var left := pendingMasks[p] - mask;
      pendingMasks[p] := left;
      assert pendingMasks[..npending] == pmasks[p := left];
      if left == {} {
        PendingDrops(masks, kernel, fds, pmasks, p);
        PendingDropsTable(masks, kernel, fds, pmasks, p);
        pendingFds[p] := -1;
        assert pendingFds[..npending] == fds[p := -1];
      } else {
        PendingChanges(masks, kernel, fds, pmasks, p, left);
        assert pendingFds[..npending] == fds;
      }
    }

    /** aeDeleteFileEvent */
    method DeleteFileEvent(fd: nat, mask: Mask)
      requires Valid()
      modifies this`kernel, ae, ae.events, pendingFds, pendingMasks
      ensures Valid() && ae.events[..] == ApplyOp(old(ae.events[..]), Delete(fd, mask))
      ensures old(ae.Exact()) ==> ae.Exact()
      ensures Table() == ApplyTo(old(ae.events[..]), old(Table()), Delete(fd, mask))
    {
      if fd >= ae.events.Length || ae.events[fd] == {} {
        assert fd < ae.events.Length ==> ae.events[fd] - mask == ae.events[fd];
        return;
      }
      ghost var masks := ae.events[..];
      ae.Forget(fd, mask);
      DelEvent(fd, mask, masks);
    }

    /** The first loop of aeApiPoll: put the pending descriptors back into the kernel. */
    method Reassociate()
      requires Valid()
      modifies this`kernel, this`npending, pendingFds, pendingMasks
      ensures Valid() && npending == 0
      ensures kernel == old(Table())
    {
      ghost var masks := ae.events[..];
      var i := 0;
      while i < npending
        invariant Wired() && i <= npending == old(npending)
        invariant Ported(masks, kernel, pendingFds[..npending], pendingMasks[..npending])
        invariant PortTable(masks, kernel, pendingFds[..npending]) == PortTable(masks, old(kernel), old(pendingFds[..npending]))
        invariant forall k | 0 <= k < i :: pendingFds[k] == -1
      {
        ghost var fds, pmasks := pendingFds[..npending], pendingMasks[..npending];
        if pendingFds[i] != -1 {
          BackToKernel(masks, kernel, fds, pmasks, i);
          kernel := kernel[pendingFds[i] := pendingMasks[i]];
          pendingMasks[i] := {};
          pendingFds[i] := -1;
          assert pendingFds[..npending] == fds[i := -1];
          assert pendingMasks[..npending] == pmasks[i := {}];
        }
        i := i + 1;
      }
      NothingPending(masks, kernel, pendingFds[..npending], pendingMasks[..npending]);
      npending := 0;
    }

    /** The second half of aeApiPoll: what port_getn reports leaves the kernel and becomes
        pending with the mask it was associated with. */
    method Collect(ready: seq<KernelEvent>) returns (numevents: nat)
      requires Valid() && npending == 0 && Reportable(kernel, ready)
      modifies this`kernel, this`npending, pendingFds, pendingMasks, fired
      ensures Valid() && numevents == npending == |ready|
      ensures |ready| <= fired.Length
      ensures Table() == old(kernel)
      ensures forall i | 0 <= i < numevents :: PortFires(ready[i], fired[i])
    {
      ghost var masks := ae.events[..];
      DistinctFit(ready, |masks|);
      npending := |ready|;
      var i := 0;
      while i < |ready|
        invariant Wired() && i <= |ready| == npending <= fired.Length
        invariant forall k | 0 <= k < i :: PortFires(ready[k], fired[k])
        invariant Ported(masks, kernel, pendingFds[..i], pendingMasks[..i])
        invariant PortTable(masks, kernel, pendingFds[..i]) == old(kernel)
        invariant forall k | i <= k < |ready| :: ready[k].fd in kernel
      {
        Park(i, ready[i], masks);
        i := i + 1;
      }
      numevents := |ready|;
    }

    /** A reported descriptor leaves the kernel and becomes pending. */
    method Park(i: nat, event: KernelEvent, ghost masks: seq<Mask>)
      requires Wired() && i < npending <= fired.Length && event.fd in kernel
      requires Ported(masks, kernel, pendingFds[..i], pendingMasks[..i])
      modifies this`kernel, pendingFds, pendingMasks, fired
      ensures kernel == old(kernel) - {event.fd}
      ensures Ported(masks, kernel, pendingFds[..i + 1], pendingMasks[..i + 1])
      ensures PortTable(masks, kernel, pendingFds[..i + 1]) == PortTable(masks, old(kernel), old(pendingFds[..i]))
      ensures PortFires(event, fired[i]) && forall k | 0 <= k < fired.Length && k != i :: fired[k] == old(fired[k])
    {
      var fd, mask := event.fd, kernel[event.fd];
      OneReported(masks, kernel, pendingFds[..i], pendingMasks[..i], fd);
      fired[i] := Fired(fd, PortMask(event.flags));
      pendingFds[i], pendingMasks[i] := fd, mask;
      kernel := kernel - {fd};
      assert pendingFds[..i + 1] == old(pendingFds[..i]) + [fd];
      assert pendingMasks[..i + 1] == old(pendingMasks[..i]) + [mask];
    }

    /** aeApiPoll. The table is untouched, and only watched descriptors fire. */
    method Poll(ready: seq<KernelEvent>) returns (numevents: nat)
      requires Valid() && Reportable(Table(), ready)
      modifies this`kernel, this`npending, pendingFds, pendingMasks, fired
      ensures Valid() && numevents == |ready| <= fired.Length
      ensures forall i | 0 <= i < numevents :: PortFires(ready[i], fired[i])
      ensures forall i | 0 <= i < numevents ::
                && fired[i].fd == ready[i].fd
                && (Readable in fired[i].mask <==> In in ready[i].flags)
                && (Writable in fired[i].mask <==> Out in ready[i].flags)
      ensures Table() == old(Table())
    {
      Reassociate();
      numevents := Collect(ready);
    }

    /** One call, with what it does to the table and the associations and what fires; the kernel reports
        nothing that it could not. */
    method Perform(call: Call) returns (ok: bool, report: seq<Fired>)
      requires Valid()
      modifies this, ae, ae.events, pendingFds, pendingMasks, fired
      ensures Valid()
      ensures ok ==> call.op.Create? ==> call.op.fd < ae.events.Length
      ensures call.op.Create? && call.granted ==> ok == (call.op.fd < ae.events.Length)
      ensures !call.op.Create? ==> ok
      ensures ae.events[..] == if ok then ApplyOp(old(ae.events[..]), call.op) else old(ae.events[..])
      ensures Table() == if ok then ApplyTo(old(ae.events[..]), old(Table()), call.op) else old(Table())
      ensures PortReported(old(Table()), call.op, report)
    {
      ok, report := true, [];
      match call.op {
        case Create(fd, mask) => ok := CreateFileEvent(fd, mask, call.granted);
        case Delete(fd, mask) => DeleteFileEvent(fd, mask);
        case Poll(ready) =>
          if Reportable(Table(), ready) {
            var n := Poll(ready);
            report := fired[..n];
          }
      }
    }
  }

  /** A poll fires what the kernel reports, in its order, if the kernel could report it; other
      calls fire nothing. */
  ghost predicate PortReported(t: map<int, Mask>, op: Op, report: seq<Fired>) {
    if op.Poll? && Reportable(t, op.ready) then
      |report| == |op.ready| && forall i | 0 <= i < |report| :: PortFires(op.ready[i], report[i])
    else report == []
  }

  /** The kernel table once every pending association is back. */
  function PortTable(masks: seq<Mask>, kernel: map<int, Mask>, fds: seq<int>): (t: map<int, Mask>) {
    map fd | 0 <= fd < |masks| && (fd in kernel || fd in fds) :: masks[fd]
  }

  lemma PendingChanges(masks: seq<Mask>, kernel: map<int, Mask>, fds: seq<int>, pmasks: seq<Mask>, p: nat, m: Mask)
    requires Ported(masks, kernel, fds, pmasks) && p < |fds| && fds[p] != -1
    ensures Ported(masks[fds[p] := m], kernel, fds, pmasks[p := m])
    ensures PortTable(masks[fds[p] := m], kernel, fds) == PortTable(masks, kernel, fds)[fds[p] := m]
  {
  }

  /** Blanking a slot takes exactly its descriptor out of the pending ones. */
  lemma Blanked(fds: seq<int>, p: nat, fd: int)
    requires p < |fds| && fd >= 0 && forall i, j | 0 <= i < j < |fds| :: fds[i] == -1 || fds[i] != fds[j]
    ensures fd in fds[p := -1] <==> fd in fds && fd != fds[p]
  {
    var fds' := fds[p := -1];
    assert forall k | 0 <= k < |fds| && k != p :: fds'[k] == fds[k];
    if fd in fds && fd != fds[p] {
      var k :| 0 <= k < |fds| && fds[k] == fd;
      assert fds'[k] == fd;
    }
  }

  lemma PendingDrops(masks: seq<Mask>, kernel: map<int, Mask>, fds: seq<int>, pmasks: seq<Mask>, p: nat)
    requires Ported(masks, kernel, fds, pmasks) && p < |fds| && fds[p] != -1
    ensures Ported(masks[fds[p] := {}], kernel, fds[p := -1], pmasks[p := {}])
  {
    forall fd | 0 <= fd < |masks| && masks[fds[p] := {}][fd] != {}
      ensures fd in kernel || fd in fds[p := -1]
    {
      Blanked(fds, p, fd);
    }
  }

  lemma PendingDropsTable(masks: seq<Mask>, kernel: map<int, Mask>, fds: seq<int>, pmasks: seq<Mask>, p: nat)
    requires Ported(masks, kernel, fds, pmasks) && p < |fds| && fds[p] != -1
    ensures PortTable(masks[fds[p] := {}], kernel, fds[p := -1]) == PortTable(masks, kernel, fds) - {fds[p]}
  {
    forall fd | 0 <= fd < |masks|
      ensures fd in fds[p := -1] <==> fd in fds && fd != fds[p]
    {
      Blanked(fds, p, fd);
    }
  }

  lemma KernelChanges(masks: seq<Mask>, kernel: map<int, Mask>, fds: seq<int>, pmasks: seq<Mask>, fd: nat, m: Mask)
    requires Ported(masks, kernel, fds, pmasks) && fd < |masks| && fd !in fds
    ensures Ported(masks[fd := m], kernel[fd := m], fds, pmasks)
    ensures PortTable(masks[fd := m], kernel[fd := m], fds) == PortTable(masks, kernel, fds)[fd := m]
  {
    forall i | 0 <= i < |fds|
      ensures fds[i] != fd
    {
      assert fds[i] in fds;
    }
  }

  lemma KernelDrops(masks: seq<Mask>, kernel: map<int, Mask>, fds: seq<int>, pmasks: seq<Mask>, fd: nat)
    requires Ported(masks, kernel, fds, pmasks) && fd < |masks| && fd !in fds
    ensures Ported(masks[fd := {}], kernel - {fd}, fds, pmasks)
    ensures PortTable(masks[fd := {}], kernel - {fd}, fds) == PortTable(masks, kernel, fds) - {fd}
  {
    forall i | 0 <= i < |fds|
      ensures fds[i] != fd
    {
      assert fds[i] in fds;
    }
  }

  lemma BackToKernel(masks: seq<Mask>, kernel: map<int, Mask>, fds: seq<int>, pmasks: seq<Mask>, i: nat)
    requires Ported(masks, kernel, fds, pmasks) && i < |fds| && fds[i] != -1
    ensures Ported(masks, kernel[fds[i] := pmasks[i]], fds[i := -1], pmasks[i := {}])
    ensures PortTable(masks, kernel[fds[i] := pmasks[i]], fds[i := -1]) == PortTable(masks, kernel, fds)
  {
    var kernel', fds' := kernel[fds[i] := pmasks[i]], fds[i := -1];
    forall fd | 0 <= fd < |masks|
      ensures fd in kernel' || fd in fds' <==> fd in kernel || fd in fds
    {
      if fd in fds && fd !in kernel' {
        var k :| 0 <= k < |fds| && fds[k] == fd;
        assert fds'[k] == fd;
      }
    }
    forall fd | 0 <= fd < |masks| && masks[fd] != {}
      ensures fd in kernel' || fd in fds'
    {
      if fd !in kernel' {
        var k :| 0 <= k < |fds| && fds[k] == fd;
        assert fds'[k] == fd;
      }
    }
  }

  lemma NothingPending(masks: seq<Mask>, kernel: map<int, Mask>, fds: seq<int>, pmasks: seq<Mask>)
    requires Ported(masks, kernel, fds, pmasks) && forall k | 0 <= k < |fds| :: fds[k] == -1
    ensures Ported(masks, kernel, [], [])
    ensures kernel == PortTable(masks, kernel, fds) == PortTable(masks, kernel, [])
  {
  }

  /** A reported descriptor leaves the kernel and becomes pending. */
  lemma OneReported(masks: seq<Mask>, kernel: map<int, Mask>, fds: seq<int>, pmasks: seq<Mask>, fd: int)
    requires Ported(masks, kernel, fds, pmasks) && fd in kernel
    ensures Ported(masks, kernel - {fd}, fds + [fd], pmasks + [kernel[fd]])
    ensures PortTable(masks, kernel - {fd}, fds + [fd]) == PortTable(masks, kernel, fds)
  {
    assert forall k | 0 <= k < |fds| :: fds[k] != fd;
    assert forall x :: x in fds + [fd] <==> x in fds || x == fd;
  }

  /** Distinct descriptors below n number at most n. */
  lemma {:induction false} DistinctFit(ready: seq<KernelEvent>, n: nat)
    requires forall i | 0 <= i < |ready| :: 0 <= ready[i].fd < n
    requires forall i, j | 0 <= i < j < |ready| :: ready[i].fd != ready[j].fd
    ensures |ready| <= n
    decreases n
  {
    if ready != [] {
      assert 0 <= ready[0].fd < n;
      if k :| 0 <= k < |ready| && ready[k].fd == n - 1 {
        DistinctFit(ready[..k] + ready[k + 1..], n - 1);
      } else {
        DistinctFit(ready, n - 1);
      }
    }
  }

  // ----- epoll

  /** What epoll_wait may report: descriptors on the interest list, no more than were asked for. */
  predicate Listed(kernel: map<int, Mask>, setsize: nat, ready: seq<KernelEvent>) {
    |ready| <= setsize && forall i | 0 <= i < |ready| :: ready[i].fd in kernel
  }

  ghost predicate EpollReported(t: map<int, Mask>, setsize: nat, op: Op, report: seq<Fired>) {
    if op.Poll? && Listed(t, setsize, op.ready) then
      |report| == |op.ready| && forall i | 0 <= i < |report| :: EpollFires(op.ready[i], report[i])
    else report == []
  }

  class EpollLoop {
    const ae: AeTable
    var kernel: map<int, Mask>
    const fired: array<Fired>

    /** The kernel's interest list has every watched descriptor, with the mask of the loop. */
    ghost predicate Valid()
      reads this, ae, ae.events
    {
      && ae.Valid()
      && fired.Length == ae.events.Length
      && Covers(ae.events[..], kernel)
    }

    constructor (setsize: nat)
      ensures Valid() && kernel == map[] && fresh(ae) && fresh(ae.events) && fresh(fired)
      ensures ae.events.Length == setsize && forall fd | 0 <= fd < setsize :: ae.events[fd] == {}
    {
      ae := new AeTable(setsize);
      kernel := map[];
      fired := new Fired[setsize](_ => Fired(-1, {}));
    }

    /** aeCreateFileEvent over aeApiAddEvent. EPOLL_CTL_ADD refuses a descriptor that is on the
        list and EPOLL_CTL_MOD one that is not; `granted` covers the other failures. */
    method CreateFileEvent(fd: nat, mask: Mask, granted: bool) returns (ok: bool)
      requires Valid()
      modifies this`kernel, ae, ae.events
      ensures Valid()
      ensures ok ==> fd < ae.events.Length && ae.events[..] == ApplyOp(old(ae.events[..]), Create(fd, mask))
      ensures !ok ==> ae.events[..] == old(ae.events[..]) && kernel == old(kernel)
      ensures ok == (granted && fd < ae.events.Length && (old(ae.events[fd]) != {} || fd !in old(kernel)))
      ensures ok ==> kernel == ApplyTo(old(ae.events[..]), old(kernel), Create(fd, mask))
    {
      if fd >= ae.events.Length {
        return false;
      }
      var add := ae.events[fd] == {};
      var full := mask + ae.events[fd];
      if !granted || add == (fd in kernel) {
        return false;
      }
      kernel := kernel[fd := full];
      ae.Record(fd, mask);
      assert full == old(ae.events[..])[fd] + mask;
      return true;
    }

    /** aeDeleteFileEvent over aeApiDelEvent: EPOLL_CTL_MOD or EPOLL_CTL_DEL, which both find
        the descriptor on the list. */
    method DeleteFileEvent(fd: nat, mask: Mask)
      requires Valid()
      modifies this`kernel, ae, ae.events
      ensures Valid() && ae.events[..] == ApplyOp(old(ae.events[..]), Delete(fd, mask))
      ensures kernel == ApplyTo(old(ae.events[..]), old(kernel), Delete(fd, mask))
    {
      if fd >= ae.events.Length || ae.events[fd] == {} {
        assert fd < ae.events.Length ==> ae.events[fd] - mask == ae.events[fd];
        return;
      }
      ae.Forget(fd, mask);
      var left := ae.events[fd] - mask;
      assert left == old(ae.events[..])[fd] - mask;
      assert fd in kernel;
      if left != {} {
        kernel := kernel[fd := left];
      } else {
        kernel := kernel - {fd};
      }
    }

    /** aeApiPoll */
    method Poll(ready: seq<KernelEvent>) returns (numevents: nat)
      requires Valid() && Listed(kernel, ae.events.Length, ready)
      modifies fired
      ensures Valid() && numevents == |ready|
      ensures forall i | 0 <= i < numevents :: EpollFires(ready[i], fired[i])
      ensures forall i | 0 <= i < numevents ::
                && fired[i].fd == ready[i].fd
                && (Readable in fired[i].mask <==> In in ready[i].flags)
                && (Writable in fired[i].mask <==> Out in ready[i].flags || Err in ready[i].flags || Hup in ready[i].flags)
    {
      numevents := |ready|;
      for j := 0 to numevents
        invariant forall i | 0 <= i < j :: EpollFires(ready[i], fired[i])
      {
        EpollMaskFires(ready[j]);
        fired[j] := Fired(ready[j].fd, EpollMask(ready[j].flags));
      }
    }

    method Perform(call: Call) returns (ok: bool, report: seq<Fired>)
      requires Valid()
      modifies this`kernel, ae, ae.events, fired
      ensures Valid()
      ensures call.op.Create? ==>
                ok == (call.granted && call.op.fd < ae.events.Length && !LeftOver(old(ae.events[..]), old(kernel), call.op.fd))
      ensures !call.op.Create? ==> ok
      ensures ae.events[..] == if ok then ApplyOp(old(ae.events[..]), call.op) else old(ae.events[..])
      ensures kernel == if ok then ApplyTo(old(ae.events[..]), old(kernel), call.op) else old(kernel)
      ensures EpollReported(old(kernel), ae.events.Length, call.op, report)
    {
      ok, report := true, [];
      match call.op {
        case Create(fd, mask) => ok := CreateFileEvent(fd, mask, call.granted);
        case Delete(fd, mask) => DeleteFileEvent(fd, mask);
        case Poll(ready) =>
          if Listed(kernel, ae.events.Length, ready) {
            var n := Poll(ready);
            report := fired[..n];
          }
      }
    }
  }

  // ----- Both back ends keep the same table

  /** The last registration of fd that succeeded was for no event and found fd unwatched. */
  predicate Dangling(masks: seq<Mask>, calls: seq<Call>, oks: seq<bool>, fd: int)
    requires |calls| == |oks|
    decreases |calls|
  {
    && calls != []
    && var n := |calls| - 1;
       if oks[n] && calls[n].op.Create? && calls[n].op.fd == fd
       then Idle(ApplyCalls(masks, calls[..n], oks[..n]), calls[n].op, fd)
       else Dangling(masks, calls[..n], oks[..n], fd)
  }

  /** Some registration of fd that succeeded was for no event and found fd unwatched. */
  predicate Blocked(masks: seq<Mask>, calls: seq<Call>, oks: seq<bool>, fd: int)
    requires |calls| == |oks|
    decreases |calls|
  {
    && calls != []
    && var n := |calls| - 1;
       || (oks[n] && Idle(ApplyCalls(masks, calls[..n], oks[..n]), calls[n].op, fd))
       || Blocked(masks, calls[..n], oks[..n], fd)
  }

  /** One more call on the abstract table. */
  lemma OneMoreCall(masks: seq<Mask>, calls: seq<Call>, oks: seq<bool>, i: nat, ok: bool)
    requires |oks| == i < |calls|
    ensures var before := ApplyCalls(masks, calls[..i], oks);
            ApplyCalls(masks, calls[..i + 1], oks + [ok]) == if ok then ApplyOp(before, calls[i].op) else before
  {
    assert calls[..i + 1][..i] == calls[..i] && (oks + [ok])[..i] == oks;
  }

  lemma DanglingAfter(masks: seq<Mask>, calls: seq<Call>, oks: seq<bool>, i: nat, ok: bool, fd: int)
    requires |oks| == i < |calls|
    ensures Dangling(masks, calls[..i + 1], oks + [ok], fd)
            <==> if ok && calls[i].op.Create? && calls[i].op.fd == fd
                 then Idle(ApplyCalls(masks, calls[..i], oks), calls[i].op, fd)
                 else Dangling(masks, calls[..i], oks, fd)
  {
    assert calls[..i + 1][..i] == calls[..i] && (oks + [ok])[..i] == oks;
  }

  lemma BlockedAfter(masks: seq<Mask>, calls: seq<Call>, oks: seq<bool>, i: nat, ok: bool, fd: int)
    requires |oks| == i < |calls|
    ensures Blocked(masks, calls[..i + 1], oks + [ok], fd)
            <==> (ok && Idle(ApplyCalls(masks, calls[..i], oks), calls[i].op, fd)) || Blocked(masks, calls[..i], oks, fd)
  {
    assert calls[..i + 1][..i] == calls[..i] && (oks + [ok])[..i] == oks;
  }

  /** On a port, what is left over is what dangles. */
  ghost predicate DanglesOnly(start: seq<Mask>, calls: seq<Call>, oks: seq<bool>, t: map<int, Mask>)
    requires |calls| == |oks|
  {
    forall fd :: LeftOver(ApplyCalls(start, calls, oks), t, fd) <==> Dangling(start, calls, oks, fd)
  }

  lemma DanglingStep(start: seq<Mask>, calls: seq<Call>, oks: seq<bool>, i: nat, ok: bool, t: map<int, Mask>, t': map<int, Mask>)
    requires |oks| == i < |calls| && Covers(ApplyCalls(start, calls[..i], oks), t)
    requires ok && calls[i].op.Create? ==> calls[i].op.fd < |start|
    requires DanglesOnly(start, calls[..i], oks, t)
    requires t' == if ok then ApplyTo(ApplyCalls(start, calls[..i], oks), t, calls[i].op) else t
    ensures DanglesOnly(start, calls[..i + 1], oks + [ok], t')
  {
    OneMoreCall(start, calls, oks, i, ok);
    var masks, calls', oks' := ApplyCalls(start, calls[..i], oks), calls[..i + 1], oks + [ok];
    forall fd
      ensures LeftOver(ApplyCalls(start, calls', oks'), t', fd) <==> Dangling(start, calls', oks', fd)
    {
      DanglingAfter(start, calls, oks, i, ok, fd);
      if ok {
        LeftOverAfter(masks, t, calls[i].op, fd);
      }
    }
  }

  ghost predicate NoneDangles(masks: seq<Mask>, calls: seq<Call>, oks: seq<bool>)
    requires |calls| == |oks|
  {
    forall fd :: !Dangling(masks, calls, oks, fd)
  }

  lemma WatchedIffNoneDangles(start: seq<Mask>, calls: seq<Call>, oks: seq<bool>, t: map<int, Mask>)
    requires |calls| == |oks| && Covers(ApplyCalls(start, calls, oks), t) && DanglesOnly(start, calls, oks, t)
    ensures t == Watched(ApplyCalls(start, calls, oks)) <==> NoneDangles(start, calls, oks)
  {
    var masks := ApplyCalls(start, calls, oks);
    WatchedIffNoneLeftOver(masks, t);
    assert forall fd :: Dangling(start, calls, oks, fd) ==> LeftOver(masks, t, fd);
    assert forall fd :: LeftOver(masks, t, fd) ==> Dangling(start, calls, oks, fd);
  }

  /** With epoll, what is left over is what is blocked: no registration gets through to end it. */
  ghost predicate BlocksOnly(start: seq<Mask>, calls: seq<Call>, oks: seq<bool>, t: map<int, Mask>)
    requires |calls| == |oks|
  {
    forall fd :: LeftOver(ApplyCalls(start, calls, oks), t, fd) <==> Blocked(start, calls, oks, fd)
  }

  lemma BlockedStep(start: seq<Mask>, calls: seq<Call>, oks: seq<bool>, i: nat, ok: bool, t: map<int, Mask>, t': map<int, Mask>)
    requires |oks| == i < |calls| && Covers(ApplyCalls(start, calls[..i], oks), t)
    requires ok && calls[i].op.Create? ==>
               calls[i].op.fd < |start| && !LeftOver(ApplyCalls(start, calls[..i], oks), t, calls[i].op.fd)
    requires BlocksOnly(start, calls[..i], oks, t)
    requires t' == if ok then ApplyTo(ApplyCalls(start, calls[..i], oks), t, calls[i].op) else t
    ensures BlocksOnly(start, calls[..i + 1], oks + [ok], t')
  {
    OneMoreCall(start, calls, oks, i, ok);
    var masks, calls', oks' := ApplyCalls(start, calls[..i], oks), calls[..i + 1], oks + [ok];
    forall fd
      ensures LeftOver(ApplyCalls(start, calls', oks'), t', fd) <==> Blocked(start, calls', oks', fd)
    {
      BlockedAfter(start, calls, oks, i, ok, fd);
      if ok {
        LeftOverAfter(masks, t, calls[i].op, fd);
      }
    }
  }

  ghost predicate NoneBlocked(masks: seq<Mask>, calls: seq<Call>, oks: seq<bool>)
    requires |calls| == |oks|
  {
    forall fd :: !Blocked(masks, calls, oks, fd)
  }

  lemma WatchedIffNoneBlocked(start: seq<Mask>, calls: seq<Call>, oks: seq<bool>, t: map<int, Mask>)
    requires |calls| == |oks| && Covers(ApplyCalls(start, calls, oks), t) && BlocksOnly(start, calls, oks, t)
    ensures t == Watched(ApplyCalls(start, calls, oks)) <==> NoneBlocked(start, calls, oks)
  {
    var masks := ApplyCalls(start, calls, oks);
    WatchedIffNoneLeftOver(masks, t);
    assert forall fd :: Blocked(start, calls, oks, fd) ==> LeftOver(masks, t, fd);
    assert forall fd :: LeftOver(masks, t, fd) ==> Blocked(start, calls, oks, fd);
  }

  function Unwatched(setsize: nat): (masks: seq<Mask>) {
    seq(setsize, _ => {})
  }

  /** Descriptors with an association before call i, by the calls alone. */
  predicate Associated(start: seq<Mask>, calls: seq<Call>, oks: seq<bool>, fd: int)
    requires |calls| == |oks|
  {
    0 <= fd < |start| && (ApplyCalls(start, calls, oks)[fd] != {} || Dangling(start, calls, oks, fd))
  }

  /** What fires in a call on a port, by the calls before it alone. */
  ghost predicate PortFired(start: seq<Mask>, calls: seq<Call>, oks: seq<bool>, op: Op, report: seq<Fired>)
    requires |calls| == |oks|
  {
    if && op.Poll? && |op.ready| <= MAX_EVENT_BATCHSZ
       && (forall k | 0 <= k < |op.ready| :: Associated(start, calls, oks, op.ready[k].fd))
       && (forall k, l | 0 <= k < l < |op.ready| :: op.ready[k].fd != op.ready[l].fd)
    then |report| == |op.ready| && forall k | 0 <= k < |report| :: PortFires(op.ready[k], report[k])
    else report == []
  }

  /** What is said of one call on a port: a registration the kernel grants succeeds exactly when the
      descriptor fits, and a poll fires what is reported. */
  ghost predicate PortEntry(start: seq<Mask>, calls: seq<Call>, oks: seq<bool>, reports: seq<seq<Fired>>, i: nat)
    requires |calls| == |oks| == |reports| && i < |calls|
  {
    && (calls[i].op.Create? && calls[i].granted ==> oks[i] == (calls[i].op.fd < |start|))
    && PortFired(start, calls[..i], oks[..i], calls[i].op, reports[i])
  }

  ghost predicate PortHistory(start: seq<Mask>, calls: seq<Call>, oks: seq<bool>, reports: seq<seq<Fired>>) {
    && |calls| == |oks| == |reports|
    && forall i | 0 <= i < |calls| :: PortEntry(start, calls, oks, reports, i)
  }

  lemma PortHistoryStep(
    start: seq<Mask>, calls: seq<Call>, oks: seq<bool>, reports: seq<seq<Fired>>, i: nat, ok: bool, report: seq<Fired>)
    requires i < |calls| && PortHistory(start, calls[..i], oks, reports) && |oks| == i
    requires calls[i].op.Create? && calls[i].granted ==> ok == (calls[i].op.fd < |start|)
    requires PortFired(start, calls[..i], oks, calls[i].op, report)
    ensures PortHistory(start, calls[..i + 1], oks + [ok], reports + [report])
  {
    var calls', oks', reports' := calls[..i + 1], oks + [ok], reports + [report];
    forall j | 0 <= j <= i
      ensures PortEntry(start, calls', oks', reports', j)
    {
      assert calls'[..j] == calls[..i][..j] && oks'[..j] == oks[..j];
      if j < i {
        assert PortEntry(start, calls[..i], oks, reports, j);
      } else {
        assert oks[..i] == oks && calls[..i][..i] == calls[..i];
      }
    }
  }

  lemma PortFiredByCalls(start: seq<Mask>, calls: seq<Call>, oks: seq<bool>, t: map<int, Mask>, op: Op, report: seq<Fired>)
    requires |calls| == |oks| && Covers(ApplyCalls(start, calls, oks), t) && DanglesOnly(start, calls, oks, t)
    requires PortReported(t, op, report)
    ensures PortFired(start, calls, oks, op, report)
  {
    forall fd
      ensures fd in t <==> Associated(start, calls, oks, fd)
    {
      assert LeftOver(ApplyCalls(start, calls, oks), t, fd) <==> Dangling(start, calls, oks, fd);
    }
  }

  /** Descriptors on the interest list before call i, by the calls alone. */
  predicate OnList(start: seq<Mask>, calls: seq<Call>, oks: seq<bool>, fd: int)
    requires |calls| == |oks|
  {
    0 <= fd < |start| && (ApplyCalls(start, calls, oks)[fd] != {} || Blocked(start, calls, oks, fd))
  }

  /** What fires in a call with epoll, by the calls before it alone. */
  ghost predicate EpollFired(start: seq<Mask>, calls: seq<Call>, oks: seq<bool>, op: Op, report: seq<Fired>)
    requires |calls| == |oks|
  {
    if op.Poll? && |op.ready| <= |start| && forall k | 0 <= k < |op.ready| :: OnList(start, calls, oks, op.ready[k].fd)
    then |report| == |op.ready| && forall k | 0 <= k < |report| :: EpollFires(op.ready[k], report[k])
    else report == []
  }

  /** What is said of one call with epoll: a registration succeeds exactly when it is granted, the descriptor
      fits and is not blocked; a poll fires what is reported. */
  ghost predicate EpollEntry(start: seq<Mask>, calls: seq<Call>, oks: seq<bool>, reports: seq<seq<Fired>>, i: nat)
    requires |calls| == |oks| == |reports| && i < |calls|
  {
    && oks[i] == (calls[i].op.Create? ==> && calls[i].granted && calls[i].op.fd < |start|
                                          && !Blocked(start, calls[..i], oks[..i], calls[i].op.fd))
    && EpollFired(start, calls[..i], oks[..i], calls[i].op, reports[i])
  }

  ghost predicate EpollHistory(start: seq<Mask>, calls: seq<Call>, oks: seq<bool>, reports: seq<seq<Fired>>) {
    && |calls| == |oks| == |reports|
    && forall i | 0 <= i < |calls| :: EpollEntry(start, calls, oks, reports, i)
  }

  lemma EpollHistoryStep(
    start: seq<Mask>, calls: seq<Call>, oks: seq<bool>, reports: seq<seq<Fired>>, i: nat, ok: bool, report: seq<Fired>)
    requires i < |calls| && EpollHistory(start, calls[..i], oks, reports) && |oks| == i
    requires ok == (calls[i].op.Create? ==> && calls[i].granted && calls[i].op.fd < |start|
                                            && !Blocked(start, calls[..i], oks, calls[i].op.fd))
    requires EpollFired(start, calls[..i], oks, calls[i].op, report)
    ensures EpollHistory(start, calls[..i + 1], oks + [ok], reports + [report])
  {
    var calls', oks', reports' := calls[..i + 1], oks + [ok], reports + [report];
    forall j | 0 <= j <= i
      ensures EpollEntry(start, calls', oks', reports', j)
    {
      assert calls'[..j] == calls[..i][..j] && oks'[..j] == oks[..j];
      if j < i {
        assert EpollEntry(start, calls[..i], oks, reports, j);
      } else {
        assert oks[..i] == oks && calls[..i][..i] == calls[..i];
      }
    }
  }

  lemma EpollFiredByCalls(start: seq<Mask>, calls: seq<Call>, oks: seq<bool>, t: map<int, Mask>, op: Op, report: seq<Fired>)
    requires |calls| == |oks| && Covers(ApplyCalls(start, calls, oks), t) && BlocksOnly(start, calls, oks, t)
    requires EpollReported(t, |start|, op, report)
    ensures EpollFired(start, calls, oks, op, report)
  {
    forall fd
      ensures fd in t <==> OnList(start, calls, oks, fd)
    {
      assert LeftOver(ApplyCalls(start, calls, oks), t, fd) <==> Blocked(start, calls, oks, fd);
    }
  }

  /** Any sequence of calls, polls and refusals included, leaves the port loop with the abstract table and
      each association in the kernel or pending, never both, with the mask of the loop; together
      they watch exactly that table if and only if for no descriptor the last registration asked
      for no event while nobody watched it. Every poll fires what the kernel reports of the
      associated descriptors, readable for In and writable for Out. */
  method PortReplay(setsize: nat, calls: seq<Call>) returns (port: PortLoop, oks: seq<bool>, reports: seq<seq<Fired>>)
    ensures |oks| == |reports| == |calls| && port.Valid()
    ensures forall i | 0 <= i < |calls| :: PortEntry(Unwatched(setsize), calls, oks, reports, i)
    ensures port.ae.events[..] == ApplyCalls(Unwatched(setsize), calls, oks)
    ensures port.Table() == Watched(port.ae.events[..]) <==> NoneDangles(Unwatched(setsize), calls, oks)
  {
    port := new PortLoop(setsize);
    ghost var start := Unwatched(setsize);
    oks, reports := [], [];
    for i := 0 to |calls|
      invariant fresh(port) && fresh(port.ae) && fresh(port.ae.events)
      invariant fresh(port.pendingFds) && fresh(port.pendingMasks) && fresh(port.fired)
      invariant port.Valid() && port.ae.events.Length == setsize && |oks| == |reports| == i
      invariant PortHistory(start, calls[..i], oks, reports)
      invariant port.ae.events[..] == ApplyCalls(start, calls[..i], oks)
      invariant DanglesOnly(start, calls[..i], oks, port.Table())
    {
      ghost var t := port.Table();
      var ok, report := port.Perform(calls[i]);
      OneMoreCall(start, calls, oks, i, ok);
      DanglingStep(start, calls, oks, i, ok, t, port.Table());
      PortFiredByCalls(start, calls[..i], oks, t, calls[i].op, report);
      PortHistoryStep(start, calls, oks, reports, i, ok, report);
      oks, reports := oks + [ok], reports + [report];
    }
    assert calls[..|calls|] == calls;
    WatchedIffNoneDangles(start, calls, oks, port.Table());
  }

  /** The same calls on epoll. A registration succeeds exactly when it is granted, the descriptor fits and
      no earlier one asked for no event while nobody watched it; the interest list is exactly the
      abstract table if and only if there was no such registration of any descriptor. Every poll fires
      what the kernel reports of the listed ones, errors and hangups as writable. */
  method EpollReplay(setsize: nat, calls: seq<Call>) returns (epoll: EpollLoop, oks: seq<bool>, reports: seq<seq<Fired>>)
    ensures |oks| == |reports| == |calls| && epoll.Valid()
    ensures forall i | 0 <= i < |calls| :: EpollEntry(Unwatched(setsize), calls, oks, reports, i)
    ensures epoll.ae.events[..] == ApplyCalls(Unwatched(setsize), calls, oks)
    ensures epoll.kernel == Watched(epoll.ae.events[..]) <==> NoneBlocked(Unwatched(setsize), calls, oks)
  {
    epoll := new EpollLoop(setsize);
    ghost var start := Unwatched(setsize);
    oks, reports := [], [];
    for i := 0 to |calls|
      invariant fresh(epoll) && fresh(epoll.ae) && fresh(epoll.ae.events) && fresh(epoll.fired)
      invariant epoll.Valid() && epoll.ae.events.Length == setsize && |oks| == |reports| == i
      invariant EpollHistory(start, calls[..i], oks, reports)
      invariant epoll.ae.events[..] == ApplyCalls(start, calls[..i], oks)
      invariant BlocksOnly(start, calls[..i], oks, epoll.kernel)
    {
      ghost var t := epoll.kernel;
      var ok, report := epoll.Perform(calls[i]);
      OneMoreCall(start, calls, oks, i, ok);
      BlockedStep(start, calls, oks, i, ok, t, epoll.kernel);
      EpollFiredByCalls(start, calls[..i], oks, t, calls[i].op, report);
      EpollHistoryStep(start, calls, oks, reports, i, ok, report);
      oks, reports := oks + [ok], reports + [report];
    }
    assert calls[..|calls|] == calls;
    WatchedIffNoneBlocked(start, calls, oks, epoll.kernel);
  }

  /** Nothing ends a block. */
  lemma {:induction false} BlockedForGood(masks: seq<Mask>, calls: seq<Call>, oks: seq<bool>, i: nat, j: nat, fd: int)
    requires |calls| == |oks| && i <= j <= |calls| && Blocked(masks, calls[..i], oks[..i], fd)
    ensures Blocked(masks, calls[..j], oks[..j], fd)
    decreases j - i
  {
    if i < j {
      BlockedForGood(masks, calls, oks, i, j - 1, fd);
      assert calls[..j][..j - 1] == calls[..j - 1] && oks[..j][..j - 1] == oks[..j - 1];
    }
  }

  /** A first registration for no event is granted by epoll and makes every later registration of that
      descriptor fail, whatever happens in between, and leaves the interest list wrong. */
  method EmptyRegistrationBlocks(setsize: nat, fd: nat, rest: seq<Call>) returns (epoll: EpollLoop, oks: seq<bool>)
    requires fd < setsize
    ensures |oks| == |rest| + 1 && oks[0]
    ensures forall i | 0 <= i < |rest| :: rest[i].op.Create? && rest[i].op.fd == fd ==> !oks[i + 1]
    ensures epoll.kernel != Watched(epoll.ae.events[..])
  {
    var calls := [Call(Create(fd, {}), true)] + rest;
    var reports;
    epoll, oks, reports := EpollReplay(setsize, calls);
    ghost var start := Unwatched(setsize);
    assert EpollEntry(start, calls, oks, reports, 0);
    assert calls[..0] == [] && oks[..0] == [];
    assert calls[..1] == [calls[0]] && oks[..1] == [oks[0]];
    OneMoreCall(start, calls, [], 0, oks[0]);
    BlockedAfter(start, calls, [], 0, oks[0], fd);
    forall i | 0 <= i < |rest| && rest[i].op.Create? && rest[i].op.fd == fd
      ensures !oks[i + 1]
    {
      BlockedForGood(start, calls, oks, 1, i + 1, fd);
      assert EpollEntry(start, calls, oks, reports, i + 1);
    }
    BlockedForGood(start, calls, oks, 1, |calls|, fd);
    assert calls[..|calls|] == calls && oks[..|oks|] == oks;
  }
}
