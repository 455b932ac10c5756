/** The distributed Lock of debug/redis/client.py: any number of clients interleave the server
    commands of acquire and release on one key. */
module Lock {
  import opened Collections

  /** LOCK_FOREVER, one past the largest unix time. */
  const FOREVER: real := 2147483649.0

  /** Where a client stands between two commands. Trying covers the sleep of a blocking acquire
      and the return of a non-blocking one, since either may be followed by another attempt. */
  datatype Pc = Trying | AtSetnx | AtGet | AtGetset | Holding | AtDelete

  datatype Client = Client(pc: Pc, unixtime: real, acquiredUntil: Option<real>)

  /** The key on the server, the clients, and the latest clock reading of any of them. */
  datatype State = State(key: Option<real>, clients: seq<Client>, now: real)

  /** One timeout per client; None is a lock without timeout. */
  type Config = seq<Option<real>>

  datatype Action =
    | ReadClock(i: nat, time: real)
    | Setnx(i: nat)
    | Get(i: nat)
    | Getset(i: nat)
    | ReleaseGet(i: nat)
    | Delete(i: nat)

  predicate ValidConfig(cfg: Config) {
    forall i | 0 <= i < |cfg| :: cfg[i].None? || cfg[i].value > 0.0
  }

  function Init(cfg: Config): (s: State) {
    State(None, seq(|cfg|, _ => Client(Trying, 1.0, None)), 1.0)
  }

  function TimeoutAt(timeout: Option<real>, unixtime: real): (t: real) {
    if timeout.Some? then unixtime + timeout.value else FOREVER
  }

  /** float(reply or 1) */
  function Existing(key: Option<real>): (t: real) {
    if key.Some? then key.value else 1.0
  }

  predicate Enabled(s: State, a: Action) {
    && a.i < |s.clients|
    && match a
       case ReadClock(i, time) => s.clients[i].pc == Trying && 1.0 <= time <= FOREVER
       case Setnx(i) => s.clients[i].pc == AtSetnx
       case Get(i) => s.clients[i].pc == AtGet
       case Getset(i) => s.clients[i].pc == AtGetset
       case ReleaseGet(i) => s.clients[i].pc == Holding && s.clients[i].acquiredUntil.Some?
       case Delete(i) => s.clients[i].pc == AtDelete
  }

  function Move(s: State, i: nat, c: Client): (s': State)
    requires i < |s.clients|
  {
    s.(clients := s.clients[i := c])
  }

  /** One command, executed atomically by the server, and the client's reaction to its reply. */
  function Step(cfg: Config, s: State, a: Action): (s': State)
    requires |cfg| == |s.clients| && Enabled(s, a)
    ensures |s'.clients| == |s.clients|
  {
    var c := s.clients[a.i];
    var timeoutAt := TimeoutAt(cfg[a.i], c.unixtime);
    match a
    case ReadClock(i, time) =>
      Move(s.(now := if time > s.now then time else s.now), i, c.(pc := AtSetnx, unixtime := time))
    case Setnx(i) =>
      if s.key.None? then Move(s.(key := Some(timeoutAt)), i, c.(pc := Holding, acquiredUntil := Some(timeoutAt)))
      else Move(s, i, c.(pc := AtGet))
    case Get(i) =>
      Move(s, i, c.(pc := if Existing(s.key) < c.unixtime then AtGetset else Trying))
    case Getset(i) =>
      var s' := s.(key := Some(timeoutAt));
      if Existing(s.key) < c.unixtime then Move(s', i, c.(pc := Holding, acquiredUntil := Some(timeoutAt)))
      else Move(s', i, c.(pc := Trying))
    case ReleaseGet(i) =>
      if Existing(s.key) >= c.acquiredUntil.value then Move(s, i, c.(pc := AtDelete))
      else Move(s, i, c.(pc := Trying, acquiredUntil := None))
    case Delete(i) =>
      Move(s.(key := None), i, c.(pc := Trying, acquiredUntil := None))
  }

  /** The state after a sequence of commands; None when one of them was not possible. */
  function Run(cfg: Config, s: State, actions: seq<Action>): (r: Option<State>)
    requires |cfg| == |s.clients|
    ensures r.Some? ==> |r.value.clients| == |s.clients|
    decreases |actions|
  {
    if actions == [] then Some(s)
    else if !Enabled(s, actions[0]) then None
    else Run(cfg, Step(cfg, s, actions[0]), actions[1..])
  }

  predicate Holds(s: State, i: nat) {
    i < |s.clients| && (s.clients[i].pc == Holding || s.clients[i].pc == AtDelete)
  }

  /** Two clients hold leases that have not run out. */
  predicate Overlap(s: State, i: nat, j: nat) {
    && i != j && Holds(s, i) && Holds(s, j)
    && s.clients[i].acquiredUntil.Some? && s.clients[i].acquiredUntil.value >= s.now
    && s.clients[j].acquiredUntil.Some? && s.clients[j].acquiredUntil.value >= s.now
  }

  /** The lock is exclusive under every interleaving. */
  ghost predicate Exclusive(cfg: Config) {
    forall actions, i, j ::
      var r := Run(cfg, Init(cfg), actions);
      r.Some? ==> !Overlap(r.value, i, j)
  }

  /** A lease taken at any time outlasts every clock. */
  predicate NeverExpires(timeout: Option<real>) {
    timeout.None? || timeout.value >= FOREVER - 1.0
  }

  predicate NeverExpiring(cfg: Config) {
    forall i | 0 <= i < |cfg| :: NeverExpires(cfg[i])
  }

  // ----- Leases that never run out

  /** At most one holder, and the key guards it with a time no clock passes. */
  ghost predicate Inv(s: State) {
    && (forall i, j :: Holds(s, i) && Holds(s, j) ==> i == j)
    && (forall i :: Holds(s, i) ==> s.key.Some?)
    && (s.key.Some? ==> s.key.value >= FOREVER)
    && (forall i | 0 <= i < |s.clients| :: 1.0 <= s.clients[i].unixtime <= FOREVER)
  }

  lemma StepKeepsInv(cfg: Config, s: State, a: Action)
    requires |cfg| == |s.clients| && NeverExpiring(cfg) && Enabled(s, a) && Inv(s)
    ensures Inv(Step(cfg, s, a))
  {
    var s' := Step(cfg, s, a);
    assert forall k :: 0 <= k < |s.clients| && k != a.i ==> s'.clients[k] == s.clients[k];
    assert forall k: nat :: k != a.i ==> Holds(s', k) == Holds(s, k);
    assert NeverExpires(cfg[a.i]);
    assert Holds(s, a.i) || !Holds(s', a.i) || forall k: nat :: !Holds(s, k);
  }

  lemma {:induction false} RunKeepsInv(cfg: Config, s: State, actions: seq<Action>)
    requires |cfg| == |s.clients| && NeverExpiring(cfg) && Inv(s)
    ensures Run(cfg, s, actions).Some? ==> Inv(Run(cfg, s, actions).value)
    decreases |actions|
  {
    if actions != [] && Enabled(s, actions[0]) {
      StepKeepsInv(cfg, s, actions[0]);
      RunKeepsInv(cfg, Step(cfg, s, actions[0]), actions[1..]);
    }
  }

  /** Without timeouts: at most one client holds the lock in every reachable state, and the key
      exists exactly while one does. */
  ghost predicate Guarded(s: State) {
    && Inv(s)
    && (s.key.Some? ==> s.key.value == FOREVER && exists i :: Holds(s, i))
    && (forall i | 0 <= i < |s.clients| ::
          && (Holds(s, i) ==> s.clients[i].acquiredUntil == Some(FOREVER))
          && (s.clients[i].pc == AtGetset ==> s.clients[i].unixtime > 1.0))
  }

  predicate NoTimeouts(cfg: Config) {
    forall i | 0 <= i < |cfg| :: cfg[i].None?
  }

  lemma StepKeepsGuarded(cfg: Config, s: State, a: Action)
    requires |cfg| == |s.clients| && NoTimeouts(cfg) && Enabled(s, a) && Guarded(s)
    ensures Guarded(Step(cfg, s, a))
  {
    var s' := Step(cfg, s, a);
    StepKeepsInv(cfg, s, a);
    assert forall k :: 0 <= k < |s.clients| && k != a.i ==> s'.clients[k] == s.clients[k];
    assert forall k: nat :: k != a.i ==> Holds(s', k) == Holds(s, k);
    if s'.key.Some? {
      if Holds(s', a.i) {
      } else if a.Getset? && s.key.None? {
        assert Holds(s', a.i);
      } else {
        var h: nat :| Holds(s, h);
        assert h != a.i;
        assert Holds(s', h);
      }
    }
  }

  lemma {:induction false} MutualExclusion(cfg: Config, actions: seq<Action>)
    requires NoTimeouts(cfg)
    ensures var r := Run(cfg, Init(cfg), actions);
            r.Some? ==>
              && (forall i, j :: Holds(r.value, i) && Holds(r.value, j) ==> i == j)
              && (r.value.key.Some? <==> exists i :: Holds(r.value, i))
  {
    GuardedRun(cfg, Init(cfg), actions);
  }

  lemma {:induction false} GuardedRun(cfg: Config, s: State, actions: seq<Action>)
    requires |cfg| == |s.clients| && NoTimeouts(cfg) && Guarded(s)
    ensures Run(cfg, s, actions).Some? ==> Guarded(Run(cfg, s, actions).value)
    decreases |actions|
  {
    if actions != [] && Enabled(s, actions[0]) {
      StepKeepsGuarded(cfg, s, actions[0]);
      GuardedRun(cfg, Step(cfg, s, actions[0]), actions[1..]);
    }
  }

  // ----- Leases that can run out

  /** Client i takes the lock at time 1 and overstays its lease; j takes the lock over. */
  function TakeoverRun(i: nat, j: nat, late: real): (actions: seq<Action>) {
    [ReadClock(i, 1.0), Setnx(i), ReadClock(j, late), Setnx(j), Get(j), Getset(j)]
  }

  /** The late release of i deletes the key, whoever wrote it; i takes the lock again. */
  function RetakeRun(i: nat, late: real): (actions: seq<Action>) {
    [ReleaseGet(i), Delete(i), ReadClock(i, late), Setnx(i)]
  }

  function LateRelease(i: nat, j: nat, late: real): (actions: seq<Action>) {
    TakeoverRun(i, j, late) + RetakeRun(i, late)
  }

  lemma RunOne(cfg: Config, s: State, a: Action, rest: seq<Action>)
    requires |cfg| == |s.clients| && Enabled(s, a)
    ensures Run(cfg, s, [a] + rest) == Run(cfg, Step(cfg, s, a), rest)
  {
    assert ([a] + rest)[1..] == rest;
  }

  /** The takeover: after it j holds, and the key carries the lease of j. */
  lemma Takeover(cfg: Config, i: nat, j: nat, late: real) returns (s: State)
    requires ValidConfig(cfg) && i < |cfg| && j < |cfg| && i != j
    requires cfg[i].Some? && 1.0 + cfg[i].value < late <= FOREVER
    ensures |s.clients| == |cfg|
    ensures var until := TimeoutAt(cfg[j], late);
            && s.key == Some(until) && s.now == late
            && s.clients[i] == Client(Holding, 1.0, Some(1.0 + cfg[i].value))
            && s.clients[j] == Client(Holding, late, Some(until))
    ensures forall rest :: Run(cfg, Init(cfg), TakeoverRun(i, j, late) + rest) == Run(cfg, s, rest)
  {
    var s0 := Init(cfg);
    var s1 := Step(cfg, s0, ReadClock(i, 1.0));
    var s2 := Step(cfg, s1, Setnx(i));
    var s3 := Step(cfg, s2, ReadClock(j, late));
    var s4 := Step(cfg, s3, Setnx(j));
    var s5 := Step(cfg, s4, Get(j));
    s := Step(cfg, s5, Getset(j));
    forall rest
      ensures Run(cfg, s0, TakeoverRun(i, j, late) + rest) == Run(cfg, s, rest)
    {
      var r5 := [Getset(j)] + rest;
      var r4 := [Get(j)] + r5;
      var r3 := [Setnx(j)] + r4;
      var r2 := [ReadClock(j, late)] + r3;
      var r1 := [Setnx(i)] + r2;
      assert TakeoverRun(i, j, late) + rest == [ReadClock(i, 1.0)] + r1;
      RunOne(cfg, s0, ReadClock(i, 1.0), r1);
      RunOne(cfg, s1, Setnx(i), r2);
      RunOne(cfg, s2, ReadClock(j, late), r3);
      RunOne(cfg, s3, Setnx(j), r4);
      RunOne(cfg, s4, Get(j), r5);
      RunOne(cfg, s5, Getset(j), rest);
    }
  }

  /** The late release and what follows: i holds again while j still does. */
  lemma Retake(cfg: Config, i: nat, j: nat, late: real, s: State) returns (s': State)
    requires ValidConfig(cfg) && |cfg| == |s.clients| && i < |cfg| && j < |cfg| && i != j
    requires 1.0 <= late <= FOREVER && s.now == late && s.key.Some?
    requires s.clients[i].pc == Holding && s.clients[i].acquiredUntil.Some?
    requires s.key.value >= s.clients[i].acquiredUntil.value
    ensures Run(cfg, s, RetakeRun(i, late)) == Some(s')
    ensures |s'.clients| == |cfg| && s'.now == late && s'.clients[j] == s.clients[j]
    ensures s'.clients[i] == Client(Holding, late, Some(TimeoutAt(cfg[i], late)))
  {
    var s7 := Step(cfg, s, ReleaseGet(i));
    var s8 := Step(cfg, s7, Delete(i));
    var s9 := Step(cfg, s8, ReadClock(i, late));
    s' := Step(cfg, s9, Setnx(i));
    var r9 := [Setnx(i)] + [];
    var r8 := [ReadClock(i, late)] + r9;
    var r7 := [Delete(i)] + r8;
    assert RetakeRun(i, late) == [ReleaseGet(i)] + r7;
    RunOne(cfg, s, ReleaseGet(i), r7);
    RunOne(cfg, s7, Delete(i), r8);
    RunOne(cfg, s8, ReadClock(i, late), r9);
    RunOne(cfg, s9, Setnx(i), []);
  }

  /** A lease that can run out breaks exclusion: whenever it has, the run above ends with two
      live leases. */
  lemma LateReleaseOverlaps(cfg: Config, i: nat, j: nat, late: real)
    requires ValidConfig(cfg) && i < |cfg| && j < |cfg| && i != j
    requires cfg[i].Some? && 1.0 + cfg[i].value < late <= FOREVER
    ensures var r := Run(cfg, Init(cfg), LateRelease(i, j, late));
            r.Some? && Overlap(r.value, i, j)
  {
    var s := Takeover(cfg, i, j, late);
    var s' := Retake(cfg, i, j, late, s);
  }

  /** Exactly which timeouts the lock is exclusive for, among two or more clients: those under
      which no lease can run out before the last clock reading. */
  lemma ExclusiveIffNeverExpiring(cfg: Config)
    requires ValidConfig(cfg) && |cfg| >= 2
    ensures Exclusive(cfg) <==> NeverExpiring(cfg)
  {
    if NeverExpiring(cfg) {
      forall actions, i, j
        ensures var r := Run(cfg, Init(cfg), actions); r.Some? ==> !Overlap(r.value, i, j)
      {
        RunKeepsInv(cfg, Init(cfg), actions);
      }
    } else {
      var i :| 0 <= i < |cfg| && !NeverExpires(cfg[i]);
      var j := if i == 0 then 1 else 0;
      LateReleaseOverlaps(cfg, i, j, FOREVER);
      var actions := LateRelease(i, j, FOREVER);
      var r := Run(cfg, Init(cfg), actions);
      assert r.Some? && Overlap(r.value, i, j);
      assert !Exclusive(cfg);
    }
  }
}
