/** Who holds the lock and what the key says, read off the commands alone. */
module LockHistory {
  import opened Collections
  import opened Lock

  /** The last time that client i read the clock. */
  function ClockOf(actions: seq<Action>, i: nat): (time: real) {
    if actions == [] then 1.0
    else
      var a := actions[|actions| - 1];
      if a.ReadClock? && a.i == i then a.time else ClockOf(actions[..|actions| - 1], i)
  }

  /** The lease that client i asks for: from its clock reading on, or for good. */
  function Wanted(cfg: Config, actions: seq<Action>, i: nat): (until: real)
    requires i < |cfg|
  {
    if cfg[i].Some? then ClockOf(actions, i) + cfg[i].value else 2147483649.0
  }

  /** The stored lease ran out before this time; a missing one counts as 1. */
  predicate Expired(key: Option<real>, time: real) {
    if key.Some? then key.value < time else 1.0 < time
  }

  predicate ByClients(cfg: Config, actions: seq<Action>) {
    forall k | 0 <= k < |actions| :: actions[k].i < |cfg|
  }

  /** The key: set by a setnx that finds none and by every getset, also one that does not get the
      lock; gone after a delete, whoever sends it. */
  function KeyBy(cfg: Config, actions: seq<Action>): (key: Option<real>)
    requires ByClients(cfg, actions)
  {
    if actions == [] then None
    else
      var before, a := actions[..|actions| - 1], actions[|actions| - 1];
      var key := KeyBy(cfg, before);
      if a.Getset? || (a.Setnx? && key.None?) then Some(Wanted(cfg, before, a.i))
      else if a.Delete? then None
      else key
  }

  /** The lease of client i: taken by a setnx that finds no key or a getset that finds an expired one;
      given up by a delete, or by a release that finds a key older than the lease. */
  function LeaseBy(cfg: Config, actions: seq<Action>, i: nat): (lease: Option<real>)
    requires ByClients(cfg, actions) && i < |cfg|
  {
    if actions == [] then None
    else
      var before, a := actions[..|actions| - 1], actions[|actions| - 1];
      var key, lease := KeyBy(cfg, before), LeaseBy(cfg, before, i);
      if a.i != i then lease
      else if (a.Setnx? && key.None?) || (a.Getset? && Expired(key, ClockOf(before, i))) then Some(Wanted(cfg, before, i))
      else if a.Delete? || (a.ReleaseGet? && lease.Some? && Expired(key, lease.value)) then None
      else lease
  }

  lemma {:induction false} RunSnoc(cfg: Config, s: State, actions: seq<Action>, a: Action)
    requires |cfg| == |s.clients|
    ensures var r := Run(cfg, s, actions);
            Run(cfg, s, actions + [a]) == if r.Some? && Enabled(r.value, a) then Some(Step(cfg, r.value, a)) else None
    decreases |actions|
  {
    var all := actions + [a];
    if actions == [] {
      assert all[1..] == [];
    } else {
      assert all[0] == actions[0] && all[1..] == actions[1..] + [a];
      if Enabled(s, actions[0]) {
        RunSnoc(cfg, Step(cfg, s, actions[0]), actions[1..], a);
      }
    }
  }

  /** The client knows its clock and its lease, and holds the lock while it has one. */
  predicate Tells(cfg: Config, actions: seq<Action>, i: nat, c: Client)
    requires ByClients(cfg, actions) && i < |cfg|
  {
    && c.unixtime == ClockOf(actions, i)
    && c.acquiredUntil == LeaseBy(cfg, actions, i)
    && (c.pc == Holding || c.pc == AtDelete <==> LeaseBy(cfg, actions, i).Some?)
  }

  ghost predicate Tallies(cfg: Config, actions: seq<Action>, s: State) {
    && |s.clients| == |cfg| && ByClients(cfg, actions)
    && s.key == KeyBy(cfg, actions)
    && forall i | 0 <= i < |cfg| :: Tells(cfg, actions, i, s.clients[i])
  }

  lemma StepTallies(cfg: Config, before: seq<Action>, s: State, a: Action)
    requires Tallies(cfg, before, s) && Enabled(s, a)
    ensures Tallies(cfg, before + [a], Step(cfg, s, a))
  {
    var all, s' := before + [a], Step(cfg, s, a);
    assert all[..|before|] == before && all[|before|] == a;
    assert ByClients(cfg, all);
    assert Tells(cfg, before, a.i, s.clients[a.i]);
    forall i | 0 <= i < |cfg|
      ensures Tells(cfg, all, i, s'.clients[i])
    {
      assert Tells(cfg, before, i, s.clients[i]);
    }
  }

  /** In every run the key and the leases are what the commands so far call for, in their order. */
  lemma {:induction false} RunTallies(cfg: Config, actions: seq<Action>)
    ensures var r := Run(cfg, Init(cfg), actions);
            r.Some? ==> Tallies(cfg, actions, r.value)
  {
    if actions != [] {
      var n := |actions| - 1;
      assert actions == actions[..n] + [actions[n]];
      RunSnoc(cfg, Init(cfg), actions[..n], actions[n]);
      RunTallies(cfg, actions[..n]);
      var r := Run(cfg, Init(cfg), actions[..n]);
      if r.Some? && Enabled(r.value, actions[n]) {
        StepTallies(cfg, actions[..n], r.value, actions[n]);
      }
    }
  }
}
