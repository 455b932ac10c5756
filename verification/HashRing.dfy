/** The consistent hash ring of redis_cluster.cc over an arbitrary hash function. */
module HashRing {
  import opened Bytes
  import opened Collections

  /** A place on the ring: an unsigned 32-bit number. */
  const LIMIT: nat := 0x1_0000_0000
  type Point = p: int | 0 <= p < 0x1_0000_0000

  type Name = seq<byte>

  /** The hash of a string's bytes up to the first NUL. */
  type Hash = Name -> Point

  datatype Node = Node(name: Name, replicas: nat)

  type Ring = map<Point, Node>

  /** ToString: snprintf into ten bytes, so at most nine digits. */
  function Suffix(r: nat): (s: seq<byte>) {
    var digits := Decimal(r);
    if |digits| > 9 then digits[..9] else digits
  }

  /** Below a thousand million the suffix is the number in base ten. */
  lemma SuffixIsTheNumber(r: nat)
    ensures |Suffix(r)| <= 9 && forall i | 0 <= i < |Suffix(r)| :: 48 <= Suffix(r)[i] <= 57
    ensures r < 1_000_000_000 ==> ValueOf(Suffix(r)) == r
    ensures r >= 1_000_000_000 ==> |Suffix(r)| == 9 && Suffix(r) <= Decimal(r)
  {
    DecimalIsTheNumber(r);
    DecimalSize(r, 9);
    assert Tens(9) == 1_000_000_000 by {
      assert Tens(3) == 1000;
      assert Tens(6) == 1000 * Tens(3);
      assert Tens(9) == 1000 * Tens(6);
    }
  }

  /** Replicas hash different strings, as long as their numbers fit the buffer. */
  lemma ReplicasDiffer(name: Name, r: nat, s: nat)
    requires r != s && r < 1_000_000_000 && s < 1_000_000_000
    ensures name + Suffix(r) != name + Suffix(s)
  {
    SuffixIsTheNumber(r);
    SuffixIsTheNumber(s);
    assert (name + Suffix(r))[|name|..] == Suffix(r);
    assert (name + Suffix(s))[|name|..] == Suffix(s);
  }

  function PointOf(hash: Hash, name: Name, r: nat): (p: Point) {
    hash(name + Suffix(r))
  }

  function Points(hash: Hash, name: Name, n: nat): (ps: set<Point>) {
    set r | 0 <= r < n :: PointOf(hash, name, r)
  }

  // ----- What the operations do to the ring

  function Added(hash: Hash, ring: Ring, name: Name, n: nat): (ring': Ring) {
    Taken(ring, Points(hash, name, n), Node(name, n))
  }

  /** The ring after a node took these points, whoever had them. */
  function Taken(ring: Ring, points: set<Point>, node: Node): (ring': Ring) {
    ring + map p | p in points :: node
  }

  lemma TakenOneMore(ring: Ring, points: set<Point>, node: Node, p: Point)
    ensures Taken(ring, points + {p}, node) == Taken(ring, points, node)[p := node]
  {
  }

  /** Looking up the first point inserts an empty node when there is none. */
  function Touched(ring: Ring, p: Point): (ring': Ring) {
    if p in ring then ring else ring[p := Node([], 0)]
  }

  function Removed(hash: Hash, ring: Ring, name: Name): (ring': Ring) {
    var first := PointOf(hash, name, 0);
    var touched := Touched(ring, first);
    touched - Points(hash, name, touched[first].replicas)
  }

  // ----- Ownership

  /** How far a point lies clockwise from another. */
  function Distance(from: Point, to: Point): (d: nat) {
    if from <= to then to - from else to - from + LIMIT
  }

  /** The point that owns h: the first one clockwise. */
  ghost predicate Owns(ring: Ring, p: Point, h: Point) {
    p in ring && forall q | q in ring :: Distance(h, p) <= Distance(h, q)
  }

  lemma OwnerUnique(ring: Ring, p: Point, q: Point, h: Point)
    requires Owns(ring, p, h) && Owns(ring, q, h)
    ensures p == q
  {
  }

  /** That is the least point from h on, and past the last one the least of all. */
  lemma OwnerIsLowerBound(ring: Ring, p: Point, h: Point)
    ensures Owns(ring, p, h)
            <==> && p in ring
                 && if exists q | q in ring :: q >= h then p >= h && forall q | q in ring && q >= h :: p <= q
                    else forall q | q in ring :: p <= q
  {
    if Owns(ring, p, h) {
      if q :| q in ring && q >= h {
        assert Distance(h, p) <= Distance(h, q);
      }
      assert forall q | q in ring :: Distance(h, p) <= Distance(h, q);
    }
  }

  class HashRing {
    const hash: Hash
    var ring: Ring

    constructor (h: Hash)
      ensures hash == h && ring == map[]
    {
      hash, ring := h, map[];
    }

    /** Returns the last point; with no replicas the original returns an undefined value. */
    method AddNode(name: Name, replicas: nat) returns (last: Point)
      modifies this
      ensures ring == Added(hash, old(ring), name, replicas)
      ensures forall r | 0 <= r < replicas :: hash(name + Suffix(r)) in ring && ring[hash(name + Suffix(r))] == Node(name, replicas)
      ensures forall p | p in ring :: p in old(ring) || exists r | 0 <= r < replicas :: p == hash(name + Suffix(r))
      ensures forall p | p in old(ring) :: p in ring && (ring[p] == old(ring)[p] || ring[p] == Node(name, replicas))
      ensures replicas > 0 ==> last == PointOf(hash, name, replicas - 1)
    {
      last := 0;
      for r := 0 to replicas
        invariant ring == Taken(old(ring), Points(hash, name, r), Node(name, replicas))
        invariant r > 0 ==> last == PointOf(hash, name, r - 1)
      {
        last := PointOf(hash, name, r);
        PointsStep(hash, name, r);
        TakenOneMore(old(ring), Points(hash, name, r), Node(name, replicas), last);
        ring := ring[last := Node(name, replicas)];
      }
      forall r | 0 <= r < replicas
        ensures hash(name + Suffix(r)) in Points(hash, name, replicas)
      {
        assert PointOf(hash, name, r) in Points(hash, name, replicas);
      }
    }

    method RemoveNode(name: Name)
      modifies this
      ensures ring == Removed(hash, old(ring), name)
    {
      var first := PointOf(hash, name, 0);
      if first !in ring {
        ring := ring[first := Node([], 0)];
      }
      var replicas := ring[first].replicas;
      ghost var touched := ring;
      for r := 0 to replicas
        invariant ring == touched - Points(hash, name, r)
      {
        PointsStep(hash, name, r);
        ring := ring - {PointOf(hash, name, r)};
      }
    }

    method GetNode(key: Name) returns (name: Name)
      requires ring != map[]
      ensures exists p :: Owns(ring, p, hash(key)) && name == ring[p].name
    {
      var p := FirstFrom(ring.Keys, hash(key));
      assert Owns(ring, p, hash(key));
      name := ring[p].name;
    }
  }

  /** lower_bound, or begin when that is the end. */
  method FirstFrom(points: set<Point>, h: Point) returns (p: Point)
    requires points != {}
    ensures p in points && forall q | q in points :: Distance(h, p) <= Distance(h, q)
  {
    ghost var any := AnyOf(points);
    p :| p in points;
    var rest := points - {p};
    while rest != {}
      invariant p in points && rest <= points
      invariant forall q | q in points :: q in rest || Distance(h, p) <= Distance(h, q)
    {
      ghost var some := AnyOf(rest);
      var q: Point :| q in rest;
      if (q >= h && (p < h || q < p)) || (q < h && p < h && q < p) {
        p := q;
      }
      rest := rest - {q};
    }
  }

  lemma PointsStep(hash: Hash, name: Name, r: nat)
    ensures Points(hash, name, r + 1) == Points(hash, name, r) + {PointOf(hash, name, r)}
  {
  }

  /** No two different replica strings of the node hash to the same point. */
  ghost predicate CollisionFree(hash: Hash, name: Name, n: nat) {
    forall r, s | 0 <= r < s < n && PointOf(hash, name, r) == PointOf(hash, name, s) :: name + Suffix(r) == name + Suffix(s)
  }

  /** Then the node gets as many points as it has replicas, as long as their numbers fit the buffer. */
  lemma {:induction false} AllReplicasPlaced(hash: Hash, name: Name, n: nat)
    requires n <= 1_000_000_000 && CollisionFree(hash, name, n)
    ensures |Points(hash, name, n)| == n
  {
    if n > 0 {
      AllReplicasPlaced(hash, name, n - 1);
      PointsStep(hash, name, n - 1);
      LastReplicaIsNew(hash, name, n);
    }
  }

  lemma LastReplicaIsNew(hash: Hash, name: Name, n: nat)
    requires 0 < n <= 1_000_000_000 && CollisionFree(hash, name, n)
    ensures PointOf(hash, name, n - 1) !in Points(hash, name, n - 1)
  {
    forall r | 0 <= r < n - 1
      ensures PointOf(hash, name, r) != PointOf(hash, name, n - 1)
    {
      ReplicasDiffer(name, r, n - 1);
    }
  }

  // ----- Minimal disruption

  /** Adding a node moves a key only to that node, whatever points collide. */
  lemma AddMovesOnlyToNew(hash: Hash, ring: Ring, name: Name, n: nat, h: Point, before: Point, after: Point)
    requires Owns(ring, before, h) && Owns(Added(hash, ring, name, n), after, h)
    ensures var ring' := Added(hash, ring, name, n);
            && (after in Points(hash, name, n) ==> ring'[after].name == name)
            && (after !in Points(hash, name, n) ==> after == before && ring'[after] == ring[before])
  {
    var ring' := Added(hash, ring, name, n);
    if after !in Points(hash, name, n) {
      assert Owns(ring, after, h) by {
        assert forall q | q in ring :: q in ring';
      }
      OwnerUnique(ring, before, after, h);
    }
  }

  /** RemoveNode undoes AddNode exactly when the node was added with a replica and took no point of
      another; without replicas only where the ring already holds an empty node. */
  lemma RemoveUndoesAdd(hash: Hash, ring: Ring, name: Name, n: nat)
    ensures var first := PointOf(hash, name, 0);
            Removed(hash, Added(hash, ring, name, n), name) == ring
            <==> if n > 0 then Points(hash, name, n) !! ring.Keys else first in ring && ring[first].replicas == 0
  {
    var first, ps, added := PointOf(hash, name, 0), Points(hash, name, n), Added(hash, ring, name, n);
    if n > 0 {
      assert first in ps;
      assert added[first] == Node(name, n);
      assert Removed(hash, added, name) == added - ps;
      assert (added - ps).Keys == ring.Keys - ps;
    } else {
      assert added == ring;
      if first in ring && ring[first].replicas > 0 {
        assert first in Points(hash, name, ring[first].replicas);
      }
    }
  }

  /** Removing it again changes the owner of no other key. */
  lemma RemoveMovesOnlyItsOwn(hash: Hash, ring: Ring, name: Name, n: nat, h: Point, joined: Point, left: Point)
    requires n > 0 && Points(hash, name, n) !! ring.Keys
    requires Owns(Added(hash, ring, name, n), joined, h)
    requires Owns(Removed(hash, Added(hash, ring, name, n), name), left, h)
    ensures Added(hash, ring, name, n)[joined] == Node(name, n) || left == joined
  {
    RemoveUndoesAdd(hash, ring, name, n);
    AddMovesOnlyToNew(hash, ring, name, n, h, left, joined);
  }

  // ----- Any history

  /** The point is one of a member's, as the member came. */
  ghost predicate Owned(hash: Hash, ring: Ring, members: map<Name, nat>, p: Point) {
    && p in ring
    && ring[p].name in members && ring[p].replicas == members[ring[p].name]
    && p in Points(hash, ring[p].name, ring[p].replicas)
  }

  ghost predicate Occupies(ring: Ring, name: Name, p: Point) {
    p in ring && ring[p].name == name
  }

  /** The ring holds exactly the points of these nodes. */
  ghost predicate Holds(hash: Hash, ring: Ring, members: map<Name, nat>) {
    && (forall p {:trigger Owned(hash, ring, members, p)} | p in ring :: Owned(hash, ring, members, p))
    && (forall name, p {:trigger Occupies(ring, name, p)} | name in members && p in Points(hash, name, members[name]) ::
          Occupies(ring, name, p))
    && (forall name | name in members :: members[name] > 0)
  }

  /** The ring depends on who is in it, not on how they came: equal members, equal owners. */
  lemma SameMembersSameRing(hash: Hash, a: Ring, b: Ring, members: map<Name, nat>)
    requires Holds(hash, a, members) && Holds(hash, b, members)
    ensures a == b
  {
    forall p | p in a
      ensures p in b && b[p] == a[p]
    {
      assert Owned(hash, a, members, p) && Occupies(b, a[p].name, p);
      assert Owned(hash, b, members, p);
    }
    forall p | p in b
      ensures p in a
    {
      assert Owned(hash, b, members, p) && Occupies(a, b[p].name, p);
    }
  }

  datatype Op = Add(name: Name, replicas: nat) | Remove(name: Name)

  /** A new node brings replicas and takes no point of another; only a member is removed. */
  ghost predicate Allowed(hash: Hash, ring: Ring, members: map<Name, nat>, op: Op) {
    match op
    case Add(name, n) => name !in members && n > 0 && Points(hash, name, n) !! ring.Keys
    case Remove(name) => name in members
  }

  function Apply(hash: Hash, ring: Ring, op: Op): (ring': Ring) {
    match op
    case Add(name, n) => Added(hash, ring, name, n)
    case Remove(name) => Removed(hash, ring, name)
  }

  function Joined(members: map<Name, nat>, op: Op): (members': map<Name, nat>) {
    match op
    case Add(name, n) => members[name := n]
    case Remove(name) => members - {name}
  }

  lemma ApplyKeepsMembers(hash: Hash, ring: Ring, members: map<Name, nat>, op: Op)
    requires Holds(hash, ring, members) && Allowed(hash, ring, members, op)
    ensures Holds(hash, Apply(hash, ring, op), Joined(members, op))
  {
    match op {
      case Add(name, n) => AddKeepsMembers(hash, ring, members, name, n);
      case Remove(name) => RemoveKeepsMembers(hash, ring, members, name);
    }
  }

  lemma AddKeepsMembers(hash: Hash, ring: Ring, members: map<Name, nat>, name: Name, n: nat)
    requires Holds(hash, ring, members) && name !in members && n > 0 && Points(hash, name, n) !! ring.Keys
    ensures Holds(hash, Added(hash, ring, name, n), members[name := n])
  {
    var ring', members' := Added(hash, ring, name, n), members[name := n];
    forall p | p in ring'
      ensures Owned(hash, ring', members', p)
    {
      if p !in Points(hash, name, n) {
        assert Owned(hash, ring, members, p);
      }
    }
    forall other, p | other in members' && p in Points(hash, other, members'[other])
      ensures Occupies(ring', other, p)
    {
      if other != name {
        assert Occupies(ring, other, p);
      }
    }
  }

  lemma RemoveKeepsMembers(hash: Hash, ring: Ring, members: map<Name, nat>, name: Name)
    requires Holds(hash, ring, members) && name in members
    ensures Holds(hash, Removed(hash, ring, name), members - {name})
  {
    var first, ps := PointOf(hash, name, 0), Points(hash, name, members[name]);
    assert first in ps;
    assert Occupies(ring, name, first) && Owned(hash, ring, members, first);
    var ring', members' := ring - ps, members - {name};
    assert Removed(hash, ring, name) == ring';
    forall p | p in ring'
      ensures Owned(hash, ring', members', p)
    {
      assert Owned(hash, ring, members, p);
    }
    forall other, p | other in members' && p in Points(hash, other, members'[other])
      ensures Occupies(ring', other, p)
    {
      assert p in ps ==> Occupies(ring, name, p);
      assert Occupies(ring, other, p);
    }
  }

  ghost predicate AllAllowed(hash: Hash, ops: seq<Op>) {
    ops == [] || (
      var prefix := ops[..|ops| - 1];
      AllAllowed(hash, prefix) && Allowed(hash, RingAfter(hash, prefix), MembersAfter(prefix), ops[|ops| - 1]))
  }

  ghost function RingAfter(hash: Hash, ops: seq<Op>): (ring: Ring) {
    if ops == [] then map[] else Apply(hash, RingAfter(hash, ops[..|ops| - 1]), ops[|ops| - 1])
  }

  ghost function MembersAfter(ops: seq<Op>): (members: map<Name, nat>) {
    if ops == [] then map[] else Joined(MembersAfter(ops[..|ops| - 1]), ops[|ops| - 1])
  }

  /** After any history of collision-free joins and leaves the ring is that of the present members. */
  lemma {:induction false} HistoryHolds(hash: Hash, ops: seq<Op>)
    requires AllAllowed(hash, ops)
    ensures Holds(hash, RingAfter(hash, ops), MembersAfter(ops))
  {
    if ops != [] {
      var prefix := ops[..|ops| - 1];
      HistoryHolds(hash, prefix);
      ApplyKeepsMembers(hash, RingAfter(hash, prefix), MembersAfter(prefix), ops[|ops| - 1]);
    }
  }

  lemma HistoryIndependence(hash: Hash, a: seq<Op>, b: seq<Op>)
    requires AllAllowed(hash, a) && AllAllowed(hash, b) && MembersAfter(a) == MembersAfter(b)
    ensures RingAfter(hash, a) == RingAfter(hash, b)
  {
    HistoryHolds(hash, a);
    HistoryHolds(hash, b);
    SameMembersSameRing(hash, RingAfter(hash, a), RingAfter(hash, b), MembersAfter(a));
  }
}
