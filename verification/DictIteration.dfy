/** The dict iterator: it remembers the successor of the entry it returns, so the caller may
    delete that entry before asking for the next. */
module DictIteration {
  import opened Collections
  import opened DictHeap
  import opened Dict

  /** The entries from bucket b on, in the order of iteration. */
  ghost function Flat(chains: seq<seq<Ptr>>, b: nat): (ps: seq<Ptr>)
    decreases |chains| - b
  {
    if b >= |chains| then [] else chains[b] + Flat(chains, b + 1)
  }

  ghost function First(spine: seq<Ptr>): (p: Ptr) {
    if spine == [] then NULL else spine[0]
  }

  ghost predicate EndsWith(spine: seq<Ptr>, rest: seq<Ptr>) {
    |rest| <= |spine| && spine[|spine| - |rest|..] == rest
  }

  lemma {:induction false} FlatFrame(chains: seq<seq<Ptr>>, b: nat, spine: seq<Ptr>, c: nat)
    requires b < c && b < |chains|
    ensures Flat(chains[b := spine], c) == Flat(chains, c)
    decreases |chains| - c
  {
    if c < |chains| {
      FlatFrame(chains, b, spine, c + 1);
    }
  }

  /** An iterator is about to visit these entries of bucket b. */
  ghost predicate Ahead(chains: seq<seq<Ptr>>, b: int, entry: Ptr, rest: seq<Ptr>) {
    0 <= b < |chains| && EndsWith(chains[b], rest) && entry == First(rest) && (entry == NULL ==> rest == [])
  }

  lemma AtBucket<K, V>(mem: Heap<K, V>, hash: K -> nat, table: seq<Ptr>, chains: seq<seq<Ptr>>, m: map<K, V>, b: nat)
    requires Audit(mem, hash, table, chains, m) && b < |table|
    ensures Ahead(chains, b, table[b], chains[b])
  {
    assert BucketOk(mem, hash, |table|, b, table[b], chains[b]);
  }

  /** The saved successor of an entry is where the walk goes on. */
  lemma AtSuccessor<K, V>(mem: Heap<K, V>, hash: K -> nat, table: seq<Ptr>, chains: seq<seq<Ptr>>, m: map<K, V>, b: int, rest: seq<Ptr>)
    requires Audit(mem, hash, table, chains, m) && Ahead(chains, b, First(rest), rest) && rest != []
    ensures rest[0] in mem && rest[0] != NULL && Ahead(chains, b, mem[rest[0]].next, rest[1..])
  {
    assert BucketOk(mem, hash, |table|, b, table[b], chains[b]);
    var i := |chains[b]| - |rest|;
    assert chains[b][i..] == rest;
    ChainSuffix(mem, table[b], chains[b], i);
    assert chains[b][i + 1..] == rest[1..];
  }

  class Iterator<K(==), V> {
    const ht: Table<K, V>
    var index: int
    var entry: Ptr
    var nextEntry: Ptr
    /** The entries of the current bucket still to come. */
    ghost var rest: seq<Ptr>

    ghost predicate Valid()
      reads this, ht
    {
      -1 <= index && if entry == NULL then rest == [] else Ahead(ht.chains, index, nextEntry, rest)
    }

    /** Everything still to come. */
    ghost function Todo(): (ps: seq<Ptr>)
      requires -1 <= index
      reads this, ht
    {
      rest + Flat(ht.chains, index + 1)
    }

    /** dictGetIterator */
    constructor (ht: Table<K, V>)
      ensures Valid() && this.ht == ht && Todo() == Flat(ht.chains, 0)
    {
      this.ht := ht;
      index, entry, nextEntry, rest := -1, NULL, NULL, [];
      new;
      assert [] + Flat(ht.chains, 0) == Flat(ht.chains, 0);
    }

    /** The first half of a turn: on to the saved successor, or to the next bucket. */
    method Advance() returns (more: bool)
      requires Valid() && ht.Valid()
      modifies this`index, this`entry, this`rest
      ensures -1 <= index && Todo() == old(Todo())
      ensures more ==> Ahead(ht.chains, index, entry, rest) && index <= ht.size
      ensures more ==> index == if old(entry) == NULL then old(index) + 1 else old(index)
      ensures !more ==> Todo() == [] && rest == [] && entry == NULL
    {
      more := true;
      if entry != NULL {
        entry := nextEntry;
      } else {
        index := index + 1;
        if index >= ht.size {
          assert |ht.chains| == ht.size;
          more := false;
        } else {
          AtBucket(ht.mem, ht.hash, ht.table[..], ht.chains, ht.m, index);
          entry := ht.table[index];
          rest := ht.chains[index];
        }
      }
    }

    /** dictNext */
    method Next() returns (p: Ptr)
      requires Valid() && ht.Valid()
      modifies this
      ensures Valid()
      ensures p == NULL ==> old(Todo()) == []
      ensures p != NULL ==> old(Todo()) == [p] + Todo() && p in ht.mem && p == entry
      ensures p != NULL ==> Ahead(ht.chains, index, p, [p] + rest)
    {
      var more := true;
      while more
        invariant Valid() && Todo() == old(Todo())
        invariant !more ==> Todo() == []
        decreases more, ht.size - index, entry != NULL
      {
        more := Advance();
        if more && entry != NULL {
          p := Take();
          return;
        }
      }
      return NULL;
    }

    /** The second half of a turn: return the entry and save its successor. */
    method Take() returns (p: Ptr)
      requires ht.Valid() && index <= ht.size && Ahead(ht.chains, index, entry, rest) && entry != NULL
      modifies this`nextEntry, this`rest
      ensures Valid() && p == entry && old(Todo()) == [p] + Todo() && p in ht.mem
      ensures Ahead(ht.chains, index, p, [p] + rest)
    {
      AtSuccessor(ht.mem, ht.hash, ht.table[..], ht.chains, ht.m, index, rest);
      nextEntry := ht.mem[entry].next;
      assert rest == [entry] + rest[1..];
      rest := rest[1..];
      p := entry;
    }
  }

  // ----- A full iteration

  /** The order of iteration has every entry, once. */
  lemma {:induction false} FlatFrom<K, V>(mem: Heap<K, V>, hash: K -> nat, table: seq<Ptr>, chains: seq<seq<Ptr>>, m: map<K, V>, b: nat)
    requires Audit(mem, hash, table, chains, m) && b <= |table|
    ensures |table| == |chains| && Within(mem, Flat(chains, b)) && KeysDiffer(mem, Flat(chains, b))
    ensures forall i | 0 <= i < |Flat(chains, b)| :: Bucket(hash, mem[Flat(chains, b)[i]].key, |table|) >= b
    ensures forall c, i | b <= c < |table| && 0 <= i < |chains[c]| :: chains[c][i] in Flat(chains, b)
    decreases |table| - b
  {
    if b < |table| {
      FlatFrom(mem, hash, table, chains, m, b + 1);
      assert BucketOk(mem, hash, |table|, b, table[b], chains[b]);
      JoinedKeys(mem, hash, |table|, b, chains[b], Flat(chains, b + 1));
    }
  }

  lemma JoinedKeys<K, V>(mem: Heap<K, V>, hash: K -> nat, size: nat, b: nat, spine: seq<Ptr>, others: seq<Ptr>)
    requires size > 0 && Within(mem, spine) && Within(mem, others) && KeysDiffer(mem, spine) && KeysDiffer(mem, others)
    requires forall i | 0 <= i < |spine| :: Bucket(hash, mem[spine[i]].key, size) == b
    requires forall i | 0 <= i < |others| :: Bucket(hash, mem[others[i]].key, size) > b
    ensures Within(mem, spine + others) && KeysDiffer(mem, spine + others)
    ensures forall i | 0 <= i < |spine + others| :: Bucket(hash, mem[(spine + others)[i]].key, size) >= b
  {
    var all := spine + others;
    forall i | 0 <= i < |all|
      ensures all[i] in mem && Bucket(hash, mem[all[i]].key, size) >= b
      ensures i < |spine| <==> Bucket(hash, mem[all[i]].key, size) == b
    {
      assert all[i] == if i < |spine| then spine[i] else others[i - |spine|];
    }
    forall i, j | 0 <= i < j < |all|
      ensures mem[all[i]].key != mem[all[j]].key
    {
      if j < |spine| {
        assert all[i] == spine[i] && all[j] == spine[j];
      } else if i >= |spine| {
        assert all[i] == others[i - |spine|] && all[j] == others[j - |spine|];
      }
    }
  }

  ghost predicate KeyIn<K, V>(mem: Heap<K, V>, order: seq<Ptr>, k: K) {
    exists i :: 0 <= i < |order| && order[i] in mem && mem[order[i]].key == k
  }

  lemma FlatHasKey<K, V>(mem: Heap<K, V>, hash: K -> nat, table: seq<Ptr>, chains: seq<seq<Ptr>>, m: map<K, V>, k: K)
    requires Audit(mem, hash, table, chains, m)
    ensures k in m <==> KeyIn(mem, Flat(chains, 0), k)
  {
    FlatFrom(mem, hash, table, chains, m, 0);
    var order := Flat(chains, 0);
    if k in m {
      assert HasKey(mem, k);
      var p :| p in mem && mem[p].key == k;
      assert Placed(mem, hash, chains, p);
      var c := Bucket(hash, k, |chains|);
      var j :| 0 <= j < |chains[c]| && chains[c][j] == p;
      assert chains[c][j] in order;
      var i :| 0 <= i < |order| && order[i] == p;
    }
    if KeyIn(mem, order, k) {
      var i :| 0 <= i < |order| && order[i] in mem && mem[order[i]].key == k;
      var p := order[i];
      assert Stored(mem, m, p);
    }
  }

  lemma FlatIsAll<K(!new), V>(mem: Heap<K, V>, hash: K -> nat, table: seq<Ptr>, chains: seq<seq<Ptr>>, m: map<K, V>)
    requires Audit(mem, hash, table, chains, m)
    ensures Within(mem, Flat(chains, 0)) && KeysDiffer(mem, Flat(chains, 0))
    ensures forall k :: k in m <==> KeyIn(mem, Flat(chains, 0), k)
  {
    FlatFrom(mem, hash, table, chains, m, 0);
    forall k
      ensures k in m <==> KeyIn(mem, Flat(chains, 0), k)
    {
      FlatHasKey(mem, hash, table, chains, m, k);
    }
  }

  /** Deleting the entry just returned leaves what is ahead alone. */
  lemma DeletionBehind<K, V>(mem: Heap<K, V>, hash: K -> nat, table: seq<Ptr>, chains: seq<seq<Ptr>>, m: map<K, V>,
                             b: nat, p: Ptr, next: Ptr, rest: seq<Ptr>, at: nat, mem': Heap<K, V>, chains': seq<seq<Ptr>>)
    requires Audit(mem, hash, table, chains, m) && |table| == |chains| > 0
    requires p in mem && Ahead(chains, b, p, [p] + rest) && Ahead(chains, b, next, rest)
    requires Unchained(mem, chains, Bucket(hash, mem[p].key, |table|), at, mem[p].key, mem', chains')
    ensures Ahead(chains', b, next, rest) && Flat(chains', b + 1) == Flat(chains, b + 1)
  {
    assert BucketOk(mem, hash, |table|, b, table[b], chains[b]);
    var spine := chains[b];
    var i := |spine| - |rest| - 1;
    assert spine[i] == spine[i..][0] == p;
    assert Bucket(hash, mem[spine[i]].key, |table|) == b;
    assert at == i;
    assert (spine[..i] + spine[i + 1..])[i..] == spine[i + 1..];
    assert spine[i + 1..] == rest;
    FlatFrame(chains, b, spine[..i] + spine[i + 1..], b + 1);
  }

  /** The entries still to come are as they were at the start. */
  ghost predicate Kept<K, V>(mem0: Heap<K, V>, mem: Heap<K, V>, ps: seq<Ptr>) {
    Within(mem0, ps) && Within(mem, ps) && forall i | 0 <= i < |ps| :: mem[ps[i]].key == mem0[ps[i]].key
  }

  lemma KeptAfterDelete<K, V>(mem0: Heap<K, V>, mem: Heap<K, V>, mem': Heap<K, V>, p: Ptr, q: Ptr, todo: seq<Ptr>)
    requires Kept(mem0, mem, [p] + todo) && KeysDiffer(mem0, [p] + todo)
    requires q in mem && p in mem && mem[q].key == mem[p].key && mem'.Keys == mem.Keys - {q}
    requires forall x | x in mem' :: mem'[x].key == mem[x].key
    ensures Kept(mem0, mem', todo)
  {
    var all := [p] + todo;
    assert all[0] == p;
    forall i | 0 <= i < |todo|
      ensures todo[i] in mem0 && todo[i] in mem' && mem'[todo[i]].key == mem0[todo[i]].key
    {
      assert all[i + 1] == todo[i];
      var x := todo[i];
      assert mem0[all[0]].key != mem0[all[i + 1]].key;
      assert x in mem';
    }
  }

  /** Deletes the entry the iterator just returned; what is ahead of the iterator stays. */
  method DeleteReturned<K(==), V>(it: Iterator<K, V>, p: Ptr, ghost mem0: Heap<K, V>)
    requires it.Valid() && it.ht.Valid() && it.entry == p != NULL && p in it.ht.mem
    requires Ahead(it.ht.chains, it.index, p, [p] + it.rest)
    requires Kept(mem0, it.ht.mem, [p] + it.Todo()) && KeysDiffer(mem0, [p] + it.Todo())
    modifies it.ht, it.ht.table
    ensures it.Valid() && it.ht.Valid() && it.ht.table == old(it.ht.table) && it.Todo() == old(it.Todo())
    ensures it.ht.m == old(it.ht.m) - {old(it.ht.mem)[p].key}
    ensures Kept(mem0, it.ht.mem, it.Todo())
  {
    var d := it.ht;
    ghost var mem, chains, heads, m := d.mem, d.chains, d.table[..], d.m;
    Found(mem, d.hash, heads, chains, m, p);
    var _, at := d.Delete(d.mem[p].key);
    DeletionBehind(mem, d.hash, heads, chains, m, it.index, p, it.nextEntry, it.rest, at, d.mem, d.chains);
    KeptAfterDelete(mem0, mem, d.mem, p, chains[Bucket(d.hash, mem[p].key, d.size)][at], it.Todo());
  }

  /** One turn of a sweep: take the next entry and delete it if its key is doomed. */
  method SweepOne<K(==), V>(it: Iterator<K, V>, doomed: K -> bool, ghost mem0: Heap<K, V>, ghost todo: seq<Ptr>)
    returns (more: bool, key: Option<K>)
    requires it.Valid() && it.ht.Valid() && it.Todo() == todo
    requires Kept(mem0, it.ht.mem, todo) && KeysDiffer(mem0, todo)
    modifies it, it.ht, it.ht.table
    ensures it.Valid() && it.ht.Valid() && it.ht.table == old(it.ht.table)
    ensures more == (todo != []) == key.Some?
    ensures more ==> key.value == mem0[todo[0]].key && it.Todo() == todo[1..]
    ensures !more || Kept(mem0, it.ht.mem, todo[1..])
    ensures it.ht.m == if more && doomed(key.value) then old(it.ht.m) - {key.value} else old(it.ht.m)
  {
    var p := it.Next();
    if p == NULL {
      return false, None;
    }
    assert todo[1..] == it.Todo() && todo == [p] + it.Todo();
    more, key := true, Some(it.ht.mem[p].key);
    if doomed(key.value) {
      DeleteReturned(it, p, mem0);
    } else {
      KeptTail(mem0, it.ht.mem, todo);
    }
  }

  lemma KeptTail<K, V>(mem0: Heap<K, V>, mem: Heap<K, V>, todo: seq<Ptr>)
    requires Kept(mem0, mem, todo) && todo != []
    ensures Kept(mem0, mem, todo[1..])
  {
  }

  /** What a sweep that has seen these keys has left. */
  ghost predicate Swept<K(!new), V>(m0: map<K, V>, m: map<K, V>, keys: seq<K>, doomed: K -> bool) {
    && (forall k :: k in m <==> k in m0 && !(doomed(k) && k in keys))
    && (forall k | k in m :: m[k] == m0[k])
  }

  lemma SweptStep<K(!new), V>(m0: map<K, V>, m: map<K, V>, keys: seq<K>, doomed: K -> bool, key: K)
    requires Swept(m0, m, keys, doomed)
    ensures Swept(m0, if doomed(key) then m - {key} else m, keys + [key], doomed)
  {
    var m' := if doomed(key) then m - {key} else m;
    assert forall k :: k in keys + [key] <==> k in keys || k == key;
  }

  /** The loop of a sweep, from any point on. */
  method SweepRest<K(==, !new), V>(it: Iterator<K, V>, doomed: K -> bool, ghost mem0: Heap<K, V>, ghost order: seq<Ptr>)
    returns (keys: seq<K>)
    requires it.Valid() && it.ht.Valid() && it.Todo() == order
    requires Kept(mem0, it.ht.mem, order) && KeysDiffer(mem0, order)
    modifies it, it.ht, it.ht.table
    ensures it.ht.Valid() && |keys| == |order| && forall i | 0 <= i < |keys| :: keys[i] == mem0[order[i]].key
    ensures Swept(old(it.ht.m), it.ht.m, keys, doomed)
  {
    keys := [];
    assert order[0..] == order;
    var more := true;
    while more
      invariant it.ht.Valid() && it.Valid() && it.ht.table == old(it.ht.table)
      invariant |keys| <= |order| && (!more ==> |keys| == |order|)
      invariant !more || it.Todo() == order[|keys|..]
      invariant !more || Kept(mem0, it.ht.mem, order[|keys|..])
      invariant forall i | 0 <= i < |keys| :: keys[i] == mem0[order[i]].key
      invariant Swept(old(it.ht.m), it.ht.m, keys, doomed)
      decreases more, |order| - |keys|
    {
      var key;
      TailDiffers(mem0, order, |keys|);
      ghost var n, m := |keys|, it.ht.m;
      more, key := SweepOne(it, doomed, mem0, order[n..]);
      if more {
        assert order[n..][1..] == order[n + 1..];
        SweptStep(old(it.ht.m), m, keys, doomed, key.value);
        keys := keys + [key.value];
      }
    }
  }

  /** Iterates over a whole table, deleting the doomed keys on the way: every key present at the
      start is seen exactly once, and exactly the doomed ones are gone afterwards. */
  method Sweep<K(==, !new), V>(d: Table<K, V>, doomed: K -> bool) returns (keys: seq<K>)
    requires d.Valid()
    modifies d, d.table
    ensures d.Valid()
    ensures forall i, j | 0 <= i < j < |keys| :: keys[i] != keys[j]
    ensures forall k :: k in keys <==> k in old(d.m)
    ensures Swept(old(d.m), d.m, keys, doomed)
  {
    FlatIsAll(d.mem, d.hash, d.table[..], d.chains, d.m);
    var it := new Iterator(d);
    keys := SweepRest(it, doomed, d.mem, Flat(d.chains, 0));
    SeenOnce(old(d.mem), old(Flat(d.chains, 0)), old(d.m), keys);
  }

  lemma SeenOnce<K(!new), V>(mem: Heap<K, V>, order: seq<Ptr>, m0: map<K, V>, keys: seq<K>)
    requires Within(mem, order) && KeysDiffer(mem, order)
    requires forall k :: k in m0 <==> KeyIn(mem, order, k)
    requires |keys| == |order| && forall i | 0 <= i < |keys| :: keys[i] == mem[order[i]].key
    ensures forall i, j | 0 <= i < j < |keys| :: keys[i] != keys[j]
    ensures forall k :: k in keys <==> k in m0
  {
    forall k | k in m0
      ensures k in keys
    {
      var i :| 0 <= i < |order| && mem[order[i]].key == k;
      assert keys[i] == k;
    }
  }

  lemma TailDiffers<K, V>(mem: Heap<K, V>, order: seq<Ptr>, n: nat)
    requires Within(mem, order) && KeysDiffer(mem, order) && n <= |order|
    ensures Within(mem, order[n..]) && KeysDiffer(mem, order[n..])
  {
  }
}
