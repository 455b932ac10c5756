/** The chained hash table of dict-inl.h as a finite map. */
module Dict {
  import opened DictHeap
  import opened DictRehash

  const INITIAL_SIZE: nat := 4

  ghost predicate Pow2(n: nat) {
    n == 1 || (n > 1 && n % 2 == 0 && Pow2(n / 2))
  }

  /** _dictNextPower: the first table size that is large enough. */
  method NextPower(size: nat) returns (i: nat)
    ensures Pow2(i) && i >= INITIAL_SIZE && i >= size
    ensures i == INITIAL_SIZE || i / 2 < size
    ensures Pow2(size) && size >= INITIAL_SIZE ==> i == size
  {
    i := INITIAL_SIZE;
    assert Pow2(1) && Pow2(2) && Pow2(4);
    while i < size
      invariant Pow2(i) && i >= INITIAL_SIZE && (i == INITIAL_SIZE || i / 2 < size)
      decreases size - i
    {
      i := i * 2;
    }
    if Pow2(size) && size >= INITIAL_SIZE {
      PowersApart(size, i);
    }
  }

  /** No two powers of two are closer than a factor of two. */
  lemma {:induction false} PowersApart(a: nat, b: nat)
    requires Pow2(a) && Pow2(b) && a <= b < 2 * a
    ensures a == b
  {
    if a > 1 {
      PowersApart(a / 2, b / 2);
    }
  }

  lemma Remainder(a: nat, n: nat, q: nat, r: nat)
    requires r < n && a == n * q + r
    ensures a % n == r
  {
    var d: int := q - a / n;
    assert n * d == n * q - n * (a / n) == a % n - r;
    assert d >= 1 ==> n * d >= n;
    assert d <= -1 ==> n * d + n <= 0;
  }

  lemma RemainderOfTwice(a: nat, k: nat)
    requires k > 0
    ensures a % (2 * k) == 2 * (a / 2 % k) + a % 2
  {
    var q, r := a / 2 / k, a / 2 % k;
    var p := k * q;
    assert a / 2 == p + r;
    assert 2 * k * q == 2 * p;
    Remainder(a, 2 * k, q, 2 * r + a % 2);
  }

  /** With a power of two as size, masking the hash is taking its remainder. */
  lemma {:induction false} MaskIsRemainder(a: nat, size: nat)
    requires Pow2(size)
    ensures BitAnd(a, size - 1) == a % size
    decreases size
  {
    if size > 1 {
      var k := size / 2;
      MaskIsRemainder(a / 2, k);
      RemainderOfTwice(a, k);
      assert (size - 1) / 2 == k - 1 && (size - 1) % 2 == 1;
    }
  }

  /** Every entry of a table hangs in the bucket that its hash leaves modulo the size. */
  lemma BucketIsRemainder<K>(hash: K -> nat, key: K, size: nat)
    requires Pow2(size)
    ensures Bucket(hash, key, size) == hash(key) % size
  {
    MaskIsRemainder(hash(key), size);
  }

  /** Exactly the entry at this place of this chain, which has this key, is gone; all other entries
      keep their keys. */
  ghost predicate Unchained<K, V>(mem: Heap<K, V>, chains: seq<seq<Ptr>>, b: nat, at: nat, key: K,
                                  mem': Heap<K, V>, chains': seq<seq<Ptr>>) {
    && b < |chains| && at < |chains[b]| && chains[b][at] in mem && mem[chains[b][at]].key == key
    && chains' == chains[b := chains[b][..at] + chains[b][at + 1..]]
    && mem'.Keys == mem.Keys - {chains[b][at]}
    && forall q | q in mem' :: mem'[q].key == mem[q].key
  }

  lemma OneMore<K, V>(mem: Heap<K, V>, p: Ptr, e: Entry<K, V>)
    requires p !in mem
    ensures |mem[p := e]| == |mem| + 1
  {
    assert |mem| == |mem.Keys| && |mem[p := e]| == |mem[p := e].Keys| && mem[p := e].Keys == mem.Keys + {p};
  }

  lemma UnlinkedIsUnchained<K, V>(mem: Heap<K, V>, chains: seq<seq<Ptr>>, b: nat, i: nat)
    requires b < |chains| && i < |chains[b]| && chains[b][i] in mem && (i > 0 ==> chains[b][i - 1] in mem)
    requires i > 0 ==> chains[b][i - 1] != chains[b][i]
    ensures var spine := chains[b];
            var mem' := Unlinked(mem, spine, i);
            && Unchained(mem, chains, b, i, mem[spine[i]].key, mem', chains[b := spine[..i] + spine[i + 1..]])
            && |mem'| == |mem| - 1
  {
    var mem' := Unlinked(mem, chains[b], i);
    assert |mem'| == |mem'.Keys| && |mem| == |mem.Keys| && mem'.Keys == mem.Keys - {chains[b][i]};
  }

  /** A sound table has as many entries as its map has keys. */
  lemma SoundSize<K, V>(mem: Heap<K, V>, hash: K -> nat, table: seq<Ptr>, chains: seq<seq<Ptr>>, m: map<K, V>)
    requires Audit(mem, hash, table, chains, m)
    ensures |m| == |mem|
  {
    forall p, q | p in mem && q in mem && mem[p].key == mem[q].key
      ensures p == q
    {
      SameKeySameEntry(mem, hash, table, chains, p, q);
    }
    RepresentsSize(mem, m);
  }

  /** A call that may change the table. */
  datatype Op<K, V> = Add(key: K, val: V) | Replace(key: K, val: V) | Delete(key: K)

  class Table<K(==), V> {
    const hash: K -> nat
    var table: array<Ptr>
    var size: nat
    var sizemask: nat
    var used: nat
    /** The allocated entries and the next free address. */
    var mem: Heap<K, V>
    var brk: Ptr

    ghost var chains: seq<seq<Ptr>>
    ghost var m: map<K, V>

    ghost predicate Sizes()
      reads this
    {
      && size == table.Length
      && (size == 0 || (size >= INITIAL_SIZE && Pow2(size)))
      && sizemask == (if size == 0 then 0 else size - 1)
      && used == |mem| <= size
      && brk > NULL && forall p | p in mem :: NULL < p < brk
    }

    ghost predicate Valid()
      reads this, table
    {
      Sizes() && Audit(mem, hash, table[..], chains, m)
    }

    /** dictCreate */
    constructor (hash: K -> nat)
      ensures Valid() && m == map[] && size == 0 && fresh(table) && this.hash == hash
    {
      this.hash := hash;
      table := new Ptr[0];
      size, sizemask, used, mem, brk := 0, 0, 0, map[], 1;
      chains, m := [], map[];
    }

    /** dictSize: the used field counts the keys and never exceeds the size. */
    method Size() returns (n: nat)
      requires Valid()
      ensures n == used == |m| <= size
    {
      SoundSize(mem, hash, table[..], chains, m);
      n := used;
    }

    /** The body of the inner loop of dictExpand: he goes to the front of its new bucket. */
    method MoveEntry(ghost i: nat, he: Ptr, ntable: array<Ptr>, ghost g: Move) returns (nextHe: Ptr, ghost g': Move)
      requires Progress(mem, hash, ntable[..], g) && i < |g.heads| && he == g.heads[i] != NULL
      modifies this`mem, ntable
      ensures SameContents(old(mem), mem) && Progress(mem, hash, ntable[..], g')
      ensures |g.left| == |g.heads| && g.left[i] != [] && he in mem && he !in g.moved
      ensures g'.heads == g.heads[i := nextHe] && g'.left == g.left[i := g.left[i][1..]] && g'.moved == g.moved + {he}
    {
      MoveOne(mem, hash, ntable[..], g, i);
      nextHe := mem[he].next;
      var h := BitAnd(hash(mem[he].key), ntable.Length - 1);
      ghost var heads := ntable[..];
      g' := Moved(g, i, nextHe, h);
      mem := mem[he := mem[he].(next := ntable[h])];
      ntable[h] := he;
      assert ntable[..] == heads[h := he];
    }

    /** The inner loop of dictExpand: relink the entries of bucket i. */
    method MoveBucket(i: nat, ntable: array<Ptr>, remaining: nat, ghost g: Move) returns (left: nat, ghost g': Move)
      requires i < table.Length == |g.heads| == |g.left| && table != ntable
      requires Progress(mem, hash, ntable[..], g) && g.heads[i] == table[i] && remaining == |mem.Keys - g.moved|
      modifies this`mem, ntable
      ensures SameContents(old(mem), mem) && left == |mem.Keys - g'.moved|
      ensures Progress(mem, hash, ntable[..], g') && g'.heads == g.heads[i := NULL] && g'.left == g.left[i := []]
    {
      left, g' := remaining, g;
      var he := table[i];
      while he != NULL
        invariant |g'.left| == |g.left| && g'.heads == g.heads[i := he] && g'.left == g.left[i := g'.left[i]]
        invariant SameContents(old(mem), mem) && left == |mem.Keys - g'.moved|
        invariant Progress(mem, hash, ntable[..], g')
        decreases |g'.left[i]|
      {
        ghost var rest, p := mem.Keys - g'.moved, he;
        he, g' := MoveEntry(i, he, ntable, g');
        assert mem.Keys - g'.moved == rest - {p};
        left := left - 1;
      }
      BucketEmptied(mem, hash, ntable[..], g', i);
    }

    /** The outer loop of dictExpand, which stops early once no entry remains. The source's closing
        assertion that none does is the assertion at the end. */
    method MoveAll(ntable: array<Ptr>) returns (ghost nchains: seq<seq<Ptr>>)
      requires Valid() && table != ntable && ntable.Length > 0 && ntable[..] == Nulls(ntable.Length)
      modifies this`mem, ntable
      ensures SameContents(old(mem), mem) && Audit(mem, hash, ntable[..], nchains, m)
    {
      Started(mem, hash, table[..], chains, m, ntable.Length);
      ghost var g := Move(table[..], chains, Empties(ntable.Length), {});
      assert mem.Keys - g.moved == mem.Keys;
      var remaining;
      remaining, g := MoveBuckets(ntable, used, g);
      Finished(old(mem), mem, hash, ntable[..], g, m);
      assert remaining == 0;
      nchains := g.chains;
    }

    method MoveBuckets(ntable: array<Ptr>, all: nat, ghost g0: Move) returns (remaining: nat, ghost g: Move)
      requires table != ntable && Progress(mem, hash, ntable[..], g0) && all == |mem.Keys - g0.moved|
      requires g0.heads == table[..] && |g0.left| == table.Length
      modifies this`mem, ntable
      ensures SameContents(old(mem), mem) && Progress(mem, hash, ntable[..], g)
      ensures remaining == |mem.Keys - g.moved|
      ensures remaining == 0 || forall b | 0 <= b < |g.left| :: g.left[b] == []
    {
      g := g0;
      remaining := all;
      ghost var heads := table[..];
      var i := 0;
      while i < table.Length && remaining > 0
        invariant i <= table.Length == |g.heads| == |g.left|
        invariant SameContents(old(mem), mem) && Progress(mem, hash, ntable[..], g)
        invariant remaining == |mem.Keys - g.moved|
        invariant forall b | 0 <= b < i :: g.left[b] == []
        invariant forall b | i <= b < |heads| :: g.heads[b] == heads[b]
      {
        remaining, g := MoveBucket(i, ntable, remaining, g);
        i := i + 1;
      }
    }

    /** dictExpand: relinks every entry into a larger table. */
    method Expand(newsize: nat) returns (ok: bool)
      requires Valid()
      modifies this
      ensures Valid() && m == old(m) && ok == (old(used) <= newsize)
      ensures ok ==> size >= newsize && (size == INITIAL_SIZE || size / 2 < newsize) && fresh(table)
      ensures ok && Pow2(newsize) && newsize >= INITIAL_SIZE ==> size == newsize
      ensures !ok ==> size == old(size)
      ensures SameContents(old(mem), mem) && brk == old(brk) && (table == old(table) || fresh(table))
    {
      var realsize := NextPower(newsize);
      ok := used <= newsize;
      if ok {
        var ntable := new Ptr[realsize](_ => NULL);
        assert ntable[..] == Nulls(realsize);
        chains := MoveAll(ntable);
        assert |mem| == |mem.Keys| && |old(mem)| == |old(mem).Keys|;
        table, size, sizemask := ntable, realsize, realsize - 1;
      }
    }

    /** The walk along a chain that dictFind, _dictKeyIndex and dictDelete share; i is the position
        of the entry found. */
    method Search(key: K) returns (prev: Ptr, p: Ptr, ghost i: nat)
      requires Valid() && size > 0
      ensures |chains| == size
      ensures p == NULL ==> key !in m
      ensures var spine := chains[Bucket(hash, key, size)];
              p != NULL ==> i < |spine| && p == spine[i] && p in mem && mem[p].key == key
                            && (if i == 0 then prev == NULL else prev == spine[i - 1] && prev in mem)
    {
      var h := BitAnd(hash(key), sizemask);
      WalkStart(mem, hash, table[..], chains, m, h);
      ghost var spine := chains[h];
      prev, p, i := NULL, table[h], 0;
      while p != NULL
        invariant i <= |spine| && Chain(mem, p, spine[i..]) && Passed(mem, spine, i, key)
        invariant if i == 0 then prev == NULL else prev == spine[i - 1] && prev in mem
        decreases |spine| - i
      {
        WalkStep(mem, spine, i, p);
        if mem[p].key == key {
          return;
        }
        prev, p, i := p, mem[p].next, i + 1;
      }
      NotFound(mem, hash, table[..], chains, m, key);
    }

    /** dictFind */
    method Find(key: K) returns (p: Ptr)
      requires Valid()
      ensures p == NULL <==> key !in m
      ensures p != NULL ==> p in mem && mem[p].key == key && mem[p].val == m[key]
    {
      p := NULL;
      if size > 0 {
        var _, q, _ := Search(key);
        p := q;
        if p != NULL {
          Found(mem, hash, table[..], chains, m, p);
        }
      } else {
        EmptyTable();
      }
    }

    lemma EmptyTable()
      requires Valid() && size == 0
      ensures m == map[]
    {
      assert |mem| == |mem.Keys|;
      assert mem.Keys == {};
      assert forall k | k in m :: !HasKey(mem, k);
    }

    /** _dictExpandIfNeeded */
    method ExpandIfNeeded()
      requires Valid()
      modifies this
      ensures Valid() && m == old(m) && used < size
      ensures size == if old(size) == 0 then 4 else if old(used) == old(size) then 2 * old(size) else old(size)
      ensures SameContents(old(mem), mem) && (table == old(table) || fresh(table))
    {
      if size == 0 {
        assert Pow2(1) && Pow2(2) && Pow2(4);
        var _ := Expand(INITIAL_SIZE);
      } else if used == size {
        assert Pow2(size * 2);
        var _ := Expand(size * 2);
      }
    }

    /** dictAdd */
    method Add(key: K, val: V) returns (ok: bool)
      requires Valid()
      modifies this, table
      ensures Valid() && (table == old(table) || fresh(table))
      ensures ok == (key !in old(m))
      ensures m == if ok then old(m)[key := val] else old(m)
      ensures size == if old(size) == 0 then 4 else if old(used) == old(size) then 2 * old(size) else old(size)
    {
      ExpandIfNeeded();
      var _, p, _ := Search(key);
      if p != NULL {
        Found(mem, hash, table[..], chains, m, p);
        return false;
      }
      Insert(key, val);
      return true;
    }

    /** The linking part of dictAdd. */
    method Insert(key: K, val: V)
      requires Valid() && key !in m && used < size
      modifies this`mem, this`brk, this`used, this`chains, this`m, table
      ensures Valid() && m == old(m)[key := val]
    {
      var h := BitAnd(hash(key), sizemask);
      Added(mem, hash, table[..], chains, m, brk, key, val);
      OneMore(mem, brk, Entry(key, val, table[h]));
      ghost var heads := table[..];
      chains := chains[h := [brk] + chains[h]];
      m := m[key := val];
      mem := mem[brk := Entry(key, val, table[h])];
      table[h] := brk;
      assert table[..] == heads[h := brk];
      brk, used := brk + 1, used + 1;
    }

    /** dictReplace */
    method Replace(key: K, val: V) returns (added: bool)
      requires Valid()
      modifies this, table
      ensures Valid() && (table == old(table) || fresh(table))
      ensures added == (key !in old(m)) && m == old(m)[key := val]
      ensures size == if old(size) == 0 then 4 else if old(used) == old(size) then 2 * old(size) else old(size)
    {
      added := Add(key, val);
      if !added {
        var p := Find(key);
        Replaced(mem, hash, table[..], chains, m, p, val);
        assert mem[p := mem[p].(val := val)].Keys == mem.Keys;
        mem := mem[p := mem[p].(val := val)];
        m := m[key := val];
        assert |mem| == |mem.Keys|;
      }
    }

    /** dictDelete */
    method Delete(key: K) returns (ok: bool, ghost at: nat)
      requires Valid()
      modifies this, table
      ensures Valid() && table == old(table) && size == old(size)
      ensures ok == (key in old(m)) && m == old(m) - {key}
      ensures ok ==> size > 0
      ensures !ok || Unchained(old(mem), old(chains), Bucket(hash, key, size), at, key, mem, chains)
    {
      ok, at := false, 0;
      if size == 0 {
        EmptyTable();
      } else {
        var prev, p, i := Search(key);
        if p != NULL {
          ok := true;
          Found(mem, hash, table[..], chains, m, p);
          Unlink(prev, p, i);
          at := i;
        } else {
          assert m - {key} == m;
        }
      }
    }

    /** One call, with what it does to the map and what it reports: whether it added the key, or found it
        to delete. */
    method Do(op: Op<K, V>) returns (result: bool)
      requires Valid()
      modifies this, table
      ensures Valid() && (table == old(table) || fresh(table))
      ensures m == Applied(old(m), op) && result == if op.Delete? then op.key in old(m) else op.key !in old(m)
      ensures size == if op.Delete? then old(size) else Enough(old(size), |old(m)|)
    {
      SoundSize(mem, hash, table[..], chains, m);
      match op {
        case Add(key, val) => result := Add(key, val);
        case Replace(key, val) => result := Replace(key, val);
        case Delete(key) =>
          ghost var at;
          result, at := Delete(key);
      }
    }

    method Unlink(prev: Ptr, p: Ptr, ghost i: nat)
      requires Valid() && size > 0 && p in mem && |chains| == size
      requires var spine := chains[Bucket(hash, mem[p].key, size)];
               i < |spine| && p == spine[i] && (if i == 0 then prev == NULL else prev == spine[i - 1] && prev in mem)
      modifies this`mem, this`used, this`chains, this`m, table
      ensures Valid() && m == old(m) - {old(mem)[p].key}
      ensures size == 0 || Unchained(old(mem), old(chains), Bucket(hash, old(mem)[p].key, size), i, old(mem)[p].key, mem, chains)
    {
      var h := BitAnd(hash(mem[p].key), sizemask);
      Removed(mem, hash, table[..], chains, m, h, i);
      UnlinkedIsUnchained(mem, chains, h, i);
      ghost var spine, heads, unlinked := chains[h], table[..], Unlinked(mem, chains[h], i);
      chains := chains[h := spine[..i] + spine[i + 1..]];
      m := m - {mem[p].key};
      if prev != NULL {
        mem := mem[prev := mem[prev].(next := mem[p].next)] - {p};
      } else {
        table[h] := mem[p].next;
        mem := mem - {p};
      }
      assert mem == unlinked;
      assert table[..] == if i == 0 then heads[h := old(mem)[p].next] else heads;
      used := used - 1;
    }
  }


  // ----- Any sequence of calls

  /** dictAdd keeps an existing entry, dictReplace does not. */
  function Applied<K, V>(m: map<K, V>, op: Op<K, V>): (m': map<K, V>) {
    match op
    case Add(key, val) => if key in m then m else m[key := val]
    case Replace(key, val) => m[key := val]
    case Delete(key) => m - {key}
  }

  ghost function MapAfter<K, V>(ops: seq<Op<K, V>>): (m: map<K, V>) {
    if ops == [] then map[] else Applied(MapAfter(ops[..|ops| - 1]), ops[|ops| - 1])
  }

  /** The size that a call which may add leaves: the first table has four buckets, and a full one is
      doubled. */
  function Enough(size: nat, keys: nat): (size': nat) {
    if size == 0 then 4 else if keys == size then 2 * size else size
  }

  ghost function SizeAfter<K, V>(ops: seq<Op<K, V>>): (size: nat) {
    if ops == [] then 0
    else
      var prefix := ops[..|ops| - 1];
      if ops[|ops| - 1].Delete? then SizeAfter(prefix) else Enough(SizeAfter(prefix), |MapAfter(prefix)|)
  }

  ghost predicate Reports<K, V>(ops: seq<Op<K, V>>, i: nat, result: bool)
    requires i < |ops|
  {
    result == if ops[i].Delete? then ops[i].key in MapAfter(ops[..i]) else ops[i].key !in MapAfter(ops[..i])
  }

  /** So far every call reported that. */
  ghost predicate AllReport<K, V>(ops: seq<Op<K, V>>, results: seq<bool>) {
    |results| <= |ops| && forall i | 0 <= i < |results| :: Reports(ops, i, results[i])
  }

  /** Call i gave the key its value: it replaced it, or added it while it was missing; and no call since
      replaced or deleted it. */
  ghost predicate Sets<K, V>(ops: seq<Op<K, V>>, i: nat, key: K)
    requires i < |ops|
  {
    && !ops[i].Delete? && ops[i].key == key
    && (ops[i].Add? ==> key !in MapAfter(ops[..i]))
    && forall j | i < j < |ops| :: ops[j].key != key || ops[j].Add?
  }

  /** The map and the size after the first i calls, and what they reported. */
  ghost predicate Reached<K, V>(ops: seq<Op<K, V>>, i: nat, m: map<K, V>, size: nat, results: seq<bool>) {
    && i == |results| && AllReport(ops, results)
    && m == MapAfter(ops[..i]) && size == SizeAfter(ops[..i])
  }

  lemma OneMoreOp<K, V>(ops: seq<Op<K, V>>, i: nat, m: map<K, V>, size: nat, results: seq<bool>, result: bool)
    requires i < |ops| && Reached(ops, i, m, size, results)
    requires result == if ops[i].Delete? then ops[i].key in m else ops[i].key !in m
    ensures Reached(ops, i + 1, Applied(m, ops[i]), if ops[i].Delete? then size else Enough(size, |m|), results + [result])
  {
    StateOneMore(ops, i);
    ReportOneMore(ops, results, result);
  }

  lemma StateOneMore<K, V>(ops: seq<Op<K, V>>, i: nat)
    requires i < |ops|
    ensures var m, size := MapAfter(ops[..i]), SizeAfter(ops[..i]);
            && MapAfter(ops[..i + 1]) == Applied(m, ops[i])
            && SizeAfter(ops[..i + 1]) == if ops[i].Delete? then size else Enough(size, |m|)
  {
    assert ops[..i + 1][..i] == ops[..i];
  }

  lemma ReportOneMore<K, V>(ops: seq<Op<K, V>>, results: seq<bool>, result: bool)
    requires AllReport(ops, results) && |results| < |ops| && Reports(ops, |results|, result)
    ensures AllReport(ops, results + [result])
  {
  }

  /** A key is in the map exactly when such a call set it, with the value of that call. */
  lemma {:induction false} InMapIffSet<K, V>(ops: seq<Op<K, V>>, key: K)
    ensures key in MapAfter(ops) <==> exists i | 0 <= i < |ops| :: Sets(ops, i, key)
    ensures forall i | 0 <= i < |ops| && Sets(ops, i, key) :: key in MapAfter(ops) && MapAfter(ops)[key] == ops[i].val
  {
    if ops != [] {
      var n := |ops| - 1;
      InMapIffSet(ops[..n], key);
      forall i | 0 <= i < n
        ensures Sets(ops, i, key) <==> Sets(ops[..n], i, key) && (ops[n].key != key || ops[n].Add?)
      {
        SetsStep(ops, i, key);
      }
      assert Sets(ops, n, key) <==> !ops[n].Delete? && ops[n].key == key && (ops[n].Add? ==> key !in MapAfter(ops[..n]));
    }
  }

  lemma SetsStep<K, V>(ops: seq<Op<K, V>>, i: nat, key: K)
    requires i < |ops| - 1
    ensures var n := |ops| - 1;
            Sets(ops, i, key) <==> Sets(ops[..n], i, key) && (ops[n].key != key || ops[n].Add?)
  {
    var n := |ops| - 1;
    assert ops[..n][..i] == ops[..i];
    assert forall j | 0 <= j < n :: ops[..n][j] == ops[j];
  }

  /** A table refines its map over every sequence of calls, through all the resizes between them, with
      the right result for each call. */
  method Perform<K(==), V>(hash: K -> nat, ops: seq<Op<K, V>>) returns (t: Table<K, V>, results: seq<bool>)
    ensures fresh(t) && t.Valid() && t.m == MapAfter(ops) && t.size == SizeAfter(ops)
    ensures |results| == |ops| && AllReport(ops, results)
  {
    t := new Table<K, V>(hash);
    results := [];
    for i := 0 to |ops|
      invariant fresh(t) && fresh(t.table) && t.Valid() && Reached(ops, i, t.m, t.size, results)
    {
      ghost var m, size := t.m, t.size;
      var result := t.Do(ops[i]);
      OneMoreOp(ops, i, m, size, results, result);
      results := results + [result];
    }
    assert ops[..|ops|] == ops;
  }
}
