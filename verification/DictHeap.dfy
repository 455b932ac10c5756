/** The heap behind the chained hash table: entries at addresses, chained through their next
    fields, one chain per bucket. */
module DictHeap {
  import opened Collections

  type Ptr = int

  const NULL: Ptr := 0

  datatype Entry<K, V> = Entry(key: K, val: V, next: Ptr)

  type Heap<K, V> = map<Ptr, Entry<K, V>>

  /** Following next from p visits exactly these entries. */
  ghost predicate Chain<K, V>(mem: Heap<K, V>, p: Ptr, spine: seq<Ptr>)
    decreases |spine|
  {
    if spine == [] then p == NULL
    else p == spine[0] && p != NULL && p in mem && Chain(mem, mem[p].next, spine[1..])
  }

  lemma {:induction false} ChainIn<K, V>(mem: Heap<K, V>, p: Ptr, spine: seq<Ptr>, q: Ptr)
    requires Chain(mem, p, spine) && q in spine
    ensures q in mem && q != NULL
    decreases |spine|
  {
    if q != spine[0] {
      ChainIn(mem, mem[p].next, spine[1..], q);
    }
  }

  /** All of these are entries. */
  ghost predicate Within<K, V>(mem: Heap<K, V>, spine: seq<Ptr>) {
    forall i | 0 <= i < |spine| :: spine[i] in mem
  }

  /** Writes outside a chain do not change it. */
  lemma {:induction false} ChainFrame<K, V>(mem: Heap<K, V>, p: Ptr, spine: seq<Ptr>, mem': Heap<K, V>)
    requires Chain(mem, p, spine) && Within(mem, spine) && Within(mem', spine)
    requires forall i | 0 <= i < |spine| :: mem'[spine[i]].next == mem[spine[i]].next
    ensures Chain(mem', p, spine)
    decreases |spine|
  {
    if spine != [] {
      ChainFrame(mem, mem[p].next, spine[1..], mem');
    }
  }

  /** Leaving out the entry at index i, by redirecting its predecessor if it has one. */
  lemma {:induction false} ChainUnlink<K, V>(mem: Heap<K, V>, p: Ptr, spine: seq<Ptr>, i: nat, mem': Heap<K, V>)
    requires Chain(mem, p, spine) && 0 < i < |spine|
    requires Within(mem, spine) && forall j, k | 0 <= j < k < |spine| :: spine[j] != spine[k]
    requires forall j | 0 <= j < |spine| && j != i - 1 && j != i ::
               spine[j] in mem' && mem'[spine[j]].next == mem[spine[j]].next
    requires spine[i - 1] in mem' && mem'[spine[i - 1]].next == mem[spine[i]].next
    ensures Chain(mem', p, spine[..i] + spine[i + 1..])
    decreases |spine|
  {
    var rest := spine[1..];
    var out := spine[..i] + spine[i + 1..];
    if i == 1 {
      assert out[1..] == rest[1..];
      ChainIn(mem, p, spine, spine[1]);
      ChainFrame(mem, mem[spine[1]].next, rest[1..], mem');
    } else {
      assert out[1..] == rest[..i - 1] + rest[i..];
      ChainUnlink(mem, mem[p].next, rest, i - 1, mem');
    }
  }

  /** The end of a chain is a chain. */
  lemma {:induction false} ChainSuffix<K, V>(mem: Heap<K, V>, p: Ptr, spine: seq<Ptr>, i: nat)
    requires Chain(mem, p, spine) && i < |spine|
    ensures spine[i] in mem && Chain(mem, spine[i], spine[i..]) && Chain(mem, mem[spine[i]].next, spine[i + 1..])
    decreases i
  {
    if i == 0 {
      assert spine[0..] == spine;
    } else {
      ChainSuffix(mem, mem[p].next, spine[1..], i - 1);
      assert spine[1..][i - 1..] == spine[i..] && spine[1..][i..] == spine[i + 1..];
    }
  }

  // ----- Buckets

  /** C's & on unsigned integers. */
  function BitAnd(a: nat, b: nat): (c: nat)
    ensures c <= b
  {
    if a == 0 || b == 0 then 0
    else 2 * BitAnd(a / 2, b / 2) + (if a % 2 == 1 && b % 2 == 1 then 1 else 0)
  }

  /** hash & sizemask, where sizemask is one less than the size. */
  function Bucket<K>(hash: K -> nat, key: K, size: nat): (b: nat)
    requires size > 0
    ensures b < size
  {
    BitAnd(hash(key), size - 1)
  }

  /** No two entries of a chain have the same key. */
  ghost predicate KeysDiffer<K, V>(mem: Heap<K, V>, spine: seq<Ptr>)
    requires Within(mem, spine)
  {
    forall i, j | 0 <= i < j < |spine| :: mem[spine[i]].key != mem[spine[j]].key
  }

  /** Bucket b: a chain of entries that hash to b, with different keys. */
  ghost predicate BucketOk<K, V>(mem: Heap<K, V>, hash: K -> nat, size: nat, b: nat, head: Ptr, spine: seq<Ptr>)
    requires size > 0
  {
    && Chain(mem, head, spine)
    && Within(mem, spine)
    && (forall i | 0 <= i < |spine| :: Bucket(hash, mem[spine[i]].key, size) == b)
    && KeysDiffer(mem, spine)
  }

  /** p is in the chain its key hashes to. */
  ghost predicate Placed<K, V>(mem: Heap<K, V>, hash: K -> nat, chains: seq<seq<Ptr>>, p: Ptr) {
    p in mem && |chains| > 0 && p in chains[Bucket(hash, mem[p].key, |chains|)]
  }

  /** Every bucket is in order and every entry is in its bucket. */
  ghost predicate TableOk<K, V>(mem: Heap<K, V>, hash: K -> nat, table: seq<Ptr>, chains: seq<seq<Ptr>>) {
    && |table| == |chains|
    && (forall b {:trigger BucketOk(mem, hash, |table|, b, table[b], chains[b])} | 0 <= b < |table| ::
          BucketOk(mem, hash, |table|, b, table[b], chains[b]))
    && (forall p {:trigger Placed(mem, hash, chains, p)} | p in mem :: Placed(mem, hash, chains, p))
  }

  ghost predicate Stored<K, V>(mem: Heap<K, V>, m: map<K, V>, p: Ptr) {
    p in mem && mem[p].key in m && m[mem[p].key] == mem[p].val
  }

  ghost predicate HasKey<K, V>(mem: Heap<K, V>, k: K) {
    exists p :: p in mem && mem[p].key == k
  }

  /** The finite map a heap of entries stands for. */
  ghost predicate Represents<K, V>(mem: Heap<K, V>, m: map<K, V>) {
    && (forall p {:trigger Stored(mem, m, p)} | p in mem :: Stored(mem, m, p))
    && (forall k {:trigger HasKey(mem, k)} | k in m :: HasKey(mem, k))
  }

  /** Whether a heap, a bucket array and its chains are a table that stands for m. */
  ghost predicate Audit<K, V>(mem: Heap<K, V>, hash: K -> nat, table: seq<Ptr>, chains: seq<seq<Ptr>>, m: map<K, V>) {
    TableOk(mem, hash, table, chains) && Represents(mem, m)
  }

  /** Two entries with the same key are the same entry. */
  lemma SameKeySameEntry<K, V>(mem: Heap<K, V>, hash: K -> nat, table: seq<Ptr>, chains: seq<seq<Ptr>>, p: Ptr, q: Ptr)
    requires TableOk(mem, hash, table, chains)
    requires p in mem && q in mem && mem[p].key == mem[q].key
    ensures p == q
  {
    var b := Bucket(hash, mem[p].key, |table|);
    assert Placed(mem, hash, chains, p) && Placed(mem, hash, chains, q);
    assert BucketOk(mem, hash, |table|, b, table[b], chains[b]);
    var i :| 0 <= i < |chains[b]| && chains[b][i] == p;
    var j :| 0 <= j < |chains[b]| && chains[b][j] == q;
  }

  /** These entries keep their keys and links. */
  ghost predicate Untouched<K, V>(mem: Heap<K, V>, mem': Heap<K, V>, spine: seq<Ptr>) {
    Within(mem, spine) && Within(mem', spine) &&
    forall i | 0 <= i < |spine| ::
      mem'[spine[i]].next == mem[spine[i]].next && mem'[spine[i]].key == mem[spine[i]].key
  }

  lemma BucketFrame<K, V>(mem: Heap<K, V>, hash: K -> nat, size: nat, b: nat, head: Ptr, spine: seq<Ptr>, mem': Heap<K, V>)
    requires size > 0 && BucketOk(mem, hash, size, b, head, spine) && Untouched(mem, mem', spine)
    ensures BucketOk(mem', hash, size, b, head, spine)
  {
    ChainFrame(mem, head, spine, mem');
  }

  lemma Distinct<K, V>(mem: Heap<K, V>, spine: seq<Ptr>)
    requires Within(mem, spine) && KeysDiffer(mem, spine)
    ensures forall i, j | 0 <= i < j < |spine| :: spine[i] != spine[j]
  {
    forall i, j | 0 <= i < j < |spine|
      ensures spine[i] != spine[j]
    {
      assert mem[spine[i]].key != mem[spine[j]].key;
    }
  }

  /** The map of a heap has as many keys as the heap has entries. */
  lemma {:induction false} RepresentsSize<K, V>(mem: Heap<K, V>, m: map<K, V>)
    requires Represents(mem, m)
    requires forall p, q | p in mem && q in mem && mem[p].key == mem[q].key :: p == q
    ensures |m| == |mem|
    decreases |mem|
  {
    if |mem.Keys| == 0 {
      assert forall k | k in m :: !HasKey(mem, k);
      assert m.Keys == {};
      assert |m| == |m.Keys| && |mem| == |mem.Keys|;
    } else {
      var p := AnyOf(mem.Keys);
      var k := mem[p].key;
      assert Stored(mem, m, p);
      var mem', m' := mem - {p}, m - {k};
      forall q | q in mem'
        ensures Stored(mem', m', q)
      {
        assert Stored(mem, m, q);
      }
      assert mem'.Keys == mem.Keys - {p} && |mem'| == |mem'.Keys| && |mem| == |mem.Keys|;
      assert m'.Keys == m.Keys - {k} && |m'| == |m'.Keys| && |m| == |m.Keys|;
      forall k' | k' in m'
        ensures HasKey(mem', k')
      {
        assert HasKey(mem, k');
        var q :| q in mem && mem[q].key == k';
        assert q in mem';
      }
      RepresentsSize(mem', m');
    }
  }

  // ----- Adding and removing an entry

  /** Putting an entry in front of a bucket. */
  lemma AddToBucket<K, V>(mem: Heap<K, V>, hash: K -> nat, size: nat, b: nat, head: Ptr, spine: seq<Ptr>, p: Ptr, mem': Heap<K, V>)
    requires size > 0 && BucketOk(mem, hash, size, b, head, spine) && Untouched(mem, mem', spine)
    requires p != NULL && p in mem' && mem'[p].next == head && Bucket(hash, mem'[p].key, size) == b
    requires forall i | 0 <= i < |spine| :: mem[spine[i]].key != mem'[p].key
    ensures BucketOk(mem', hash, size, b, p, [p] + spine)
  {
    var spine' := [p] + spine;
    BucketFrame(mem, hash, size, b, head, spine, mem');
    assert spine'[1..] == spine;
    assert Within(mem', spine');
    forall i, j | 0 <= i < j < |spine'|
      ensures mem'[spine'[i]].key != mem'[spine'[j]].key
    {
      assert spine'[j] == spine[j - 1];
      if i > 0 {
        assert spine'[i] == spine[i - 1];
      }
    }
  }

  lemma AddEntry<K, V>(mem: Heap<K, V>, hash: K -> nat, table: seq<Ptr>, chains: seq<seq<Ptr>>, p: Ptr, key: K, val: V)
    requires TableOk(mem, hash, table, chains) && |table| > 0
    requires p != NULL && p !in mem && forall q | q in mem :: mem[q].key != key
    ensures var b := Bucket(hash, key, |table|);
            TableOk(mem[p := Entry(key, val, table[b])], hash, table[b := p], chains[b := [p] + chains[b]])
  {
    var b := Bucket(hash, key, |table|);
    var mem' := mem[p := Entry(key, val, table[b])];
    var table', chains' := table[b := p], chains[b := [p] + chains[b]];
    forall c | 0 <= c < |table|
      ensures BucketOk(mem', hash, |table|, c, table'[c], chains'[c])
    {
      assert BucketOk(mem, hash, |table|, c, table[c], chains[c]);
      assert Untouched(mem, mem', chains[c]);
      if c == b {
        forall i | 0 <= i < |chains[b]|
          ensures mem[chains[b][i]].key != key
        {
          var q := chains[b][i];
          assert q in mem;
        }
        AddToBucket(mem, hash, |table|, b, table[b], chains[b], p, mem');
      } else {
        BucketFrame(mem, hash, |table|, c, table[c], chains[c], mem');
      }
    }
    forall q | q in mem'
      ensures Placed(mem', hash, chains', q)
    {
      if q == p {
        assert chains'[b][0] == p;
      } else {
        assert Placed(mem, hash, chains, q);
      }
    }
  }

  lemma AddRepresents<K, V>(mem: Heap<K, V>, m: map<K, V>, p: Ptr, e: Entry<K, V>)
    requires Represents(mem, m) && p !in mem && e.key !in m
    ensures Represents(mem[p := e], m[e.key := e.val])
  {
    var mem', m' := mem[p := e], m[e.key := e.val];
    forall q | q in mem'
      ensures Stored(mem', m', q)
    {
      if q != p {
        assert Stored(mem, m, q);
      }
    }
    forall k | k in m'
      ensures HasKey(mem', k)
    {
      if k == e.key {
        assert p in mem' && mem'[p].key == k;
      } else {
        assert HasKey(mem, k);
        var q :| q in mem && mem[q].key == k;
        assert q in mem' && mem'[q].key == k;
      }
    }
  }

  /** The heap after the i-th entry of a chain is unlinked and freed. */
  function Unlinked<K, V>(mem: Heap<K, V>, spine: seq<Ptr>, i: nat): (mem': Heap<K, V>)
    requires i < |spine| && spine[i] in mem && (i > 0 ==> spine[i - 1] in mem)
  {
    (if i == 0 then mem else mem[spine[i - 1] := mem[spine[i - 1]].(next := mem[spine[i]].next)]) - {spine[i]}
  }

  /** Position of the j-th remaining entry in the chain before. */
  function Skip(i: nat, j: nat): (k: nat) {
    if j < i then j else j + 1
  }

  lemma Remaining(spine: seq<Ptr>, i: nat)
    requires i < |spine|
    ensures var out := spine[..i] + spine[i + 1..];
            |out| == |spine| - 1 && forall j | 0 <= j < |out| :: out[j] == spine[Skip(i, j)]
  {
  }

  lemma RemainingKeys<K, V>(mem: Heap<K, V>, mem': Heap<K, V>, spine: seq<Ptr>, i: nat)
    requires Within(mem, spine) && KeysDiffer(mem, spine) && i < |spine|
    requires forall j | 0 <= j < |spine| && j != i :: spine[j] in mem' && mem'[spine[j]].key == mem[spine[j]].key
    ensures Within(mem', spine[..i] + spine[i + 1..]) && KeysDiffer(mem', spine[..i] + spine[i + 1..])
  {
    var out := spine[..i] + spine[i + 1..];
    Remaining(spine, i);
    forall j | 0 <= j < |out|
      ensures out[j] in mem' && mem'[out[j]].key == mem[spine[Skip(i, j)]].key
    {
      assert out[j] == spine[Skip(i, j)];
    }
    forall j, k | 0 <= j < k < |out|
      ensures mem'[out[j]].key != mem'[out[k]].key
    {
      assert mem[spine[Skip(i, j)]].key != mem[spine[Skip(i, k)]].key;
    }
  }

  lemma UnlinkBucket<K, V>(mem: Heap<K, V>, hash: K -> nat, size: nat, b: nat, head: Ptr, spine: seq<Ptr>, i: nat)
    requires size > 0 && BucketOk(mem, hash, size, b, head, spine) && i < |spine|
    ensures BucketOk(Unlinked(mem, spine, i), hash, size, b, if i == 0 then mem[spine[0]].next else head, spine[..i] + spine[i + 1..])
  {
    var mem', out := Unlinked(mem, spine, i), spine[..i] + spine[i + 1..];
    Distinct(mem, spine);
    RemainingKeys(mem, mem', spine, i);
    Remaining(spine, i);
    forall j | 0 <= j < |out|
      ensures Bucket(hash, mem'[out[j]].key, size) == b
    {
      assert out[j] == spine[Skip(i, j)];
    }
    if i == 0 {
      assert out == spine[1..];
      ChainFrame(mem, mem[spine[0]].next, out, mem');
    } else {
      ChainUnlink(mem, head, spine, i, mem');
    }
  }

  lemma RemoveEntry<K, V>(mem: Heap<K, V>, hash: K -> nat, table: seq<Ptr>, chains: seq<seq<Ptr>>, b: nat, i: nat)
    requires TableOk(mem, hash, table, chains) && b < |table| && i < |chains[b]|
    ensures BucketOk(mem, hash, |table|, b, table[b], chains[b])
    ensures var spine := chains[b];
            TableOk(Unlinked(mem, spine, i), hash,
                    if i == 0 then table[b := mem[spine[0]].next] else table,
                    chains[b := spine[..i] + spine[i + 1..]])
  {
    var spine := chains[b];
    assert BucketOk(mem, hash, |table|, b, table[b], spine);
    var mem' := Unlinked(mem, spine, i);
    var table' := if i == 0 then table[b := mem[spine[0]].next] else table;
    var out := spine[..i] + spine[i + 1..];
    var chains' := chains[b := out];
    UnlinkBucket(mem, hash, |table|, b, table[b], spine, i);
    forall c | 0 <= c < |table|
      ensures BucketOk(mem', hash, |table|, c, table'[c], chains'[c])
    {
      if c != b {
        assert BucketOk(mem, hash, |table|, c, table[c], chains[c]);
        assert Untouched(mem, mem', chains[c]);
        BucketFrame(mem, hash, |table|, c, table[c], chains[c], mem');
      }
    }
    forall p | p in mem'
      ensures Placed(mem', hash, chains', p)
    {
      assert p in mem && mem'[p].key == mem[p].key && Placed(mem, hash, chains, p);
      if Bucket(hash, mem[p].key, |table|) == b {
        var j :| 0 <= j < |spine| && spine[j] == p;
        assert out[if j < i then j else j - 1] == p;
      }
    }
  }

  /** Same entries up to their links. */
  ghost predicate SameContents<K, V>(mem: Heap<K, V>, mem': Heap<K, V>) {
    mem'.Keys == mem.Keys && forall p | p in mem :: mem'[p].key == mem[p].key && mem'[p].val == mem[p].val
  }

  lemma SameRepresents<K, V>(mem: Heap<K, V>, mem': Heap<K, V>, m: map<K, V>)
    requires SameContents(mem, mem') && Represents(mem, m)
    ensures Represents(mem', m)
  {
    forall q | q in mem'
      ensures Stored(mem', m, q)
    {
      assert Stored(mem, m, q);
    }
    forall k | k in m
      ensures HasKey(mem', k)
    {
      assert HasKey(mem, k);
      var q :| q in mem && mem[q].key == k;
      assert q in mem' && mem'[q].key == k;
    }
  }

  lemma RemoveRepresents<K, V>(mem: Heap<K, V>, mem': Heap<K, V>, m: map<K, V>, p: Ptr)
    requires Represents(mem, m) && p in mem && mem'.Keys == mem.Keys - {p}
    requires forall q | q in mem' :: mem'[q].key == mem[q].key && mem'[q].val == mem[q].val
    requires forall q | q in mem && mem[q].key == mem[p].key :: q == p
    ensures Represents(mem', m - {mem[p].key})
  {
    var m' := m - {mem[p].key};
    forall q | q in mem'
      ensures Stored(mem', m', q)
    {
      assert Stored(mem, m, q);
    }
    forall k | k in m'
      ensures HasKey(mem', k)
    {
      assert HasKey(mem, k);
      var q :| q in mem && mem[q].key == k;
      assert q in mem' && mem'[q].key == k;
    }
  }

  lemma ReplaceEntry<K, V>(mem: Heap<K, V>, hash: K -> nat, table: seq<Ptr>, chains: seq<seq<Ptr>>, m: map<K, V>, p: Ptr, val: V)
    requires TableOk(mem, hash, table, chains) && Represents(mem, m) && p in mem
    ensures TableOk(mem[p := mem[p].(val := val)], hash, table, chains)
    ensures Represents(mem[p := mem[p].(val := val)], m[mem[p].key := val])
  {
    var mem', m' := mem[p := mem[p].(val := val)], m[mem[p].key := val];
    forall c | 0 <= c < |table|
      ensures BucketOk(mem', hash, |table|, c, table[c], chains[c])
    {
      assert BucketOk(mem, hash, |table|, c, table[c], chains[c]);
      assert Untouched(mem, mem', chains[c]);
      BucketFrame(mem, hash, |table|, c, table[c], chains[c], mem');
    }
    forall q | q in mem'
      ensures Stored(mem', m', q) && Placed(mem', hash, chains, q)
    {
      assert Stored(mem, m, q) && Placed(mem, hash, chains, q);
      if mem[q].key == mem[p].key {
        SameKeySameEntry(mem, hash, table, chains, p, q);
      }
    }
    assert Stored(mem, m, p);
    forall k | k in m'
      ensures HasKey(mem', k)
    {
      assert HasKey(mem, k);
      var q :| q in mem && mem[q].key == k;
      assert q in mem' && mem'[q].key == k;
    }
  }

  // ----- Looking a key up

  /** None of the first i entries has this key. */
  ghost predicate Passed<K, V>(mem: Heap<K, V>, spine: seq<Ptr>, i: nat, key: K) {
    i <= |spine| && forall j | 0 <= j < i :: spine[j] in mem && mem[spine[j]].key != key
  }

  lemma WalkStart<K, V>(mem: Heap<K, V>, hash: K -> nat, table: seq<Ptr>, chains: seq<seq<Ptr>>, m: map<K, V>, b: nat)
    requires Audit(mem, hash, table, chains, m) && b < |table|
    ensures |chains| == |table| && Chain(mem, table[b], chains[b])
  {
    assert BucketOk(mem, hash, |table|, b, table[b], chains[b]);
  }

  /** One step along a chain. */
  lemma WalkStep<K, V>(mem: Heap<K, V>, spine: seq<Ptr>, i: nat, p: Ptr)
    requires i <= |spine| && Chain(mem, p, spine[i..]) && p != NULL
    ensures i < |spine| && p == spine[i] && p in mem && Chain(mem, mem[p].next, spine[i + 1..])
  {
    assert spine[i..][1..] == spine[i + 1..];
  }

  /** A key whose chain was walked to the end in vain is not in the map. */
  lemma NotFound<K, V>(mem: Heap<K, V>, hash: K -> nat, table: seq<Ptr>, chains: seq<seq<Ptr>>, m: map<K, V>, key: K)
    requires Audit(mem, hash, table, chains, m) && |table| > 0
    requires var spine := chains[Bucket(hash, key, |table|)]; Passed(mem, spine, |spine|, key)
    ensures key !in m && forall q | q in mem :: mem[q].key != key
  {
    forall q | q in mem
      ensures mem[q].key != key
    {
      assert Placed(mem, hash, chains, q);
    }
    assert key in m ==> HasKey(mem, key);
  }

  lemma Found<K, V>(mem: Heap<K, V>, hash: K -> nat, table: seq<Ptr>, chains: seq<seq<Ptr>>, m: map<K, V>, p: Ptr)
    requires Audit(mem, hash, table, chains, m) && p in mem
    ensures mem[p].key in m && m[mem[p].key] == mem[p].val
  {
    assert Stored(mem, m, p);
  }

  // ----- The map operations, with the table and what it stands for together

  lemma Added<K, V>(mem: Heap<K, V>, hash: K -> nat, table: seq<Ptr>, chains: seq<seq<Ptr>>, m: map<K, V>, p: Ptr, key: K, val: V)
    requires Audit(mem, hash, table, chains, m) && |table| > 0 && key !in m
    requires p != NULL && p !in mem
    ensures |chains| == |table|
    ensures var b := Bucket(hash, key, |table|);
            Audit(mem[p := Entry(key, val, table[b])], hash, table[b := p], chains[b := [p] + chains[b]], m[key := val])
  {
    forall q | q in mem
      ensures mem[q].key != key
    {
      Found(mem, hash, table, chains, m, q);
    }
    AddEntry(mem, hash, table, chains, p, key, val);
    AddRepresents(mem, m, p, Entry(key, val, table[Bucket(hash, key, |table|)]));
  }

  lemma Replaced<K, V>(mem: Heap<K, V>, hash: K -> nat, table: seq<Ptr>, chains: seq<seq<Ptr>>, m: map<K, V>, p: Ptr, val: V)
    requires Audit(mem, hash, table, chains, m) && p in mem
    ensures Audit(mem[p := mem[p].(val := val)], hash, table, chains, m[mem[p].key := val])
  {
    ReplaceEntry(mem, hash, table, chains, m, p, val);
  }

  lemma Removed<K, V>(mem: Heap<K, V>, hash: K -> nat, table: seq<Ptr>, chains: seq<seq<Ptr>>, m: map<K, V>, b: nat, i: nat)
    requires Audit(mem, hash, table, chains, m) && |table| == |chains| && b < |table| && i < |chains[b]|
    ensures var spine := chains[b];
            && spine[i] in mem && (i > 0 ==> spine[i - 1] in mem && spine[i - 1] != spine[i])
            && Audit(Unlinked(mem, spine, i), hash,
                     if i == 0 then table[b := mem[spine[0]].next] else table,
                     chains[b := spine[..i] + spine[i + 1..]],
                     m - {mem[spine[i]].key})
  {
    RemoveEntry(mem, hash, table, chains, b, i);
    Distinct(mem, chains[b]);
    var p := chains[b][i];
    forall q | q in mem && mem[q].key == mem[p].key
      ensures q == p
    {
      SameKeySameEntry(mem, hash, table, chains, p, q);
    }
    RemoveRepresents(mem, Unlinked(mem, chains[b], i), m, p);
  }
}
