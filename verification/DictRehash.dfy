/** Moving every entry from one table to another by relinking, entry by entry. */
module DictRehash {
  import opened DictHeap

  ghost predicate Disjoint(spine: seq<Ptr>, s: set<Ptr>) {
    forall i | 0 <= i < |spine| :: spine[i] !in s
  }

  ghost predicate Inside(spine: seq<Ptr>, s: set<Ptr>) {
    forall i | 0 <= i < |spine| :: spine[i] in s
  }

  ghost predicate OtherKey<K, V>(mem: Heap<K, V>, p: Ptr, q: Ptr) {
    p in mem && q in mem && (mem[p].key == mem[q].key ==> p == q)
  }

  ghost predicate OneEntryPerKey<K, V>(mem: Heap<K, V>) {
    forall p, q {:trigger OtherKey(mem, p, q)} | p in mem && q in mem :: OtherKey(mem, p, q)
  }

  /** What is left of the old buckets holds the entries not moved yet. */
  ghost predicate OldSide<K, V>(mem: Heap<K, V>, hash: K -> nat, heads: seq<Ptr>, left: seq<seq<Ptr>>, moved: set<Ptr>) {
    && |heads| == |left|
    && (forall b {:trigger BucketOk(mem, hash, |heads|, b, heads[b], left[b])} | 0 <= b < |heads| ::
          BucketOk(mem, hash, |heads|, b, heads[b], left[b]) && Disjoint(left[b], moved))
    && (forall p {:trigger Placed(mem, hash, left, p)} | p in mem && p !in moved :: Placed(mem, hash, left, p))
  }

  /** The new buckets hold the moved entries. */
  ghost predicate NewSide<K, V>(mem: Heap<K, V>, hash: K -> nat, table: seq<Ptr>, chains: seq<seq<Ptr>>, moved: set<Ptr>) {
    && |table| == |chains| > 0 && moved <= mem.Keys
    && (forall c {:trigger BucketOk(mem, hash, |table|, c, table[c], chains[c])} | 0 <= c < |table| ::
          BucketOk(mem, hash, |table|, c, table[c], chains[c]) && Inside(chains[c], moved))
    && (forall p {:trigger Placed(mem, hash, chains, p)} | p in moved :: Placed(mem, hash, chains, p))
  }

  /** The heap after p is relinked to the front of a new bucket. */
  function Relinked<K, V>(mem: Heap<K, V>, p: Ptr, head: Ptr): (mem': Heap<K, V>)
    requires p in mem
  {
    mem[p := mem[p].(next := head)]
  }

  /** Bookkeeping of a move: the rest of the old buckets, the new buckets, the moved entries. */
  datatype Move = Move(heads: seq<Ptr>, left: seq<seq<Ptr>>, chains: seq<seq<Ptr>>, moved: set<Ptr>)

  /** Whether a move is going well. */
  ghost predicate Progress<K, V>(mem: Heap<K, V>, hash: K -> nat, table: seq<Ptr>, g: Move) {
    OneEntryPerKey(mem) && OldSide(mem, hash, g.heads, g.left, g.moved) && NewSide(mem, hash, table, g.chains, g.moved)
  }

  /** One turn of the inner loop of dictExpand. */
  ghost function Moved(g: Move, b: nat, next: Ptr, h: nat): (g': Move)
    requires b < |g.heads| == |g.left| && g.left[b] != [] && h < |g.chains|
  {
    var p := g.left[b][0];
    Move(g.heads[b := next], g.left[b := g.left[b][1..]], g.chains[h := [p] + g.chains[h]], g.moved + {p})
  }

  lemma MoveOne<K, V>(mem: Heap<K, V>, hash: K -> nat, table: seq<Ptr>, g: Move, b: nat)
    requires Progress(mem, hash, table, g) && b < |g.heads| && g.heads[b] != NULL
    ensures |g.heads| == |g.left| && g.left[b] != [] && g.heads[b] == g.left[b][0] && g.heads[b] in mem && g.heads[b] !in g.moved
    ensures |table| == |g.chains| > 0
    ensures var p := g.heads[b];
            var h := Bucket(hash, mem[p].key, |table|);
            Progress(Relinked(mem, p, table[h]), hash, table[h := p], Moved(g, b, mem[p].next, h))
  {
    assert BucketOk(mem, hash, |g.heads|, b, g.heads[b], g.left[b]);
    var p := g.heads[b];
    var h := Bucket(hash, mem[p].key, |table|);
    OldLosesFront(mem, hash, g.heads, g.left, g.moved, b, table[h]);
    NewGainsFront(mem, hash, table, g.chains, g.moved, p);
    var mem' := Relinked(mem, p, table[h]);
    forall q, q' | q in mem' && q' in mem'
      ensures OtherKey(mem', q, q')
    {
      assert OtherKey(mem, q, q');
    }
  }

  lemma BucketEmptied<K, V>(mem: Heap<K, V>, hash: K -> nat, table: seq<Ptr>, g: Move, b: nat)
    requires Progress(mem, hash, table, g) && b < |g.heads| && g.heads[b] == NULL
    ensures |g.left| == |g.heads| && g.left[b] == []
  {
    assert BucketOk(mem, hash, |g.heads|, b, g.heads[b], g.left[b]);
  }

  lemma OldLosesFront<K, V>(mem: Heap<K, V>, hash: K -> nat, heads: seq<Ptr>, left: seq<seq<Ptr>>, moved: set<Ptr>, b: nat, head: Ptr)
    requires OldSide(mem, hash, heads, left, moved) && b < |heads| && left[b] != []
    ensures var p := heads[b];
            && p in mem && p == left[b][0] && p !in moved
            && OldSide(Relinked(mem, p, head), hash, heads[b := mem[p].next], left[b := left[b][1..]], moved + {p})
  {
    assert BucketOk(mem, hash, |heads|, b, heads[b], left[b]) && Disjoint(left[b], moved);
    var p, spine := heads[b], left[b];
    var mem', heads', left' := Relinked(mem, p, head), heads[b := mem[p].next], left[b := spine[1..]];
    Distinct(mem, spine);
    forall c | 0 <= c < |heads|
      ensures BucketOk(mem', hash, |heads|, c, heads'[c], left'[c]) && Disjoint(left'[c], moved + {p})
    {
      assert BucketOk(mem, hash, |heads|, c, heads[c], left[c]) && Disjoint(left[c], moved);
      if c == b {
        assert forall i | 0 <= i < |spine| - 1 :: spine[1..][i] == spine[i + 1];
        ChainFrame(mem, mem[p].next, spine[1..], mem');
      } else {
        assert Untouched(mem, mem', left[c]);
        BucketFrame(mem, hash, |heads|, c, heads[c], left[c], mem');
      }
    }
    forall q | q in mem' && q !in moved + {p}
      ensures Placed(mem', hash, left', q)
    {
      assert q in mem && q !in moved && mem'[q].key == mem[q].key && Placed(mem, hash, left, q);
      if Bucket(hash, mem[q].key, |heads|) == b {
        var i :| 0 <= i < |spine| && spine[i] == q;
        assert spine[1..][i - 1] == q;
      }
    }
  }

  lemma NewGainsFront<K, V>(mem: Heap<K, V>, hash: K -> nat, table: seq<Ptr>, chains: seq<seq<Ptr>>, moved: set<Ptr>, p: Ptr)
    requires NewSide(mem, hash, table, chains, moved) && OneEntryPerKey(mem)
    requires p in mem && p !in moved && p != NULL
    ensures var h := Bucket(hash, mem[p].key, |table|);
            NewSide(Relinked(mem, p, table[h]), hash, table[h := p], chains[h := [p] + chains[h]], moved + {p})
  {
    var h := Bucket(hash, mem[p].key, |table|);
    var mem' := Relinked(mem, p, table[h]);
    var table', chains' := table[h := p], chains[h := [p] + chains[h]];
    forall c | 0 <= c < |table|
      ensures BucketOk(mem', hash, |table|, c, table'[c], chains'[c]) && Inside(chains'[c], moved + {p})
    {
      assert BucketOk(mem, hash, |table|, c, table[c], chains[c]) && Inside(chains[c], moved);
      assert Untouched(mem, mem', chains[c]);
      if c == h {
        forall i | 0 <= i < |chains[h]|
          ensures mem[chains[h][i]].key != mem[p].key
        {
          var q := chains[h][i];
          assert q in mem && q in moved && OtherKey(mem, p, q);
        }
        AddToBucket(mem, hash, |table|, h, table[h], chains[h], p, mem');
      } else {
        BucketFrame(mem, hash, |table|, c, table[c], chains[c], mem');
      }
    }
    forall q | q in moved + {p}
      ensures Placed(mem', hash, chains', q)
    {
      if q == p {
        assert chains'[h][0] == p;
      } else {
        assert mem'[q].key == mem[q].key && Placed(mem, hash, chains, q);
      }
    }
  }

  /** Once everything is moved the new buckets are a table. */
  lemma AllMoved<K, V>(mem: Heap<K, V>, hash: K -> nat, table: seq<Ptr>, chains: seq<seq<Ptr>>, moved: set<Ptr>)
    requires NewSide(mem, hash, table, chains, moved) && moved == mem.Keys
    ensures TableOk(mem, hash, table, chains)
  {
    forall c | 0 <= c < |table|
      ensures BucketOk(mem, hash, |table|, c, table[c], chains[c])
    {
      assert BucketOk(mem, hash, |table|, c, table[c], chains[c]) && Inside(chains[c], moved);
    }
  }

  /** Nothing is left once every old bucket is empty. */
  lemma NothingLeft<K, V>(mem: Heap<K, V>, hash: K -> nat, heads: seq<Ptr>, left: seq<seq<Ptr>>, moved: set<Ptr>)
    requires OldSide(mem, hash, heads, left, moved) && moved <= mem.Keys
    requires forall b | 0 <= b < |left| :: left[b] == []
    ensures moved == mem.Keys
  {
    forall p | p in mem
      ensures p in moved
    {
      assert p in moved || Placed(mem, hash, left, p);
    }
  }

  /** A table of empty buckets, as calloc makes it. */
  function Nulls(size: nat): (table: seq<Ptr>)
    ensures |table| == size && forall b | 0 <= b < size :: table[b] == NULL
  {
    seq(size, _ => NULL)
  }

  function Empties(size: nat): (chains: seq<seq<Ptr>>)
    ensures |chains| == size && forall b | 0 <= b < size :: chains[b] == []
  {
    seq(size, _ => [])
  }

  lemma Started<K, V>(mem: Heap<K, V>, hash: K -> nat, table: seq<Ptr>, chains: seq<seq<Ptr>>, m: map<K, V>, size: nat)
    requires Audit(mem, hash, table, chains, m) && size > 0
    ensures Progress(mem, hash, Nulls(size), Move(table, chains, Empties(size), {}))
    ensures |table| == |chains|
  {
    forall p, q | p in mem && q in mem
      ensures OtherKey(mem, p, q)
    {
      if mem[p].key == mem[q].key {
        SameKeySameEntry(mem, hash, table, chains, p, q);
      }
    }
    forall b | 0 <= b < |table|
      ensures BucketOk(mem, hash, |table|, b, table[b], chains[b]) && Disjoint(chains[b], {})
    {
      assert BucketOk(mem, hash, |table|, b, table[b], chains[b]);
    }
    assert forall p | p in mem :: Placed(mem, hash, chains, p);
    assert OldSide(mem, hash, table, chains, {});
    forall c | 0 <= c < size
      ensures BucketOk(mem, hash, size, c, Nulls(size)[c], Empties(size)[c]) && Inside(Empties(size)[c], {})
    {
    }
  }

  lemma NoDifference<T>(a: set<T>, b: set<T>)
    requires b <= a && a - b == {}
    ensures a == b
  {
    assert forall x | x in a :: x in b || x in a - b;
  }

  /** The move is over when no entry remains, or when every old bucket was emptied. */
  lemma Finished<K, V>(mem0: Heap<K, V>, mem: Heap<K, V>, hash: K -> nat, table: seq<Ptr>, g: Move, m: map<K, V>)
    requires Progress(mem, hash, table, g) && SameContents(mem0, mem) && Represents(mem0, m)
    requires mem.Keys - g.moved == {} || forall b | 0 <= b < |g.left| :: g.left[b] == []
    ensures mem.Keys - g.moved == {} && Audit(mem, hash, table, g.chains, m)
  {
    if mem.Keys - g.moved == {} {
      NoDifference(mem.Keys, g.moved);
    } else {
      NothingLeft(mem, hash, g.heads, g.left, g.moved);
    }
    AllMoved(mem, hash, table, g.chains, g.moved);
    SameRepresents(mem0, mem, m);
  }
}
