/** Retrieval over the inverted index: intersect, score, filter, sort and cut. */
module Retrieval {
  import opened Collections
  import opened PostingList
  import opened Indexing

  /** A request keyword found in a document, with its weight there. */
  datatype Hit = Hit(token: Token, weight: int)

  type HitMap = map<nat, seq<Hit>>

  datatype Entry = Entry(storyId: int, score: real)

  datatype Code = Ok | KeywordNotFound

  datatype Response = Response(code: Code, numResults: int, results: seq<Entry>)

  // ----- What is hit

  function HitsAt(hits: HitMap, d: nat): (h: seq<Hit>) {
    if d in hits then hits[d] else []
  }

  /** The hits on document d when the postings of one list are read in order. */
  ghost function ListHits(nodes: seq<Posting>, t: Token, d: nat): (h: seq<Hit>) {
    if nodes == [] then []
    else
      var last := nodes[|nodes| - 1];
      var before := ListHits(nodes[..|nodes| - 1], t, d);
      if last.id == d then before + [Hit(t, last.weight)] else before
  }

  /** The hits on document d for all request keywords; one that is asked for twice counts twice. */
  ghost function HitsFor(index: Index, request: seq<Token>, d: nat): (h: seq<Hit>) {
    if request == [] then []
    else
      var t := request[|request| - 1];
      HitsFor(index, request[..|request| - 1], d) + ListHits(Kept(ListOf(index, t)), t, d)
  }

  function WithHit(hits: HitMap, d: nat, hit: Hit): (hits': HitMap) {
    hits[d := HitsAt(hits, d) + [hit]]
  }

  /** The map after the postings of one list. */
  ghost function Collected(hits: HitMap, nodes: seq<Posting>, t: Token): (hits': HitMap) {
    if nodes == [] then hits
    else
      var last := nodes[|nodes| - 1];
      WithHit(Collected(hits, nodes[..|nodes| - 1], t), last.id, Hit(t, last.weight))
  }

  ghost predicate NoEmpty(hits: HitMap) {
    forall d | d in hits :: |hits[d]| > 0
  }

  lemma {:induction false} CollectedHits(hits: HitMap, nodes: seq<Posting>, t: Token, d: nat)
    ensures HitsAt(Collected(hits, nodes, t), d) == HitsAt(hits, d) + ListHits(nodes, t, d)
  {
    if nodes != [] {
      CollectedHits(hits, nodes[..|nodes| - 1], t, d);
    }
  }

  lemma {:induction false} CollectedNoEmpty(hits: HitMap, nodes: seq<Posting>, t: Token)
    requires NoEmpty(hits)
    ensures NoEmpty(Collected(hits, nodes, t))
  {
    if nodes != [] {
      CollectedNoEmpty(hits, nodes[..|nodes| - 1], t);
    }
  }

  ghost predicate WellMarked(index: Index) {
    forall t | t in index :: Falling(index[t].nodes) && MarkPlaced(index[t])
  }

  // ----- Reading a list

  /** PostingIteratorImpl on a list that does not change meanwhile. */
  class PostingIterator {
    const plist: List
    var cur: Cursor
    var hasValue: bool

    constructor (l: List)
      ensures plist == l && At(0) && !hasValue
    {
      plist, cur, hasValue := l, Front, false;
    }

    /** The iterator has moved past this many postings. */
    ghost predicate At(n: nat)
      reads this
    {
      n <= KeptCount(plist) && cur == if n == 0 then Front else On(plist.nodes[n - 1].id)
    }

    method HasValue(ghost n: nat) returns (more: bool)
      requires Falling(plist.nodes) && MarkPlaced(plist) && At(n)
      modifies this`hasValue
      ensures more == hasValue == (n < KeptCount(plist))
    {
      hasValue := HasValueNow(plist, cur);
      more := hasValue;
      if n > 0 {
        NextAfter(plist.nodes, n - 1);
      }
      if plist.mark.AtNode? {
        var k := MarkCount(plist);
      }
    }

    /** Throws, and leaves the iterator as it is, unless HasValue was asked before and said yes. */
    method GetValue(ghost n: nat) returns (ok: bool, p: Posting)
      requires Falling(plist.nodes) && At(n) && (hasValue ==> n < KeptCount(plist))
      modifies this`hasValue
      ensures ok == old(hasValue) && !hasValue
      ensures ok ==> p == plist.nodes[n]
    {
      ok, p := hasValue, Posting(0, 0, 0);
      if ok {
        if n > 0 {
          NextAfter(plist.nodes, n - 1);
        }
        hasValue := false;
        p := plist.nodes[NextIndex(plist.nodes, cur)];
      }
    }

    method Next(ghost n: nat)
      requires Falling(plist.nodes) && At(n) && n < KeptCount(plist)
      modifies this`cur
      ensures At(n + 1)
    {
      if n > 0 {
        NextAfter(plist.nodes, n - 1);
      }
      cur := On(plist.nodes[NextIndex(plist.nodes, cur)].id);
    }
  }

  lemma HasLeast(s: set<nat>) returns (d: nat)
    requires s != {}
    ensures d in s && forall e | e in s :: d <= e
  {
    d := AnyOf(s);
    var others := s - {d};
    if others != {} {
      var least := HasLeast(others);
      assert forall e | e in s :: e == d || e in others;
      d := if least < d then least else d;
    } else {
      assert s == {d};
    }
  }

  class IndexReader {
    var hits: HitMap
    /** m_iter: the documents from the iterator on. */
    var rest: set<nat>

    constructor ()
      ensures hits == map[] && rest == {}
    {
      hits, rest := map[], {};
    }

    method AddHitKeywordToDocInfo(hit: Hit, d: nat)
      modifies this`hits
      ensures hits == WithHit(old(hits), d, hit)
    {
      if d in hits {
        hits := hits[d := hits[d] + [hit]];
      } else {
        assert [] + [hit] == [hit];
        hits := hits[d := [hit]];
      }
    }

    /** The inner loop of beginIntersect: one posting list. */
    method AddList(l: List, t: Token)
      requires Falling(l.nodes) && MarkPlaced(l)
      modifies this`hits
      ensures hits == Collected(old(hits), Kept(l), t)
    {
      var it := new PostingIterator(l);
      ghost var n := 0;
      var more := it.HasValue(n);
      while more
        invariant fresh(it) && it.plist == l && it.At(n) && more == it.hasValue == (n < KeptCount(l))
        invariant hits == Collected(old(hits), l.nodes[..n], t)
        decreases KeptCount(l) - n
      {
        var ok, p := it.GetValue(n);
        AddHitKeywordToDocInfo(Hit(t, p.weight), p.id);
        assert l.nodes[..n + 1][..n] == l.nodes[..n];
        it.Next(n);
        n := n + 1;
        more := it.HasValue(n);
      }
    }

    method BeginIntersect(index: Index, request: seq<Token>)
      requires WellMarked(index)
      modifies this
      ensures forall d :: HitsAt(hits, d) == HitsFor(index, request, d)
      ensures NoEmpty(hits)
      ensures rest == hits.Keys
    {
      hits := map[];
      for i := 0 to |request|
        invariant forall d :: HitsAt(hits, d) == HitsFor(index, request[..i], d)
        invariant NoEmpty(hits)
      {
        assert request[..i + 1][..i] == request[..i];
        var t := request[i];
        ghost var before := hits;
        if t in index {
          AddList(index[t], t);
        }
        CollectedNoEmpty(before, Kept(ListOf(index, t)), t);
        forall d
          ensures HitsAt(hits, d) == HitsFor(index, request[..i + 1], d)
        {
          CollectedHits(before, Kept(ListOf(index, t)), t, d);
        }
      }
      assert request[..|request|] == request;
      rest := hits.Keys;
    }

    method NextDoc(ix: InstantIndex) returns (more: bool, storyId: int, keys: seq<Hit>, ghost d: nat)
      requires rest <= hits.Keys
      modifies this`rest
      ensures more == (old(rest) != {})
      ensures more ==> d in old(rest) && (forall e | e in old(rest) :: d <= e) && rest == old(rest) - {d}
      ensures more ==> keys == hits[d] && storyId == GlobalId(ix.att, d)
      ensures !more ==> rest == {}
    {
      more, storyId, keys, d := rest != {}, 0, [], 0;
      if more {
        ghost var least := HasLeast(rest);
        var doc :| doc in rest && forall e | e in rest :: doc <= e;
        d := doc;
        var found, g := ix.TranslateToGlobalId(doc);
        storyId := g;
        keys := hits[doc];
        rest := rest - {doc};
      }
    }
  }

  // ----- The result set

  predicate Descending(docs: seq<Entry>) {
    forall i, j | 0 <= i < j < |docs| :: docs[i].score >= docs[j].score
  }

  /** Insertion behind all entries that are not smaller. */
  function Inserted(docs: seq<Entry>, e: Entry): (docs': seq<Entry>)
    ensures multiset(docs') == multiset(docs) + multiset{e}
  {
    if docs == [] || docs[0].score < e.score then [e] + docs
    else
      assert docs == [docs[0]] + docs[1..];
      [docs[0]] + Inserted(docs[1..], e)
  }

  lemma {:induction false} InsertedDescends(docs: seq<Entry>, e: Entry)
    requires Descending(docs)
    ensures Descending(Inserted(docs, e))
    ensures docs != [] ==> Inserted(docs, e)[0] in [docs[0], e]
    ensures |Inserted(docs, e)| == |docs| + 1
  {
    if docs != [] && docs[0].score >= e.score {
      InsertedDescends(docs[1..], e);
      var rest := Inserted(docs[1..], e);
      assert forall i | 0 < i < |rest| :: rest[0].score >= rest[i].score;
    }
  }

  lemma PrefixGrows(docs: seq<Entry>, i: nat)
    requires i < |docs|
    ensures multiset(docs[..i + 1]) == multiset(docs[..i]) + multiset{docs[i]}
  {
    assert docs[..i + 1] == docs[..i] + [docs[i]];
  }

  class ResultSet {
    var docs: seq<Entry>
    var docNum: nat

    constructor ()
      ensures docs == [] && docNum == 0
    {
      docs, docNum := [], 0;
    }

    method InsertDoc(storyId: int, score: real)
      requires docNum == |docs|
      modifies this
      ensures docs == old(docs) + [Entry(storyId, score)] && docNum == |docs|
    {
      docs, docNum := docs + [Entry(storyId, score)], docNum + 1;
    }

    /** Sorts by falling score; the order of equal scores is not promised. */
    method Dump() returns (n: nat)
      requires docNum == |docs|
      modifies this`docs
      ensures multiset(docs) == multiset(old(docs)) && Descending(docs)
      ensures n == |docs| == |old(docs)|
    {
      var sorted := [];
      for i := 0 to |docs|
        invariant docs == old(docs) && Descending(sorted) && |sorted| == i
        invariant multiset(sorted) == multiset(docs[..i])
      {
        InsertedDescends(sorted, docs[i]);
        PrefixGrows(docs, i);
        sorted := Inserted(sorted, docs[i]);
      }
      assert docs[..|docs|] == docs;
      docs := sorted;
      n := docNum;
    }
  }

  // ----- The handler

  ghost predicate Rises(docs: seq<nat>, i: nat, j: nat)
    requires i < j < |docs|
  {
    docs[i] < docs[j]
  }

  ghost predicate Ascending(docs: seq<nat>) {
    forall i, j | 0 <= i < j < |docs| :: Rises(docs, i, j)
  }

  ghost function Score(index: Index, request: seq<Token>, d: nat): (score: nat) {
    |HitsFor(index, request, d)|
  }

  ghost function Scores(index: Index, request: seq<Token>): (scores: nat -> nat) {
    (d: nat) => Score(index, request, d)
  }

  function Names(att: map<nat, int>): (names: nat -> int) {
    (d: nat) => GlobalId(att, d)
  }

  /** The entries with that of one more document, if it hits often enough. */
  function WithEntry(es: seq<Entry>, globalId: int, score: nat, bar: real): (es': seq<Entry>) {
    if score as real < bar then es else es + [Entry(globalId, score as real)]
  }

  /** The entries of the documents that hit often enough. */
  ghost function Selected(scores: nat -> nat, names: nat -> int, bar: real, docs: seq<nat>): (es: seq<Entry>) {
    if docs == [] then []
    else
      var d := docs[|docs| - 1];
      WithEntry(Selected(scores, names, bar, docs[..|docs| - 1]), names(d), scores(d), bar)
  }

  lemma SelectedStep(scores: nat -> nat, names: nat -> int, bar: real, docs: seq<nat>, d: nat)
    ensures Selected(scores, names, bar, docs + [d]) == WithEntry(Selected(scores, names, bar, docs), names(d), scores(d), bar)
  {
    assert (docs + [d])[..|docs|] == docs;
  }

  /** The results are the best of all entries, as many as may be returned, best first; none that is
      left out scores above one that is returned. */
  ghost predicate TopOf(results: seq<Entry>, left: multiset<Entry>, all: seq<Entry>) {
    && Descending(results)
    && multiset(results) + left == multiset(all)
    && forall a, b | a in results && b in left :: a.score >= b.score
  }

  ghost predicate Answers(r: Response, all: seq<Entry>, maxReturn: int) {
    && r.code == Ok
    && r.numResults == (if |all| > maxReturn then maxReturn else |all|)
    && |r.results| == (if r.numResults < 0 then 0 else r.numResults)
    && exists left :: TopOf(r.results, left, all)
  }

  lemma TopIsPrefix(sorted: seq<Entry>, all: seq<Entry>, n: nat)
    requires Descending(sorted) && multiset(sorted) == multiset(all) && n <= |sorted|
    ensures TopOf(sorted[..n], multiset(sorted[n..]), all)
  {
    assert sorted == sorted[..n] + sorted[n..];
    forall a, b | a in sorted[..n] && b in multiset(sorted[n..])
      ensures a.score >= b.score
    {
      var i :| 0 <= i < n && sorted[i] == a;
      assert b in sorted[n..];
      var j :| 0 <= j < |sorted[n..]| && sorted[n..][j] == b;
      assert sorted[n + j] == b;
    }
  }

  /** makeReply: the code for no results is overwritten at once. */
  method MakeReply(docNum: int, found: ResultSet) returns (r: Response)
    requires docNum <= |found.docs|
    ensures r == Response(Ok, docNum, if docNum < 0 then [] else found.docs[..docNum])
  {
    var code := Ok;
    if docNum == 0 {
      code := KeywordNotFound;
    }
    code := Ok;
    var results, i := [], 0;
    while i < docNum
      invariant 0 <= i && (i <= docNum || i == 0) && results == found.docs[..i]
    {
      results := results + [found.docs[i]];
      i := i + 1;
    }
    r := Response(code, docNum, results);
  }

  /** The documents with a hit, in ascending order. */
  ghost predicate AreHit(index: Index, request: seq<Token>, docs: seq<nat>) {
    Ascending(docs) && forall d :: d in docs <==> Score(index, request, d) > 0
  }

  /** retrieve: a document must score hit_keywords_ratio times the number of request keywords. */
  method Retrieve(ix: InstantIndex, request: seq<Token>, ratio: real, maxReturn: int) returns (r: Response)
    requires WellMarked(ix.index)
    ensures exists docs :: && AreHit(ix.index, request, docs)
                           && Answers(r, Selected(Scores(ix.index, request), Names(ix.att), ratio * (|request| as real), docs), maxReturn)
  {
    var found := new ResultSet();
    var bar := ratio * (|request| as real);
    ghost var docs := Intersect(ix, request, bar, found);
    var docNum := found.Dump();
    if docNum > maxReturn {
      r := MakeReply(maxReturn, found);
    } else {
      r := MakeReply(docNum, found);
    }
    TopIsPrefix(found.docs, Selected(Scores(ix.index, request), Names(ix.att), bar, docs), |r.results|);
    assert r.results == found.docs[..|r.results|];
    assert Answers(r, Selected(Scores(ix.index, request), Names(ix.att), bar, docs), maxReturn);
  }

  /** The loop of retrieve over nextDoc. */
  method Intersect(ix: InstantIndex, request: seq<Token>, bar: real, found: ResultSet) returns (ghost docs: seq<nat>)
    requires WellMarked(ix.index) && found.docs == [] && found.docNum == 0
    modifies found
    ensures AreHit(ix.index, request, docs)
    ensures found.docs == Selected(Scores(ix.index, request), Names(ix.att), bar, docs) && found.docNum == |found.docs|
  {
    var reader := new IndexReader();
    reader.BeginIntersect(ix.index, request);
    docs := [];
    while true
      invariant fresh(reader) && Visited(docs, reader.rest, reader.hits.Keys)
      invariant forall e :: HitsAt(reader.hits, e) == HitsFor(ix.index, request, e)
      invariant NoEmpty(reader.hits)
      invariant found.docs == Selected(Scores(ix.index, request), Names(ix.att), bar, docs) && found.docNum == |found.docs|
      decreases reader.rest
    {
      ghost var rest := reader.rest;
      var more, storyId, keys, d := reader.NextDoc(ix);
      if !more {
        break;
      }
      VisitNext(docs, rest, reader.hits.Keys, d);
      assert keys == HitsAt(reader.hits, d) == HitsFor(ix.index, request, d);
      var score := |keys| as real;
      if !(score < bar) {
        found.InsertDoc(storyId, score);
      }
      SelectedStep(Scores(ix.index, request), Names(ix.att), bar, docs, d);
      docs := docs + [d];
    }
    forall e
      ensures e in docs <==> Score(ix.index, request, e) > 0
    {
      assert HitsAt(reader.hits, e) == HitsFor(ix.index, request, e);
    }
  }

  /** The documents are visited in ascending order. */
  ghost predicate Visited(docs: seq<nat>, rest: set<nat>, all: set<nat>) {
    && Ascending(docs)
    && (forall e :: e in all <==> e in docs || e in rest)
    && forall i, e | 0 <= i < |docs| && e in rest :: docs[i] < e
  }

  lemma VisitNext(docs: seq<nat>, rest: set<nat>, all: set<nat>, d: nat)
    requires Visited(docs, rest, all) && d in rest && forall e | e in rest :: d <= e
    ensures Visited(docs + [d], rest - {d}, all)
  {
    var docs' := docs + [d];
    forall i, j | 0 <= i < j < |docs'|
      ensures Rises(docs', i, j)
    {
      if j < |docs| {
        assert Rises(docs, i, j);
      }
    }
  }
}
