/** A cleaning cycle against indexing only the stories that are young enough. */
module Cleaning {
  import opened PostingList
  import opened Indexing

  // ----- The index as a function of the stories

  /** The postings for a token when the stories get the ids from base on, newest first. */
  ghost function Postings(stories: seq<Story>, base: nat, t: Token): (nodes: seq<Posting>) {
    if stories == [] then []
    else
      var n := |stories| - 1;
      StoryPostings(stories[n].keywords, base + n, t) + Postings(stories[..n], base, t)
  }

  function GlobalIdAt(stories: seq<Story>, base: nat, id: nat): (g: int)
    requires base <= id < base + |stories|
  {
    stories[id - base].globalId
  }

  ghost function Attachments(stories: seq<Story>, base: nat): (att: map<nat, int>) {
    map id: nat | base <= id < base + |stories| :: GlobalIdAt(stories, base, id)
  }

  /** The state holds exactly what indexing these stories yields, up to empty lists. */
  ghost predicate Represents(s: State, stories: seq<Story>, base: nat) {
    && s.counter == base + |stories|
    && s.att == Attachments(stories, base)
    && forall t :: ListOf(s.index, t).nodes == Postings(stories, base, t)
  }

  ghost function AddAll(s: State, stories: seq<Story>): (s': State) {
    if stories == [] then s
    else Added(AddAll(s, stories[..|stories| - 1]), stories[|stories| - 1])
  }

  lemma AddedRepresents(s: State, stories: seq<Story>, base: nat, story: Story)
    requires Represents(s, stories, base)
    ensures Represents(Added(s, story), stories + [story], base)
  {
    var more := stories + [story];
    assert more[..|stories|] == stories;
    forall t
      ensures ListOf(Added(s, story).index, t).nodes == Postings(more, base, t)
    {
      assert ListOf(s.index, t).nodes == Postings(stories, base, t);
      StoryPostingsOutside(story.keywords, s.counter, t);
    }
  }

  lemma {:induction false} StoryPostingsOutside(keywords: seq<Keyword>, id: nat, t: Token)
    ensures t !in Tokens(keywords) ==> StoryPostings(keywords, id, t) == []
  {
    if keywords != [] {
      var n := |keywords| - 1;
      assert keywords[..n + 1] == keywords;
      TokensStep(keywords, n);
      StoryPostingsOutside(keywords[..n], id, t);
    }
  }

  /** Indexing whatever marks are set: the content is that of all the stories, and marks stay. */
  lemma {:induction false} AddAllRepresents(s: State, before: seq<Story>, base: nat, during: seq<Story>)
    requires Represents(s, before, base)
    ensures Represents(AddAll(s, during), before + during, base)
    ensures forall t :: ListOf(AddAll(s, during).index, t).mark == ListOf(s.index, t).mark
  {
    if during == [] {
      assert before + during == before;
    } else {
      var n := |during| - 1;
      AddAllRepresents(s, before, base, during[..n]);
      AddedRepresents(AddAll(s, during[..n]), before + during[..n], base, during[n]);
      assert (before + during[..n]) + [during[n]] == before + during;
    }
  }

  lemma {:induction false} PostingsConcat(a: seq<Story>, b: seq<Story>, base: nat, t: Token)
    ensures Postings(a + b, base, t) == Postings(b, base + |a|, t) + Postings(a, base, t)
  {
    if b == [] {
      assert a + b == a;
    } else {
      var n := |b| - 1;
      PostingsConcat(a, b[..n], base, t);
      assert (a + b)[..|a| + n] == a + b[..n];
      assert (a + b)[|a| + n] == b[n];
    }
  }

  // ----- What the lists hold

  ghost predicate Distinct(story: Story) {
    forall i, j | 0 <= i < j < |story.keywords| :: story.keywords[i].token != story.keywords[j].token
  }

  function PostingOf(stories: seq<Story>, base: nat, i: nat, j: nat): (p: Posting)
    requires i < |stories| && j < |stories[i].keywords|
  {
    var k := stories[i].keywords[j];
    Posting(base + i, k.weight, k.stamp)
  }

  lemma {:induction false} StoryPostingsSound(keywords: seq<Keyword>, id: nat, t: Token, p: Posting) returns (j: nat)
    requires p in StoryPostings(keywords, id, t)
    ensures j < |keywords| && keywords[j].token == t && p == Posting(id, keywords[j].weight, keywords[j].stamp)
  {
    var n := |keywords| - 1;
    if p in StoryPostings(keywords[..n], id, t) {
      j := StoryPostingsSound(keywords[..n], id, t, p);
    } else {
      j := n;
    }
  }

  lemma {:induction false} StoryPostingsComplete(keywords: seq<Keyword>, id: nat, j: nat)
    requires j < |keywords|
    ensures Posting(id, keywords[j].weight, keywords[j].stamp) in StoryPostings(keywords, id, keywords[j].token)
  {
    if j < |keywords| - 1 {
      StoryPostingsComplete(keywords[..|keywords| - 1], id, j);
    }
  }

  lemma {:induction false} StoryPostingsAtMostOne(keywords: seq<Keyword>, id: nat, t: Token)
    requires forall i, j | 0 <= i < j < |keywords| :: keywords[i].token != keywords[j].token
    ensures |StoryPostings(keywords, id, t)| <= 1
  {
    if keywords != [] {
      var n := |keywords| - 1;
      StoryPostingsAtMostOne(keywords[..n], id, t);
      if keywords[n].token == t && StoryPostings(keywords[..n], id, t) != [] {
        var j := StoryPostingsSound(keywords[..n], id, t, StoryPostings(keywords[..n], id, t)[0]);
      }
    }
  }

  lemma {:induction false} PostingsSound(stories: seq<Story>, base: nat, t: Token, p: Posting) returns (i: nat, j: nat)
    requires p in Postings(stories, base, t)
    ensures i < |stories| && j < |stories[i].keywords|
    ensures stories[i].keywords[j].token == t && p == PostingOf(stories, base, i, j)
  {
    var n := |stories| - 1;
    if p in Postings(stories[..n], base, t) {
      i, j := PostingsSound(stories[..n], base, t, p);
    } else {
      i := n;
      j := StoryPostingsSound(stories[n].keywords, base + n, t, p);
    }
  }

  lemma {:induction false} PostingsComplete(stories: seq<Story>, base: nat, i: nat, j: nat)
    requires i < |stories| && j < |stories[i].keywords|
    ensures PostingOf(stories, base, i, j) in Postings(stories, base, stories[i].keywords[j].token)
  {
    var n := |stories| - 1;
    if i == n {
      StoryPostingsComplete(stories[n].keywords, base + n, j);
    } else {
      PostingsComplete(stories[..n], base, i, j);
    }
  }

  lemma {:induction false} PostingsFalling(stories: seq<Story>, base: nat, t: Token)
    requires forall i {:trigger Distinct(stories[i])} | 0 <= i < |stories| :: Distinct(stories[i])
    ensures Falling(Postings(stories, base, t)) && Below(Postings(stories, base, t), base + |stories|)
  {
    if stories != [] {
      var n := |stories| - 1;
      PostingsFalling(stories[..n], base, t);
      var top := StoryPostings(stories[n].keywords, base + n, t);
      assert Distinct(stories[n]);
      StoryPostingsAtMostOne(stories[n].keywords, base + n, t);
      if top != [] {
        var j := StoryPostingsSound(stories[n].keywords, base + n, t, top[0]);
      }
    }
  }

  // ----- The clock

  function Arrival(stories: seq<Story>, i: nat): (time: int)
    requires i < |stories|
  {
    stories[i].arrival
  }

  function Stamp(stories: seq<Story>, i: nat, j: nat): (time: int)
    requires i < |stories| && j < |stories[i].keywords|
  {
    stories[i].keywords[j].stamp
  }

  /** One clock that never goes back: a story arrives, its postings are stamped, the next arrives. */
  ghost predicate Ordered(stories: seq<Story>) {
    && (forall i, j | 0 <= i < |stories| && 0 <= j < |stories[i].keywords| ::
          Arrival(stories, i) <= Stamp(stories, i, j))
    && (forall i, k | 0 <= i < k < |stories| :: Arrival(stories, i) <= Arrival(stories, k))
    && (forall i, j, k | 0 <= i < k < |stories| && 0 <= j < |stories[i].keywords| ::
          Stamp(stories, i, j) <= Arrival(stories, k))
  }

  ghost predicate Timely(stories: seq<Story>) {
    Ordered(stories) && forall i {:trigger Distinct(stories[i])} | 0 <= i < |stories| :: Distinct(stories[i])
  }

  /** How many stories, from the oldest on, arrived before the target time. */
  function StaleCount(stories: seq<Story>, target: int): (k: nat)
    ensures k <= |stories|
    ensures k < |stories| ==> stories[k].arrival >= target
  {
    if stories == [] || stories[0].arrival >= target then 0
    else 1 + StaleCount(stories[1..], target)
  }

  /** Length of the leading run that the marking loop walks over. */
  function Young(nodes: seq<Posting>, target: int): (n: nat)
    ensures n <= |nodes|
    ensures n < |nodes| ==> nodes[n].timestamp < target
  {
    if nodes == [] || nodes[0].timestamp < target then 0 else 1 + Young(nodes[1..], target)
  }

  lemma {:induction false} MarkIsLastYoung(nodes: seq<Posting>, target: int, last: Mark)
    ensures var n := Young(nodes, target);
            MarkFor(nodes, target, last) == if n == 0 then last else AtNode(nodes[n - 1].id)
  {
    if nodes != [] && nodes[0].timestamp >= target {
      MarkIsLastYoung(nodes[1..], target, AtNode(nodes[0].id));
    }
  }

  /** What is left of a list that was marked, pushed to and cleared. */
  lemma KeptAfterPushes(l: List, pushed: seq<Posting>, target: int)
    requires Falling(pushed + l.nodes)
    ensures var n := Young(l.nodes, target);
            Kept(List(pushed + l.nodes, Marked(l, target).mark))
              == if n == 0 then [] else pushed + l.nodes[..n]
  {
    var n := Young(l.nodes, target);
    MarkIsLastYoung(l.nodes, target, AtFront);
    if n > 0 {
      var all := pushed + l.nodes;
      assert all[|pushed| + n - 1] == l.nodes[n - 1];
      NextAfter(all, |pushed| + n - 1);
      assert all[..|pushed| + n] == pushed + l.nodes[..n];
    }
  }

  lemma ListTimes(stories: seq<Story>, base: nat, t: Token, a: nat, b: nat)
    requires Timely(stories) && a < b < |Postings(stories, base, t)|
    ensures Postings(stories, base, t)[a].timestamp >= Postings(stories, base, t)[b].timestamp
  {
    var nodes := Postings(stories, base, t);
    PostingsFalling(stories, base, t);
    var i, j := PostingsSound(stories, base, t, nodes[a]);
    var i', j' := PostingsSound(stories, base, t, nodes[b]);
    assert nodes[a].id > nodes[b].id;
    assert i' < i;
    assert Stamp(stories, i', j') <= Arrival(stories, i) <= Stamp(stories, i, j);
  }

  // ----- A cleaning cycle

  /** The story has a posting, and all its postings are stale. */
  ghost predicate AllStale(story: Story, target: int) {
    story.keywords != [] && forall j | 0 <= j < |story.keywords| :: story.keywords[j].stamp < target
  }

  ghost predicate WhollyStale(stories: seq<Story>, target: int) {
    forall i {:trigger AllStale(stories[i], target)} | 0 <= i < StaleCount(stories, target) :: AllStale(stories[i], target)
  }

  /** No keyword of the story meets a list whose postings are all stale: the mark of such a list is
      its sentinel, and the clear takes what was pushed behind it. */
  ghost predicate Survives(index: Index, target: int, story: Story) {
    forall j | 0 <= j < |story.keywords| ::
      story.keywords[j].token in index ==> Young(index[story.keywords[j].token].nodes, target) > 0
  }

  ghost predicate PushesSurvive(index: Index, target: int, during: seq<Story>) {
    forall i {:trigger Survives(index, target, during[i])} | 0 <= i < |during| :: Survives(index, target, during[i])
  }

  /** The state just before the clear. */
  ghost function Midway(s: State, target: int, during: seq<Story>): (s': State) {
    AddAll(MarkedAll(s, target), during)
  }

  /** The state after marking, indexing some stories and clearing. */
  ghost function Cycle(s: State, target: int, during: seq<Story>): (s': State) {
    ClearedAll(Midway(s, target, during))
  }

  /** What a cycle leaves of one list: d was pushed to it meanwhile. */
  ghost function Left(index: Index, t: Token, target: int, d: seq<Posting>): (nodes: seq<Posting>) {
    if t !in index then d
    else if Young(index[t].nodes, target) == 0 then []
    else d + index[t].nodes[..Young(index[t].nodes, target)]
  }

  ghost predicate Setting(s: State, before: seq<Story>, base: nat, during: seq<Story>) {
    Represents(s, before, base) && Timely(before) && forall i {:trigger Distinct(during[i])} | 0 <= i < |during| :: Distinct(during[i])
  }

  lemma MarkedRepresents(s: State, before: seq<Story>, base: nat, target: int)
    requires Represents(s, before, base)
    ensures Represents(MarkedAll(s, target), before, base)
  {
    forall t
      ensures ListOf(MarkedAll(s, target).index, t).nodes == Postings(before, base, t)
    {
      assert ListOf(s.index, t).nodes == Postings(before, base, t);
    }
  }

  /** The list of a token just before the clear. */
  lemma ListBeforeClear(s: State, before: seq<Story>, base: nat, target: int, during: seq<Story>, t: Token)
    requires Setting(s, before, base, during)
    ensures var l := ListOf(Midway(s, target, during).index, t);
            var d := Postings(during, base + |before|, t);
            && l.nodes == d + ListOf(s.index, t).nodes
            && l.mark == (if t in s.index then Marked(s.index[t], target).mark else Unmarked)
            && Falling(l.nodes)
            && Kept(l) == Left(s.index, t, target, d)
  {
    var m := MarkedAll(s, target);
    MarkedRepresents(s, before, base, target);
    AddAllRepresents(m, before, base, during);
    PostingsConcat(before, during, base, t);
    PostingsFalling(before + during, base, t);
    var l, d := ListOf(AddAll(m, during).index, t), Postings(during, base + |before|, t);
    assert l.nodes == Postings(before + during, base, t);
    assert ListOf(s.index, t).nodes == Postings(before, base, t);
    assert l.mark == ListOf(m.index, t).mark;
    if t in s.index {
      KeptAfterPushes(s.index[t], d, target);
    }
  }

  lemma {:induction false} YoungSplit(f: seq<Posting>, g: seq<Posting>, target: int)
    requires forall i | 0 <= i < |f| :: f[i].timestamp >= target
    ensures Young(f + g, target) == |f| + Young(g, target)
  {
    if f == [] {
      assert f + g == g;
    } else {
      YoungSplit(f[1..], g, target);
      assert (f + g)[1..] == f[1..] + g;
    }
  }

  /** The postings of the fresh stories, and those of the stale ones. */
  ghost function FreshPart(before: seq<Story>, base: nat, target: int, t: Token): (nodes: seq<Posting>) {
    var k := StaleCount(before, target);
    Postings(before[k..], base + k, t)
  }

  ghost function StalePart(before: seq<Story>, base: nat, target: int, t: Token): (nodes: seq<Posting>) {
    Postings(before[..StaleCount(before, target)], base, t)
  }

  lemma FreshStamp(before: seq<Story>, target: int, i: nat, j: nat)
    requires Ordered(before) && StaleCount(before, target) <= i < |before| && j < |before[i].keywords|
    ensures before[i].keywords[j].stamp >= target
  {
    assert Arrival(before, StaleCount(before, target)) <= Arrival(before, i) <= Stamp(before, i, j);
  }

  lemma FreshAreYoung(before: seq<Story>, base: nat, target: int, t: Token)
    requires Timely(before)
    ensures forall n | 0 <= n < |FreshPart(before, base, target, t)| :: FreshPart(before, base, target, t)[n].timestamp >= target
  {
    var k, f := StaleCount(before, target), FreshPart(before, base, target, t);
    forall n | 0 <= n < |f|
      ensures f[n].timestamp >= target
    {
      var i, j := PostingsSound(before[k..], base + k, t, f[n]);
      FreshStamp(before, target, k + i, j);
    }
  }

  /** The postings of the fresh stories come first, and the marking loop walks over all of them. */
  lemma FreshComeFirst(before: seq<Story>, base: nat, target: int, t: Token)
    requires Timely(before)
    ensures var f, g := FreshPart(before, base, target, t), StalePart(before, base, target, t);
            Postings(before, base, t) == f + g && Young(f + g, target) == |f| + Young(g, target)
  {
    var k := StaleCount(before, target);
    assert before[..k] + before[k..] == before;
    PostingsConcat(before[..k], before[k..], base, t);
    FreshAreYoung(before, base, target, t);
    YoungSplit(FreshPart(before, base, target, t), StalePart(before, base, target, t), target);
  }

  /** When the stale stories are wholly stale, no list has a young posting of theirs. */
  lemma StaleAreOld(before: seq<Story>, base: nat, target: int, t: Token)
    requires WhollyStale(before, target)
    ensures Young(StalePart(before, base, target, t), target) == 0
  {
    var k, g := StaleCount(before, target), StalePart(before, base, target, t);
    if g != [] {
      var i, j := PostingsSound(before[..k], base, t, g[0]);
      assert before[..k][i] == before[i] && AllStale(before[i], target);
    }
  }

  /** Nothing that was pushed meanwhile is on a list marked at its sentinel. */
  lemma PushedOnYoung(index: Index, target: int, during: seq<Story>, id: nat, t: Token)
    requires PushesSurvive(index, target, during) && t in index
    ensures |Postings(during, id, t)| > 0 ==> Young(index[t].nodes, target) > 0
  {
    var d := Postings(during, id, t);
    if d != [] {
      var i, j := PostingsSound(during, id, t, d[0]);
      assert Survives(index, target, during[i]);
    }
  }

  /** The lists after a cycle are those of the fresh stories, and what is gone is the rest. */
  lemma ListsAfterCycle(s: State, before: seq<Story>, base: nat, target: int, during: seq<Story>, t: Token)
    requires Setting(s, before, base, during) && WhollyStale(before, target) && PushesSurvive(s.index, target, during)
    ensures var l := ListOf(Midway(s, target, during).index, t);
            && Kept(l) == Postings(during, base + |before|, t) + FreshPart(before, base, target, t)
            && Dropped(l) == Ids(StalePart(before, base, target, t))
  {
    StaleAreOld(before, base, target, t);
    if t in s.index {
      PushedOnYoung(s.index, target, during, base + |before|, t);
    }
    ListAfterCycle(s, before, base, target, during, t);
  }

  lemma ListAfterCycle(s: State, before: seq<Story>, base: nat, target: int, during: seq<Story>, t: Token)
    requires Setting(s, before, base, during) && Young(StalePart(before, base, target, t), target) == 0
    requires t in s.index && |Postings(during, base + |before|, t)| > 0 ==> Young(s.index[t].nodes, target) > 0
    ensures var l := ListOf(Midway(s, target, during).index, t);
            && Kept(l) == Postings(during, base + |before|, t) + FreshPart(before, base, target, t)
            && Dropped(l) == Ids(StalePart(before, base, target, t))
  {
    var d := Postings(during, base + |before|, t);
    var f, g := FreshPart(before, base, target, t), StalePart(before, base, target, t);
    var l := ListOf(Midway(s, target, during).index, t);
    ListBeforeClear(s, before, base, target, during, t);
    FreshComeFirst(before, base, target, t);
    assert ListOf(s.index, t).nodes == f + g;
    LeftIs(s.index, t, target, d, f, g);
    CutAfter(l.nodes, d, f, g);
  }

  lemma LeftIs(index: Index, t: Token, target: int, d: seq<Posting>, f: seq<Posting>, g: seq<Posting>)
    requires ListOf(index, t).nodes == f + g && Young(f + g, target) == |f|
    requires t in index && |d| > 0 ==> |f| > 0
    ensures Left(index, t, target, d) == d + f
  {
    assert (f + g)[..|f|] == f;
  }

  lemma CutAfter(nodes: seq<Posting>, d: seq<Posting>, f: seq<Posting>, g: seq<Posting>)
    requires nodes == d + (f + g)
    ensures nodes[|d| + |f|..] == g
  {
  }

  // ----- The attachments

  lemma CycleList(s: State, target: int, during: seq<Story>, t: Token)
    ensures ListOf(Cycle(s, target, during).index, t).nodes == Kept(ListOf(Midway(s, target, during).index, t))
  {
  }

  lemma DroppedIsListed(index: Index, d: nat) returns (t: Token)
    requires d in DroppedDocs(index, index.Keys)
    ensures d in Dropped(ListOf(index, t))
  {
    t :| t in index && d in Dropped(index[t]);
  }

  lemma ListedIsDropped(index: Index, t: Token, d: nat)
    requires d in Dropped(ListOf(index, t))
    ensures d in DroppedDocs(index, index.Keys)
  {
    assert t in index;
  }

  lemma DroppedAreStale(s: State, before: seq<Story>, base: nat, target: int, during: seq<Story>, t: Token, d: nat)
    requires Setting(s, before, base, during) && WhollyStale(before, target) && PushesSurvive(s.index, target, during)
    requires d in Dropped(ListOf(Midway(s, target, during).index, t))
    ensures base <= d < base + StaleCount(before, target)
  {
    var k, g := StaleCount(before, target), StalePart(before, base, target, t);
    ListsAfterCycle(s, before, base, target, during, t);
    var n :| 0 <= n < |g| && g[n].id == d;
    var i, j := PostingsSound(before[..k], base, t, g[n]);
  }

  lemma StaleAreListed(before: seq<Story>, base: nat, target: int, i: nat)
    requires i < StaleCount(before, target) && before[i].keywords != []
    ensures base + i in Ids(StalePart(before, base, target, before[i].keywords[0].token))
  {
    var k := StaleCount(before, target);
    PostingsComplete(before[..k], base, i, 0);
    InIds(StalePart(before, base, target, before[i].keywords[0].token), PostingOf(before[..k], base, i, 0));
  }

  lemma StaleAreDropped(s: State, before: seq<Story>, base: nat, target: int, during: seq<Story>, i: nat)
    requires Setting(s, before, base, during) && WhollyStale(before, target) && PushesSurvive(s.index, target, during)
    requires i < StaleCount(before, target) && before[i].keywords != []
    ensures base + i in Dropped(ListOf(Midway(s, target, during).index, before[i].keywords[0].token))
  {
    StaleAreListed(before, base, target, i);
    ListsAfterCycle(s, before, base, target, during, before[i].keywords[0].token);
  }

  lemma InIds(nodes: seq<Posting>, p: Posting)
    requires p in nodes
    ensures p.id in Ids(nodes)
  {
  }

  /** The cleaner collects exactly the stale stories. */
  lemma DroppedAfterCycle(s: State, before: seq<Story>, base: nat, target: int, during: seq<Story>, d: nat)
    requires Setting(s, before, base, during) && WhollyStale(before, target) && PushesSurvive(s.index, target, during)
    ensures var index := Midway(s, target, during).index;
            d in DroppedDocs(index, index.Keys) <==> base <= d < base + StaleCount(before, target)
  {
    var index := Midway(s, target, during).index;
    if base <= d < base + StaleCount(before, target) {
      assert AllStale(before[d - base], target);
      StaleAreDropped(s, before, base, target, during, d - base);
      ListedIsDropped(index, before[d - base].keywords[0].token, d);
    }
    if d in DroppedDocs(index, index.Keys) {
      var t := DroppedIsListed(index, d);
      DroppedAreStale(s, before, base, target, during, t, d);
    }
  }

  lemma AttachmentsAfter(before: seq<Story>, base: nat, k: nat, during: seq<Story>, gone: set<nat>)
    requires k <= |before| && forall d: nat :: d in gone <==> base <= d < base + k
    ensures Attachments(before + during, base) - gone == Attachments(before[k..] + during, base + k)
  {
    var all, rest := before + during, before[k..] + during;
    assert all[k..] == rest;
    forall id: nat | base + k <= id < base + |all|
      ensures GlobalIdAt(all, base, id) == GlobalIdAt(rest, base + k, id)
    {
      assert rest[id - (base + k)] == all[id - base];
    }
  }

  // ----- The main result

  /** The result asked for: as if only the stories that arrived in time had been indexed. */
  ghost predicate OnlyFreshLeft(s: State, before: seq<Story>, base: nat, target: int, during: seq<Story>) {
    Represents(Cycle(s, target, during), Remaining(before, target, during), base + StaleCount(before, target))
  }

  function Remaining(before: seq<Story>, target: int, during: seq<Story>): (stories: seq<Story>) {
    before[StaleCount(before, target)..] + during
  }

  lemma MidwayAttachments(s: State, before: seq<Story>, base: nat, target: int, during: seq<Story>)
    requires Represents(s, before, base)
    ensures Midway(s, target, during).att == Attachments(before + during, base)
    ensures Midway(s, target, during).counter == base + |before| + |during|
  {
    MarkedRepresents(s, before, base, target);
    AddAllRepresents(MarkedAll(s, target), before, base, during);
  }

  lemma CycleAttachments(s: State, before: seq<Story>, base: nat, target: int, during: seq<Story>)
    requires Setting(s, before, base, during) && WhollyStale(before, target) && PushesSurvive(s.index, target, during)
    ensures && Cycle(s, target, during).att == Attachments(Remaining(before, target, during), base + StaleCount(before, target))
            && Cycle(s, target, during).counter == base + |before| + |during|
  {
    var k, index := StaleCount(before, target), Midway(s, target, during).index;
    var gone := DroppedDocs(index, index.Keys);
    MidwayAttachments(s, before, base, target, during);
    forall d: nat
      ensures d in gone <==> base <= d < base + k
    {
      DroppedAfterCycle(s, before, base, target, during, d);
    }
    AttachmentsAfter(before, base, k, during, gone);
  }

  lemma CycleLists(s: State, before: seq<Story>, base: nat, target: int, during: seq<Story>, t: Token)
    requires Setting(s, before, base, during) && WhollyStale(before, target) && PushesSurvive(s.index, target, during)
    ensures ListOf(Cycle(s, target, during).index, t).nodes
            == Postings(Remaining(before, target, during), base + StaleCount(before, target), t)
  {
    CycleList(s, target, during, t);
    ListsAfterCycle(s, before, base, target, during, t);
    FreshPostings(before, base, target, during, t);
  }

  lemma FreshPostings(before: seq<Story>, base: nat, target: int, during: seq<Story>, t: Token)
    ensures Postings(Remaining(before, target, during), base + StaleCount(before, target), t)
            == Postings(during, base + |before|, t) + FreshPart(before, base, target, t)
  {
    var k := StaleCount(before, target);
    assert base + k + |before[k..]| == base + |before|;
    PostingsConcat(before[k..], during, base + k, t);
  }

  lemma CycleKeepsFresh(s: State, before: seq<Story>, base: nat, target: int, during: seq<Story>)
    requires Setting(s, before, base, during) && WhollyStale(before, target) && PushesSurvive(s.index, target, during)
    ensures OnlyFreshLeft(s, before, base, target, during)
  {
    CycleAttachments(s, before, base, target, during);
    forall t
      ensures ListOf(Cycle(s, target, during).index, t).nodes
              == Postings(Remaining(before, target, during), base + StaleCount(before, target), t)
    {
      CycleLists(s, before, base, target, during, t);
    }
  }

  /** A young posting of a stale story stays behind. */
  lemma LingeringPosting(s: State, before: seq<Story>, base: nat, target: int, during: seq<Story>, i: nat, j: nat)
    requires Setting(s, before, base, during) && i < |before| && j < |before[i].keywords|
    requires before[i].keywords[j].stamp >= target
    ensures PostingOf(before, base, i, j) in ListOf(Cycle(s, target, during).index, before[i].keywords[j].token).nodes
  {
    var t, p := before[i].keywords[j].token, PostingOf(before, base, i, j);
    var nodes := Postings(before, base, t);
    PostingsComplete(before, base, i, j);
    assert ListOf(s.index, t).nodes == nodes;
    var q :| 0 <= q < |nodes| && nodes[q] == p;
    var n := Young(nodes, target);
    if n < q {
      ListTimes(before, base, t, n, q);
    }
    assert nodes[..n][q] == p;
    CycleList(s, target, during, t);
    ListBeforeClear(s, before, base, target, during, t);
  }

  lemma StalePostingGone(s: State, before: seq<Story>, base: nat, target: int, during: seq<Story>, i: nat, j: nat)
    requires Setting(s, before, base, during)
    requires i < StaleCount(before, target) && j < |before[i].keywords|
    requires OnlyFreshLeft(s, before, base, target, during)
    ensures before[i].keywords[j].stamp < target
  {
    if before[i].keywords[j].stamp >= target {
      var k, t := StaleCount(before, target), before[i].keywords[j].token;
      LingeringPosting(s, before, base, target, during, i, j);
      var rest := Remaining(before, target, during);
      assert ListOf(Cycle(s, target, during).index, t).nodes == Postings(rest, base + k, t);
      var i', j' := PostingsSound(rest, base + k, t, PostingOf(before, base, i, j));
    }
  }

  lemma StaleStoryHasKeyword(s: State, before: seq<Story>, base: nat, target: int, during: seq<Story>, i: nat)
    requires Setting(s, before, base, during) && i < StaleCount(before, target)
    requires OnlyFreshLeft(s, before, base, target, during)
    ensures before[i].keywords != []
  {
    MarkedRepresents(s, before, base, target);
    AddAllRepresents(MarkedAll(s, target), before, base, during);
    TakenHasKeyword(Midway(s, target, during), before + during, base, Remaining(before, target, during), StaleCount(before, target), i);
  }

  lemma TakenHasKeyword(mid: State, stories: seq<Story>, base: nat, rest: seq<Story>, k: nat, i: nat)
    requires Represents(mid, stories, base) && Represents(ClearedAll(mid), rest, base + k) && i < k <= |stories|
    ensures stories[i].keywords != []
  {
    var t := AttachmentTaken(mid, stories, base, rest, k, i);
    DroppedHasKeyword(ListOf(mid.index, t), stories, base, t, i);
  }

  /** An attachment that the clear removed belonged to a dropped posting. */
  lemma AttachmentTaken(mid: State, stories: seq<Story>, base: nat, rest: seq<Story>, k: nat, i: nat) returns (t: Token)
    requires Represents(mid, stories, base) && Represents(ClearedAll(mid), rest, base + k) && i < k <= |stories|
    ensures base + i in Dropped(ListOf(mid.index, t))
  {
    var id := base + i;
    assert id in Attachments(stories, base) && id !in Attachments(rest, base + k);
    t := DroppedIsListed(mid.index, id);
  }

  lemma DroppedHasKeyword(l: List, stories: seq<Story>, base: nat, t: Token, i: nat)
    requires l.nodes == Postings(stories, base, t) && base + i in Dropped(l)
    ensures i < |stories| && stories[i].keywords != []
  {
    var n :| KeptCount(l) <= n < |l.nodes| && l.nodes[n].id == base + i;
    var i', j' := PostingsSound(stories, base, t, l.nodes[n]);
  }

  lemma RemainingHas(before: seq<Story>, base: nat, target: int, during: seq<Story>, i: nat, j: nat)
    requires i < |during| && j < |during[i].keywords|
    ensures |Postings(Remaining(before, target, during), base + StaleCount(before, target), during[i].keywords[j].token)| > 0
  {
    var at := RemainingAt(before, target, during, i);
    PostingsNonempty(Remaining(before, target, during), base + StaleCount(before, target), at, j);
  }

  lemma RemainingAt(before: seq<Story>, target: int, during: seq<Story>, i: nat) returns (at: nat)
    requires i < |during|
    ensures at < |Remaining(before, target, during)| && Remaining(before, target, during)[at] == during[i]
  {
    at := |before| - StaleCount(before, target) + i;
  }

  lemma PostingsNonempty(stories: seq<Story>, base: nat, i: nat, j: nat)
    requires i < |stories| && j < |stories[i].keywords|
    ensures |Postings(stories, base, stories[i].keywords[j].token)| > 0
  {
    PostingsComplete(stories, base, i, j);
  }

  lemma CycleLeaves(s: State, before: seq<Story>, base: nat, target: int, during: seq<Story>, t: Token)
    requires Setting(s, before, base, during)
    ensures ListOf(Cycle(s, target, during).index, t).nodes
            == Left(s.index, t, target, Postings(during, base + |before|, t))
  {
    CycleList(s, target, during, t);
    ListBeforeClear(s, before, base, target, during, t);
  }

  lemma PushSurvives(s: State, before: seq<Story>, base: nat, target: int, during: seq<Story>, i: nat, j: nat)
    requires Setting(s, before, base, during) && i < |during| && j < |during[i].keywords|
    requires during[i].keywords[j].token in s.index
    requires OnlyFreshLeft(s, before, base, target, during)
    ensures Young(s.index[during[i].keywords[j].token].nodes, target) > 0
  {
    var t := during[i].keywords[j].token;
    RemainingHas(before, base, target, during, i, j);
    CycleLeaves(s, before, base, target, during, t);
    FreshLeftList(s, before, base, target, during, t);
    LeftNothing(s.index, t, target, Postings(during, base + |before|, t));
  }

  lemma FreshLeftList(s: State, before: seq<Story>, base: nat, target: int, during: seq<Story>, t: Token)
    requires OnlyFreshLeft(s, before, base, target, during)
    ensures ListOf(Cycle(s, target, during).index, t).nodes
            == Postings(Remaining(before, target, during), base + StaleCount(before, target), t)
  {
  }

  lemma LeftNothing(index: Index, t: Token, target: int, d: seq<Posting>)
    requires t in index && |Left(index, t, target, d)| > 0
    ensures Young(index[t].nodes, target) > 0
  {
  }

  lemma FreshLeftMeansStale(s: State, before: seq<Story>, base: nat, target: int, during: seq<Story>)
    requires Setting(s, before, base, during) && OnlyFreshLeft(s, before, base, target, during)
    ensures WhollyStale(before, target)
  {
    forall i | 0 <= i < StaleCount(before, target)
      ensures AllStale(before[i], target)
    {
      StaleStoryHasKeyword(s, before, base, target, during, i);
      forall j | 0 <= j < |before[i].keywords|
        ensures before[i].keywords[j].stamp < target
      {
        StalePostingGone(s, before, base, target, during, i, j);
      }
    }
  }

  lemma FreshLeftMeansSurvived(s: State, before: seq<Story>, base: nat, target: int, during: seq<Story>)
    requires Setting(s, before, base, during) && OnlyFreshLeft(s, before, base, target, during)
    ensures PushesSurvive(s.index, target, during)
  {
    forall i, j | 0 <= i < |during| && 0 <= j < |during[i].keywords| && during[i].keywords[j].token in s.index
      ensures Young(s.index[during[i].keywords[j].token].nodes, target) > 0
    {
      PushSurvives(s, before, base, target, during, i, j);
    }
  }

  /** Cleaning commutes with indexing: marking for the target time, indexing more stories meanwhile and
      clearing leaves exactly the postings and attachments of indexing the stories that arrived at
      the target time or later, if and only if every stale story had postings and only stale ones, and
      no story pushed meanwhile met a list without a young posting. */
  lemma CleaningCommutes(s: State, before: seq<Story>, base: nat, target: int, during: seq<Story>)
    requires Setting(s, before, base, during)
    ensures OnlyFreshLeft(s, before, base, target, during)
            <==> WhollyStale(before, target) && PushesSurvive(s.index, target, during)
  {
    if WhollyStale(before, target) && PushesSurvive(s.index, target, during) {
      CycleKeepsFresh(s, before, base, target, during);
    }
    if OnlyFreshLeft(s, before, base, target, during) {
      FreshLeftMeansStale(s, before, base, target, during);
      FreshLeftMeansSurvived(s, before, base, target, during);
    }
  }

  // ----- Whole runs

  /** What the builder and the cleaner do; between the mark and the clear of a cleaning more stories may
      be indexed. */
  datatype Op = Add(story: Story) | Clean(target: int, during: seq<Story>)

  ghost function Run(ops: seq<Op>): (s: State) {
    if ops == [] then State(map[], map[], 1)
    else
      var s := Run(ops[..|ops| - 1]);
      match ops[|ops| - 1]
      case Add(story) => Added(s, story)
      case Clean(target, during) => Cycle(s, target, during)
  }

  /** The stories that no cleaning found stale, and the id of the oldest of them. */
  function Live(ops: seq<Op>): (stories: seq<Story>) {
    if ops == [] then []
    else
      var live := Live(ops[..|ops| - 1]);
      match ops[|ops| - 1]
      case Add(story) => live + [story]
      case Clean(target, during) => Remaining(live, target, during)
  }

  function FirstId(ops: seq<Op>): (id: nat) {
    if ops == [] then 1
    else
      var prefix := ops[..|ops| - 1];
      match ops[|ops| - 1]
      case Add(_) => FirstId(prefix)
      case Clean(target, _) => FirstId(prefix) + StaleCount(Live(prefix), target)
  }

  /** Stories come in the order of the clock, and every cleaning meets the condition under which it
      commutes with indexing. */
  ghost predicate ProperRun(ops: seq<Op>) {
    && Timely(Live(ops))
    && (ops == [] || (
          var prefix := ops[..|ops| - 1];
          && ProperRun(prefix)
          && match ops[|ops| - 1]
             case Add(_) => true
             case Clean(target, during) =>
               WhollyStale(Live(prefix), target) && PushesSurvive(Run(prefix).index, target, during)))
  }

  lemma CleanStep(s: State, live: seq<Story>, id: nat, target: int, during: seq<Story>)
    requires Represents(s, live, id) && Timely(live) && Timely(Remaining(live, target, during))
    requires WhollyStale(live, target) && PushesSurvive(s.index, target, during)
    ensures Represents(Cycle(s, target, during), Remaining(live, target, during), id + StaleCount(live, target))
  {
    var rest, k := Remaining(live, target, during), |live| - StaleCount(live, target);
    forall i | 0 <= i < |during|
      ensures Distinct(during[i])
    {
      assert rest[k + i] == during[i];
      assert Distinct(rest[k + i]);
    }
    CycleKeepsFresh(s, live, id, target, during);
  }

  /** In every run the index is exactly that of the stories no cleaning found stale, under the ids
      the builder gave them. */
  lemma {:induction false} RunIndexesTheFresh(ops: seq<Op>)
    requires ProperRun(ops)
    ensures Represents(Run(ops), Live(ops), FirstId(ops))
  {
    if ops != [] {
      var prefix := ops[..|ops| - 1];
      RunIndexesTheFresh(prefix);
      match ops[|ops| - 1]
      case Add(story) => AddedRepresents(Run(prefix), Live(prefix), FirstId(prefix), story);
      case Clean(target, during) => CleanStep(Run(prefix), Live(prefix), FirstId(prefix), target, during);
    }
  }

  /** The story came with this operation. */
  ghost predicate Brings(op: Op, story: Story) {
    match op
    case Add(s) => s == story
    case Clean(_, during) => story in during
  }

  /** It came with operation i, and no cleaning since had a target past its arrival. */
  ghost predicate Stays(ops: seq<Op>, i: nat, story: Story)
    requires i < |ops|
  {
    Brings(ops[i], story) && forall k | i < k < |ops| && ops[k].Clean? :: ops[k].target <= story.arrival
  }

  lemma RemainingIff(before: seq<Story>, target: int, during: seq<Story>, story: Story)
    requires Ordered(before)
    ensures story in Remaining(before, target, during) <==> (story in before && story.arrival >= target) || story in during
  {
    var k := StaleCount(before, target);
    assert before == before[..k] + before[k..];
    forall i | 0 <= i < |before|
      ensures before[i].arrival >= target <==> k <= i
    {
      if i < k {
        StaleArrived(before, target, i);
      } else {
        assert k < i ==> Arrival(before, k) <= Arrival(before, i);
      }
    }
  }

  lemma StaysStep(ops: seq<Op>, i: nat, story: Story)
    requires i < |ops| - 1
    ensures var n := |ops| - 1;
            Stays(ops, i, story) <==> Stays(ops[..n], i, story) && (ops[n].Clean? ==> ops[n].target <= story.arrival)
  {
    var n := |ops| - 1;
    assert forall k | 0 <= k < n :: ops[..n][k] == ops[k];
  }

  /** The live stories are those that came and that no later cleaning found too old. */
  lemma {:induction false} LiveIff(ops: seq<Op>, story: Story)
    requires ProperRun(ops)
    ensures story in Live(ops) <==> exists i | 0 <= i < |ops| :: Stays(ops, i, story)
  {
    if ops != [] {
      var n := |ops| - 1;
      LiveIff(ops[..n], story);
      forall i | 0 <= i < n
        ensures Stays(ops, i, story) <==> Stays(ops[..n], i, story) && (ops[n].Clean? ==> ops[n].target <= story.arrival)
      {
        StaysStep(ops, i, story);
      }
      assert Stays(ops, n, story) <==> Brings(ops[n], story);
      if ops[n].Clean? {
        RemainingIff(Live(ops[..n]), ops[n].target, ops[n].during, story);
      }
    }
  }

  /** One clock reading and at least one keyword per story. */
  ghost predicate Stamped(story: Story) {
    story.keywords != [] && forall j | 0 <= j < |story.keywords| :: story.keywords[j].stamp == story.arrival
  }

  lemma {:induction false} StaleArrived(stories: seq<Story>, target: int, i: nat)
    requires i < StaleCount(stories, target)
    ensures stories[i].arrival < target
  {
    if i > 0 {
      StaleArrived(stories[1..], target, i - 1);
    }
  }

  /** Stories with one clock reading and a keyword each are always wholly stale, so cleaning them
      commutes with indexing whenever nothing is pushed meanwhile. */
  lemma StampedGoWholly(stories: seq<Story>, target: int)
    requires forall i | 0 <= i < |stories| :: Stamped(stories[i])
    ensures WhollyStale(stories, target)
  {
    forall i | 0 <= i < StaleCount(stories, target)
      ensures AllStale(stories[i], target)
    {
      StaleArrived(stories, target, i);
    }
  }
}
