/** Retrieval over the index gives what a scan through the indexed stories gives. */
module ForwardScan {
  import opened PostingList
  import opened Indexing
  import opened Cleaning
  import opened Retrieval

  /** How many of the request keywords, counted with repetition, the story has. */
  ghost function Count(request: seq<Token>, story: Story): (n: nat) {
    if request == [] then 0
    else
      Count(request[..|request| - 1], story)
      + if request[|request| - 1] in Tokens(story.keywords) then 1 else 0
  }

  /** One pass through the stories, oldest first. */
  ghost function Scan(request: seq<Token>, bar: real, stories: seq<Story>): (es: seq<Entry>) {
    if stories == [] then []
    else
      var story := stories[|stories| - 1];
      var n := Count(request, story);
      var older := Scan(request, bar, stories[..|stories| - 1]);
      if n > 0 then WithEntry(older, story.globalId, n, bar) else older
  }

  // ----- Which stories are answered with

  /** The places in the request whose keyword the story has. */
  ghost function Matches(request: seq<Token>, tokens: set<Token>): (at: set<nat>) {
    set i | 0 <= i < |request| && request[i] in tokens
  }

  lemma MatchesStep(request: seq<Token>, tokens: set<Token>)
    requires request != []
    ensures var n := |request| - 1;
            var before := |Matches(request[..n], tokens)|;
            |Matches(request, tokens)| == if request[n] in tokens then before + 1 else before
  {
    var n := |request| - 1;
    var before := Matches(request[..n], tokens);
    assert forall i | 0 <= i < n :: request[..n][i] == request[i];
    assert Matches(request, tokens) == if request[n] in tokens then before + {n} else before;
  }

  /** The count is the number of those places. */
  lemma {:induction false} CountMeaning(request: seq<Token>, story: Story)
    ensures Count(request, story) == |Matches(request, Tokens(story.keywords))|
  {
    if request != [] {
      CountMeaning(request[..|request| - 1], story);
      MatchesStep(request, Tokens(story.keywords));
    }
  }

  /** The story has a request keyword, and at least the given ratio of all of them. */
  ghost predicate Passes(request: seq<Token>, ratio: real, story: Story) {
    Count(request, story) > 0 && Count(request, story) as real >= ratio * (|request| as real)
  }

  ghost function Passing(request: seq<Token>, ratio: real, stories: seq<Story>): (at: set<nat>) {
    set i | 0 <= i < |stories| && Passes(request, ratio, stories[i])
  }

  /** The story passes, and this is its entry: its global id and the number of request keywords it has. */
  ghost predicate Holds(request: seq<Token>, ratio: real, story: Story, e: Entry) {
    Passes(request, ratio, story) && e.storyId == story.globalId && e.score == Count(request, story) as real
  }

  ghost function Holders(request: seq<Token>, ratio: real, stories: seq<Story>, e: Entry): (at: set<nat>) {
    set i | 0 <= i < |stories| && Holds(request, ratio, stories[i], e)
  }

  /** Every story that passes has its entry, once, among the results or those left out, and there
      are no others; the results come best first, and none that is left out beats one of them. */
  ghost predicate Divides(results: seq<Entry>, left: multiset<Entry>, request: seq<Token>, ratio: real, stories: seq<Story>) {
    && Descending(results)
    && (forall e :: (multiset(results) + left)[e] == |Holders(request, ratio, stories, e)|)
    && forall a, b | a in results && b in left :: a.score >= b.score
  }

  ghost predicate BestOf(r: Response, request: seq<Token>, ratio: real, stories: seq<Story>, maxReturn: int) {
    var total := |Passing(request, ratio, stories)|;
    && r.code == Ok
    && r.numResults == (if total > maxReturn then maxReturn else total)
    && |r.results| == (if r.numResults < 0 then 0 else r.numResults)
    && exists left :: Divides(r.results, left, request, ratio, stories)
  }

  lemma HoldersStep(request: seq<Token>, ratio: real, stories: seq<Story>, e: Entry)
    requires stories != []
    ensures var n := |stories| - 1;
            var before := |Holders(request, ratio, stories[..n], e)|;
            |Holders(request, ratio, stories, e)| == if Holds(request, ratio, stories[n], e) then before + 1 else before
  {
    var n := |stories| - 1;
    var before := Holders(request, ratio, stories[..n], e);
    assert forall i | 0 <= i < n :: stories[..n][i] == stories[i];
    assert Holders(request, ratio, stories, e) == if Holds(request, ratio, stories[n], e) then before + {n} else before;
  }

  lemma PassingStep(request: seq<Token>, ratio: real, stories: seq<Story>)
    requires stories != []
    ensures var n := |stories| - 1;
            var before := |Passing(request, ratio, stories[..n])|;
            |Passing(request, ratio, stories)| == if Passes(request, ratio, stories[n]) then before + 1 else before
  {
    var n := |stories| - 1;
    var before := Passing(request, ratio, stories[..n]);
    assert forall i | 0 <= i < n :: stories[..n][i] == stories[i];
    assert Passing(request, ratio, stories) == if Passes(request, ratio, stories[n]) then before + {n} else before;
  }

  /** The scan finds exactly the stories that pass. */
  lemma {:induction false} ScanFindsPassing(request: seq<Token>, ratio: real, stories: seq<Story>)
    ensures var es := Scan(request, ratio * (|request| as real), stories);
            && |es| == |Passing(request, ratio, stories)|
            && forall e :: multiset(es)[e] == |Holders(request, ratio, stories, e)|
    decreases |stories|
  {
    var bar := ratio * (|request| as real);
    var es := Scan(request, bar, stories);
    if stories != [] {
      var n := |stories| - 1;
      var older := Scan(request, bar, stories[..n]);
      var count := Count(request, stories[n]);
      ScanFindsPassing(request, ratio, stories[..n]);
      PassingStep(request, ratio, stories);
      assert es == if Passes(request, ratio, stories[n]) then older + [Entry(stories[n].globalId, count as real)] else older;
      forall e
        ensures multiset(es)[e] == |Holders(request, ratio, stories, e)|
      {
        HoldersStep(request, ratio, stories, e);
        assert multiset(older)[e] == |Holders(request, ratio, stories[..n], e)|;
      }
    }
  }

  /** The best of a scan are the best of the stories that pass. */
  lemma ScanAnswersBest(r: Response, request: seq<Token>, ratio: real, stories: seq<Story>, maxReturn: int)
    requires Answers(r, Scan(request, ratio * (|request| as real), stories), maxReturn)
    ensures BestOf(r, request, ratio, stories, maxReturn)
  {
    var es := Scan(request, ratio * (|request| as real), stories);
    ScanFindsPassing(request, ratio, stories);
    var left :| TopOf(r.results, left, es);
    assert Divides(r.results, left, request, ratio, stories);
  }

  // ----- The score of a document

  lemma {:induction false} ListHitsConcat(a: seq<Posting>, b: seq<Posting>, t: Token, d: nat)
    ensures ListHits(a + b, t, d) == ListHits(a, t, d) + ListHits(b, t, d)
  {
    if b == [] {
      assert a + b == a;
    } else {
      var n := |b| - 1;
      assert (a + b)[..|a| + n] == a + b[..n];
      ListHitsConcat(a, b[..n], t, d);
    }
  }

  lemma {:induction false} ListHitsNone(nodes: seq<Posting>, t: Token, d: nat)
    requires forall i | 0 <= i < |nodes| :: nodes[i].id != d
    ensures ListHits(nodes, t, d) == []
  {
    if nodes != [] {
      ListHitsNone(nodes[..|nodes| - 1], t, d);
    }
  }

  lemma {:induction false} ListHitsAll(nodes: seq<Posting>, t: Token, d: nat)
    requires forall i | 0 <= i < |nodes| :: nodes[i].id == d
    ensures |ListHits(nodes, t, d)| == |nodes|
  {
    if nodes != [] {
      ListHitsAll(nodes[..|nodes| - 1], t, d);
    }
  }

  lemma {:induction false} StoryPostingsIds(keywords: seq<Keyword>, id: nat, t: Token)
    ensures forall i | 0 <= i < |StoryPostings(keywords, id, t)| :: StoryPostings(keywords, id, t)[i].id == id
  {
    if keywords != [] {
      StoryPostingsIds(keywords[..|keywords| - 1], id, t);
    }
  }

  /** A story is in the list of a token once when it has the keyword, and else not at all. */
  lemma StoryPostingsCount(story: Story, id: nat, t: Token)
    requires Distinct(story)
    ensures |StoryPostings(story.keywords, id, t)| == if t in Tokens(story.keywords) then 1 else 0
  {
    StoryPostingsAtMostOne(story.keywords, id, t);
    StoryPostingsOutside(story.keywords, id, t);
    if t in Tokens(story.keywords) {
      var j :| 0 <= j < |story.keywords| && story.keywords[j].token == t;
      StoryPostingsComplete(story.keywords, id, j);
    }
  }

  ghost predicate AllDistinct(stories: seq<Story>) {
    forall i {:trigger Distinct(stories[i])} | 0 <= i < |stories| :: Distinct(stories[i])
  }

  lemma AllDistinctPrefix(stories: seq<Story>, n: nat)
    requires AllDistinct(stories) && n <= |stories|
    ensures AllDistinct(stories[..n])
  {
    forall i | 0 <= i < n
      ensures Distinct(stories[..n][i])
    {
      assert Distinct(stories[i]);
    }
  }

  lemma OwnScore(story: Story, id: nat, t: Token)
    requires Distinct(story)
    ensures |ListHits(StoryPostings(story.keywords, id, t), t, id)| == if t in Tokens(story.keywords) then 1 else 0
  {
    StoryPostingsIds(story.keywords, id, t);
    ListHitsAll(StoryPostings(story.keywords, id, t), t, id);
    StoryPostingsCount(story, id, t);
  }

  lemma ScoreOnTop(story: Story, id: nat, t: Token, below: seq<Posting>)
    requires Distinct(story) && ListHits(below, t, id) == []
    ensures |ListHits(StoryPostings(story.keywords, id, t) + below, t, id)| == if t in Tokens(story.keywords) then 1 else 0
  {
    OwnScore(story, id, t);
    ListHitsConcat(StoryPostings(story.keywords, id, t), below, t, id);
  }

  /** Only the newest story's own postings count for it, and they count for no other. */
  lemma NewestScore(stories: seq<Story>, base: nat, t: Token)
    requires AllDistinct(stories) && stories != []
    ensures var n := |stories| - 1;
            |ListHits(Postings(stories, base, t), t, base + n)| == if t in Tokens(stories[n].keywords) then 1 else 0
  {
    var n := |stories| - 1;
    assert Distinct(stories[n]);
    ListScoreOutside(stories[..n], base, t, base + n);
    ScoreOnTop(stories[n], base + n, t, Postings(stories[..n], base, t));
  }

  lemma OlderScore(stories: seq<Story>, base: nat, t: Token, d: nat)
    requires stories != [] && d != base + |stories| - 1
    ensures ListHits(Postings(stories, base, t), t, d) == ListHits(Postings(stories[..|stories| - 1], base, t), t, d)
  {
    var n := |stories| - 1;
    var top, below := StoryPostings(stories[n].keywords, base + n, t), Postings(stories[..n], base, t);
    ListHitsConcat(top, below, t, d);
    StoryPostingsIds(stories[n].keywords, base + n, t);
    ListHitsNone(top, t, d);
  }

  lemma {:induction false} ListScore(stories: seq<Story>, base: nat, t: Token, i: nat)
    requires AllDistinct(stories) && i < |stories|
    ensures |ListHits(Postings(stories, base, t), t, base + i)| == if t in Tokens(stories[i].keywords) then 1 else 0
  {
    var n := |stories| - 1;
    if i == n {
      NewestScore(stories, base, t);
    } else {
      AllDistinctPrefix(stories, n);
      OlderScore(stories, base, t, base + i);
      ListScore(stories[..n], base, t, i);
    }
  }

  lemma ListScoreOutside(stories: seq<Story>, base: nat, t: Token, d: nat)
    requires !(base <= d < base + |stories|)
    ensures ListHits(Postings(stories, base, t), t, d) == []
  {
    var nodes := Postings(stories, base, t);
    forall i | 0 <= i < |nodes|
      ensures nodes[i].id != d
    {
      var i', j' := PostingsSound(stories, base, t, nodes[i]);
    }
    ListHitsNone(nodes, t, d);
  }

  /** What iterators see of the index is the index of these stories. */
  ghost predicate Shows(index: Index, stories: seq<Story>, base: nat) {
    AllDistinct(stories) && forall t :: Kept(ListOf(index, t)) == Postings(stories, base, t)
  }

  /** The score of a document is the number of request keyword occurrences in its story. */
  lemma {:induction false} ScoreIsCount(index: Index, stories: seq<Story>, base: nat, request: seq<Token>, i: nat)
    requires Shows(index, stories, base) && i < |stories|
    ensures Score(index, request, base + i) == Count(request, stories[i])
  {
    if request != [] {
      var t := request[|request| - 1];
      ScoreIsCount(index, stories, base, request[..|request| - 1], i);
      ListScore(stories, base, t, i);
    }
  }

  lemma {:induction false} NoScoreOutside(index: Index, stories: seq<Story>, base: nat, request: seq<Token>, d: nat)
    requires Shows(index, stories, base) && !(base <= d < base + |stories|)
    ensures Score(index, request, d) == 0
  {
    if request != [] {
      var t := request[|request| - 1];
      NoScoreOutside(index, stories, base, request[..|request| - 1], d);
      ListScoreOutside(stories, base, t, d);
    }
  }

  // ----- The hit documents

  /** The ids of the stories that are hit, in ascending order. */
  ghost function HitIds(request: seq<Token>, stories: seq<Story>, base: nat): (ids: seq<nat>) {
    if stories == [] then []
    else
      var n := |stories| - 1;
      var older := HitIds(request, stories[..n], base);
      if Count(request, stories[n]) > 0 then older + [base + n] else older
  }

  lemma {:induction false} HitIdsAscend(request: seq<Token>, stories: seq<Story>, base: nat)
    ensures var ids := HitIds(request, stories, base);
            Ascending(ids) && forall i | 0 <= i < |ids| :: ids[i] < base + |stories|
  {
    if stories != [] {
      var older, ids := HitIds(request, stories[..|stories| - 1], base), HitIds(request, stories, base);
      HitIdsAscend(request, stories[..|stories| - 1], base);
      forall i, j | 0 <= i < j < |ids|
        ensures Rises(ids, i, j)
      {
        if j < |older| {
          assert Rises(older, i, j);
        }
      }
    }
  }

  lemma {:induction false} HitIdsMeaning(request: seq<Token>, stories: seq<Story>, base: nat, d: nat)
    ensures d in HitIds(request, stories, base)
            <==> base <= d < base + |stories| && Count(request, stories[d - base]) > 0
  {
    if stories != [] {
      HitIdsMeaning(request, stories[..|stories| - 1], base, d);
    }
  }

  lemma NoElement(s: seq<nat>)
    ensures s == [] || exists d :: d in s
  {
    if s != [] {
      assert s[0] in s;
    }
  }

  lemma InPrefix(a: seq<nat>, d: nat)
    requires Ascending(a) && a != []
    ensures d in a[..|a| - 1] <==> d in a && d != a[|a| - 1]
  {
    var n := |a| - 1;
    assert a == a[..n] + [a[n]];
    if d in a[..n] {
      var i :| 0 <= i < n && a[i] == d;
      assert Rises(a, i, n);
    }
  }

  lemma PrefixAscends(a: seq<nat>)
    requires Ascending(a) && a != []
    ensures Ascending(a[..|a| - 1])
  {
    var b := a[..|a| - 1];
    forall i, j | 0 <= i < j < |b|
      ensures Rises(b, i, j)
    {
      assert Rises(a, i, j);
    }
  }

  lemma LastIsLargest(a: seq<nat>, d: nat)
    requires Ascending(a) && d in a
    ensures d <= a[|a| - 1]
  {
    var i :| 0 <= i < |a| && a[i] == d;
    if i < |a| - 1 {
      assert Rises(a, i, |a| - 1);
    }
  }

  /** An ascending sequence is determined by its elements. */
  lemma {:induction false} AscendingUnique(a: seq<nat>, b: seq<nat>)
    requires Ascending(a) && Ascending(b) && forall d: nat :: d in a <==> d in b
    ensures a == b
  {
    if a == [] {
      NoElement(b);
    } else if b == [] {
      NoElement(a);
    } else {
      var m, n := |a| - 1, |b| - 1;
      assert a[m] in b && b[n] in a;
      LastIsLargest(a, b[n]);
      LastIsLargest(b, a[m]);
      PrefixAscends(a);
      PrefixAscends(b);
      forall d: nat
        ensures d in a[..m] <==> d in b[..n]
      {
        InPrefix(a, d);
        InPrefix(b, d);
      }
      AscendingUnique(a[..m], b[..n]);
      assert a == a[..m] + [a[m]] && b == b[..n] + [b[n]];
    }
  }

  /** The i-th story is scored and named as it should be. */
  ghost predicate Fits(scores: nat -> nat, names: nat -> int, stories: seq<Story>, base: nat, request: seq<Token>, i: nat)
    requires i < |stories|
  {
    scores(base + i) == Count(request, stories[i]) && names(base + i) == stories[i].globalId
  }

  lemma {:induction false} SelectedIsScan(scores: nat -> nat, names: nat -> int, stories: seq<Story>, base: nat, request: seq<Token>, bar: real)
    requires forall i | 0 <= i < |stories| :: Fits(scores, names, stories, base, request, i)
    ensures Selected(scores, names, bar, HitIds(request, stories, base)) == Scan(request, bar, stories)
    decreases |stories|
  {
    if stories != [] {
      var n := |stories| - 1;
      var older := stories[..n];
      forall i | 0 <= i < n
        ensures Fits(scores, names, older, base, request, i)
      {
        assert Fits(scores, names, stories, base, request, i);
      }
      SelectedIsScan(scores, names, older, base, request, bar);
      assert Fits(scores, names, stories, base, request, n);
      if Count(request, stories[n]) > 0 {
        SelectedStep(scores, names, bar, HitIds(request, older, base), base + n);
      }
    }
  }

  lemma ScoreOf(index: Index, stories: seq<Story>, base: nat, request: seq<Token>, d: nat)
    requires Shows(index, stories, base)
    ensures Score(index, request, d) == if base <= d < base + |stories| then Count(request, stories[d - base]) else 0
  {
    if base <= d < base + |stories| {
      ScoreIsCount(index, stories, base, request, d - base);
    } else {
      NoScoreOutside(index, stories, base, request, d);
    }
  }

  lemma HitIffCounted(index: Index, stories: seq<Story>, base: nat, request: seq<Token>, d: nat)
    requires Shows(index, stories, base)
    ensures Score(index, request, d) > 0 <==> d in HitIds(request, stories, base)
  {
    HitIdsMeaning(request, stories, base, d);
    ScoreOf(index, stories, base, request, d);
  }

  lemma DocsAreHitIds(index: Index, stories: seq<Story>, base: nat, request: seq<Token>, docs: seq<nat>)
    requires Shows(index, stories, base) && AreHit(index, request, docs)
    ensures docs == HitIds(request, stories, base)
  {
    HitIdsAscend(request, stories, base);
    forall d: nat
      ensures d in docs <==> d in HitIds(request, stories, base)
    {
      HitIffCounted(index, stories, base, request, d);
    }
    AscendingUnique(docs, HitIds(request, stories, base));
  }

  ghost predicate Named(att: map<nat, int>, stories: seq<Story>, base: nat) {
    forall i | 0 <= i < |stories| :: GlobalId(att, base + i) == stories[i].globalId
  }

  /** The selected entries of the hit documents are those of a scan through the stories. */
  lemma HitDocsAreScanned(index: Index, att: map<nat, int>, stories: seq<Story>, base: nat, request: seq<Token>, bar: real, docs: seq<nat>)
    requires Shows(index, stories, base) && Named(att, stories, base) && AreHit(index, request, docs)
    ensures Selected(Scores(index, request), Names(att), bar, docs) == Scan(request, bar, stories)
  {
    DocsAreHitIds(index, stories, base, request, docs);
    HitIdsAreScanned(index, att, stories, base, request, bar);
  }

  lemma HitIdsAreScanned(index: Index, att: map<nat, int>, stories: seq<Story>, base: nat, request: seq<Token>, bar: real)
    requires Shows(index, stories, base) && Named(att, stories, base)
    ensures Selected(Scores(index, request), Names(att), bar, HitIds(request, stories, base)) == Scan(request, bar, stories)
  {
    forall i | 0 <= i < |stories|
      ensures Fits(Scores(index, request), Names(att), stories, base, request, i)
    {
      ScoreIsCount(index, stories, base, request, i);
    }
    SelectedIsScan(Scores(index, request), Names(att), stories, base, request, bar);
  }

  /** Retrieval answers with the best of the stories that the index shows and that pass. */
  method RetrieveShown(ix: InstantIndex, request: seq<Token>, ratio: real, maxReturn: int,
                       ghost stories: seq<Story>, ghost base: nat) returns (r: Response)
    requires WellMarked(ix.index) && Shows(ix.index, stories, base) && Named(ix.att, stories, base)
    ensures BestOf(r, request, ratio, stories, maxReturn)
  {
    r := Retrieve(ix, request, ratio, maxReturn);
    ghost var docs :| AreHit(ix.index, request, docs)
                      && Answers(r, Selected(Scores(ix.index, request), Names(ix.att), ratio * (|request| as real), docs), maxReturn);
    HitDocsAreScanned(ix.index, ix.att, stories, base, request, ratio * (|request| as real), docs);
    ScanAnswersBest(r, request, ratio, stories, maxReturn);
  }

  // ----- A quiet index

  /** It holds these stories, and no list is marked. */
  ghost predicate Quiet(s: State, stories: seq<Story>, base: nat) {
    Represents(s, stories, base) && AllDistinct(stories) && forall t :: ListOf(s.index, t).mark == Unmarked
  }

  lemma QuietShows(s: State, stories: seq<Story>, base: nat)
    requires Quiet(s, stories, base)
    ensures WellMarked(s.index) && Shows(s.index, stories, base) && Named(s.att, stories, base)
  {
    forall t
      ensures Kept(ListOf(s.index, t)) == Postings(stories, base, t)
      ensures t in s.index ==> Falling(s.index[t].nodes) && MarkPlaced(s.index[t])
    {
      PostingsFalling(stories, base, t);
      assert ListOf(s.index, t).mark == Unmarked;
      assert ListOf(s.index, t).nodes == Postings(stories, base, t);
    }
    AttachmentsName(stories, base);
  }

  lemma AttachmentsName(stories: seq<Story>, base: nat)
    ensures Named(Attachments(stories, base), stories, base)
  {
    forall i | 0 <= i < |stories|
      ensures GlobalId(Attachments(stories, base), base + i) == stories[i].globalId
    {
      assert GlobalIdAt(stories, base, base + i) == stories[i].globalId;
    }
  }

  method RetrieveQuiet(ix: InstantIndex, request: seq<Token>, ratio: real, maxReturn: int,
                       ghost stories: seq<Story>, ghost base: nat) returns (r: Response)
    requires Quiet(ix.Value(), stories, base)
    ensures BestOf(r, request, ratio, stories, maxReturn)
  {
    QuietShows(ix.Value(), stories, base);
    r := RetrieveShown(ix, request, ratio, maxReturn, stories, base);
  }

  // ----- Between mark and clear

  /** The condition of a cleaning that commutes with indexing. */
  ghost predicate Commuting(s: State, before: seq<Story>, base: nat, target: int, during: seq<Story>) {
    Setting(s, before, base, during) && WhollyStale(before, target) && PushesSurvive(s.index, target, during)
  }

  lemma PlacedBehind(nodes: seq<Posting>, pushed: seq<Posting>, l: List)
    requires l.nodes == pushed + nodes && MarkPlaced(List(nodes, l.mark))
    ensures MarkPlaced(l)
  {
    if l.mark.AtNode? {
      var i :| 0 <= i < |nodes| && nodes[i].id == l.mark.id;
      assert l.nodes[|pushed| + i].id == l.mark.id;
    }
  }

  lemma MidwayWellMarked(s: State, before: seq<Story>, base: nat, target: int, during: seq<Story>)
    requires Setting(s, before, base, during)
    ensures WellMarked(Midway(s, target, during).index)
  {
    var index := Midway(s, target, during).index;
    forall t | t in index
      ensures Falling(index[t].nodes) && MarkPlaced(index[t])
    {
      ListBeforeClear(s, before, base, target, during, t);
      if t in s.index {
        MarkForMarks(s.index[t].nodes, target, AtFront);
        PlacedBehind(s.index[t].nodes, Postings(during, base + |before|, t), index[t]);
      }
    }
  }

  lemma RemainingDistinct(before: seq<Story>, target: int, during: seq<Story>)
    requires AllDistinct(before) && AllDistinct(during)
    ensures AllDistinct(Remaining(before, target, during))
  {
    var rest, k := Remaining(before, target, during), StaleCount(before, target);
    forall i | 0 <= i < |rest|
      ensures Distinct(rest[i])
    {
      if i < |before| - k {
        assert rest[i] == before[k + i];
        assert Distinct(before[k + i]);
      } else {
        assert rest[i] == during[i - (|before| - k)];
        assert Distinct(during[i - (|before| - k)]);
      }
    }
  }

  /** Iterators already see what the clear will leave. */
  lemma MidwayShows(s: State, before: seq<Story>, base: nat, target: int, during: seq<Story>)
    requires Commuting(s, before, base, target, during)
    ensures Shows(Midway(s, target, during).index, Remaining(before, target, during), base + StaleCount(before, target))
  {
    RemainingDistinct(before, target, during);
    forall t
      ensures Kept(ListOf(Midway(s, target, during).index, t))
              == Postings(Remaining(before, target, during), base + StaleCount(before, target), t)
    {
      ListsAfterCycle(s, before, base, target, during, t);
      FreshPostings(before, base, target, during, t);
    }
  }

  lemma TailNamed(stories: seq<Story>, base: nat, k: nat)
    requires k <= |stories|
    ensures Named(Attachments(stories, base), stories[k..], base + k)
  {
    AttachmentsName(stories, base);
    forall i | 0 <= i < |stories| - k
      ensures GlobalId(Attachments(stories, base), base + k + i) == stories[k..][i].globalId
    {
      assert GlobalId(Attachments(stories, base), base + (k + i)) == stories[k + i].globalId;
    }
  }

  lemma MidwayNamed(s: State, before: seq<Story>, base: nat, target: int, during: seq<Story>)
    requires Represents(s, before, base)
    ensures Named(Midway(s, target, during).att, Remaining(before, target, during), base + StaleCount(before, target))
  {
    MidwayAttachments(s, before, base, target, during);
    RemainingNamed(before, base, target, during);
  }

  lemma RemainingNamed(before: seq<Story>, base: nat, target: int, during: seq<Story>)
    ensures Named(Attachments(before + during, base), Remaining(before, target, during), base + StaleCount(before, target))
  {
    var k := StaleCount(before, target);
    assert before[k..] + during == (before + during)[k..];
    TailNamed(before + during, base, k);
  }

  /** Retrieval between the mark and the clear already answers with the best of the stories that
      the clear leaves. */
  method RetrieveMarked(ix: InstantIndex, request: seq<Token>, ratio: real, maxReturn: int,
                        ghost s: State, ghost before: seq<Story>, ghost base: nat, ghost target: int, ghost during: seq<Story>)
    returns (r: Response)
    requires ix.Value() == Midway(s, target, during) && Commuting(s, before, base, target, during)
    ensures BestOf(r, request, ratio, Remaining(before, target, during), maxReturn)
  {
    MidwayWellMarked(s, before, base, target, during);
    MidwayShows(s, before, base, target, during);
    MidwayNamed(s, before, base, target, during);
    r := RetrieveShown(ix, request, ratio, maxReturn, Remaining(before, target, during), base + StaleCount(before, target));
  }

  // ----- From an empty index, through a whole run, to an answer

  lemma {:induction false} RunUnmarked(ops: seq<Op>)
    ensures forall t :: ListOf(Run(ops).index, t).mark == Unmarked
  {
    if ops != [] {
      RunUnmarked(ops[..|ops| - 1]);
    }
  }

  lemma RunIsQuiet(ops: seq<Op>)
    requires ProperRun(ops)
    ensures Quiet(Run(ops), Live(ops), FirstId(ops))
  {
    RunIndexesTheFresh(ops);
    RunUnmarked(ops);
  }

  /** The builder at work. */
  method AddStories(ix: InstantIndex, stories: seq<Story>)
    modifies ix
    ensures ix.Value() == AddAll(old(ix.Value()), stories)
  {
    assert stories[..0] == [];
    for i := 0 to |stories|
      invariant ix.Value() == AddAll(old(ix.Value()), stories[..i])
    {
      assert stories[..i + 1][..i] == stories[..i];
      ix.AddStory(stories[i]);
    }
    assert stories[..|stories|] == stories;
  }

  /** The builder and the cleaner at work on a new index. */
  method Process(ops: seq<Op>) returns (ix: InstantIndex)
    ensures fresh(ix) && ix.Value() == Run(ops)
  {
    ix := new InstantIndex();
    for i := 0 to |ops|
      invariant fresh(ix) && ix.Value() == Run(ops[..i])
    {
      assert ops[..i + 1][..i] == ops[..i];
      match ops[i] {
        case Add(story) => ix.AddStory(story);
        case Clean(target, during) =>
          ix.MarkAll(target);
          AddStories(ix, during);
          ix.ClearAll();
      }
    }
    assert ops[..|ops|] == ops;
  }

  /** After any proper run, retrieval answers with the best of the stories that no cleaning found
      stale: every one that has enough of the request keywords is scored by how many. */
  method RetrieveAfterRun(ops: seq<Op>, request: seq<Token>, ratio: real, maxReturn: int) returns (r: Response)
    requires ProperRun(ops)
    ensures BestOf(r, request, ratio, Live(ops), maxReturn)
  {
    var ix := Process(ops);
    RunIsQuiet(ops);
    r := RetrieveQuiet(ix, request, ratio, maxReturn, Live(ops), FirstId(ops));
  }
}
