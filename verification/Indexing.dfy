/** The inverted index: the builder adds stories, the cleaner marks and then clears stale postings. */
module Indexing {
  import opened Collections
  import opened PostingList

  datatype Token = Token(hash: int)

  /** A keyword of a story with the clock reading the builder takes when it pushes the posting. */
  datatype Keyword = Keyword(token: Token, weight: int, stamp: int)

  /** A story and the time at which the builder takes it from the pool. */
  datatype Story = Story(globalId: int, arrival: int, keywords: seq<Keyword>)

  type Index = map<Token, List>

  datatype State = State(index: Index, att: map<nat, int>, counter: nat)

  const Empty: List := List([], Unmarked)

  function ListOf(index: Index, t: Token): (l: List) {
    if t in index then index[t] else Empty
  }

  function Tokens(keywords: seq<Keyword>): (ts: set<Token>) {
    set i | 0 <= i < |keywords| :: keywords[i].token
  }

  // ----- What one operation does, token by token

  /** The postings of one story for a token, newest first. */
  function StoryPostings(keywords: seq<Keyword>, id: nat, t: Token): (nodes: seq<Posting>) {
    if keywords == [] then []
    else
      var last := keywords[|keywords| - 1];
      (if last.token == t then [Posting(id, last.weight, last.stamp)] else [])
      + StoryPostings(keywords[..|keywords| - 1], id, t)
  }

  function PushedIndex(index: Index, keywords: seq<Keyword>, id: nat): (index': Index) {
    map t | t in index.Keys + Tokens(keywords) ::
      List(StoryPostings(keywords, id, t) + ListOf(index, t).nodes, ListOf(index, t).mark)
  }

  function Added(s: State, story: Story): (s': State) {
    State(PushedIndex(s.index, story.keywords, s.counter), s.att[s.counter := story.globalId], s.counter + 1)
  }

  function MarkedIndex(index: Index, target: int): (index': Index) {
    map t | t in index :: Marked(index[t], target)
  }

  function MarkedAll(s: State, target: int): (s': State) {
    s.(index := MarkedIndex(s.index, target))
  }

  function ClearedIndex(index: Index): (index': Index) {
    map t | t in index :: Cleared(index[t])
  }

  /** The documents that lose a posting when the given lists are cleared. */
  ghost function DroppedDocs(index: Index, tokens: set<Token>): (ids: set<nat>) {
    set t, d | t in tokens && t in index && d in Dropped(index[t]) :: d
  }

  ghost function ClearedAll(s: State): (s': State) {
    State(ClearedIndex(s.index), s.att - DroppedDocs(s.index, s.index.Keys), s.counter)
  }

  /** The global id of a document; its local id when the attachment is gone. */
  function GlobalId(att: map<nat, int>, d: nat): (g: int) {
    if d in att then att[d] else d
  }

  // ----- The threads

  /** The maps that the builder, the cleaner and the readers share. */
  class InstantIndex {
    var index: Index
    var att: map<nat, int>
    var counter: nat

    ghost function Value(): (s: State)
      reads this
    {
      State(index, att, counter)
    }

    constructor ()
      ensures Value() == State(map[], map[], 1)
    {
      index, att, counter := map[], map[], 1;
    }

    /** First pass of AddStoryInternal: the tokens that have no list yet. */
    method NewTokens(keywords: seq<Keyword>) returns (tokens: seq<Token>)
      ensures forall t :: t in tokens <==> t in Tokens(keywords) && t !in index
    {
      tokens := [];
      for i := 0 to |keywords|
        invariant forall t :: t in tokens <==> t in Tokens(keywords[..i]) && t !in index
      {
        assert forall t :: t in Tokens(keywords[..i + 1]) <==> t in Tokens(keywords[..i]) || t == keywords[i].token
        by { TokensStep(keywords, i); }
        if keywords[i].token !in index {
          tokens := tokens + [keywords[i].token];
        }
      }
      assert keywords[..|keywords|] == keywords;
    }

    method CreateLists(tokens: seq<Token>)
      modifies this`index
      ensures index.Keys == old(index.Keys) + (set t | t in tokens)
      ensures forall t | t in index :: index[t] == if t in tokens then Empty else old(index[t])
    {
      for i := 0 to |tokens|
        invariant index.Keys == old(index.Keys) + (set t | t in tokens[..i])
        invariant forall t | t in index :: index[t] == if t in tokens[..i] then Empty else old(index[t])
      {
        assert forall t :: t in tokens[..i + 1] <==> t in tokens[..i] || t == tokens[i];
        index := index[tokens[i] := Empty];
      }
      assert tokens[..|tokens|] == tokens;
    }

    method PushPostings(keywords: seq<Keyword>, id: nat)
      requires Tokens(keywords) <= index.Keys
      modifies this`index
      ensures index == PushedIndex(old(index), keywords, id)
    {
      PushedNothing(index, id);
      for i := 0 to |keywords|
        invariant index == PushedIndex(old(index), keywords[..i], id)
      {
        var k := keywords[i];
        assert k.token in Tokens(keywords);
        PushedStep(old(index), keywords, i, id);
        index := index[k.token := Pushed(index[k.token], Posting(id, k.weight, k.stamp))];
      }
      assert keywords[..|keywords|] == keywords;
    }

    /** AddStoryInternal */
    method AddStory(story: Story)
      modifies this
      ensures Value() == Added(old(Value()), story)
    {
      var id := counter;
      counter := counter + 1;
      att := att[id := story.globalId];
      var tokens := NewTokens(story.keywords);
      CreateLists(tokens);
      PushedIntoCreated(old(index), index, story.keywords, id);
      PushPostings(story.keywords, id);
    }

    /** The marking phase of CleanOldStoryThread::Run. */
    method MarkAll(target: int)
      modifies this`index
      ensures Value() == MarkedAll(old(Value()), target)
    {
      var rest := index.Keys;
      while rest != {}
        invariant rest <= index.Keys == old(index.Keys)
        invariant forall t | t in index :: index[t] == if t in rest then old(index[t]) else Marked(old(index[t]), target)
      {
        var t :| t in rest;
        var l := MarkList(index[t], target);
        index, rest := index[t := l], rest - {t};
      }
    }

    /** The clear phase on one list: the documents behind the mark. */
    method CollectAfterMark(l: List) returns (docs: set<nat>)
      ensures docs == Dropped(l)
    {
      docs := {};
      if l.mark != Unmarked {
        var k := KeptCount(l);
        for i := k to |l.nodes|
          invariant docs == Ids(l.nodes[k..i])
        {
          IdsStep(l.nodes[k..], i - k);
          assert l.nodes[k..][..i - k] == l.nodes[k..i];
          assert l.nodes[k..][..i + 1 - k] == l.nodes[k..i + 1];
          docs := docs + {l.nodes[i].id};
        }
        assert l.nodes[k..|l.nodes|] == l.nodes[k..];
      }
    }

    /** The clear phase of CleanOldStoryThread::Run, then the deletion of the attachments. */
    method ClearAll()
      modifies this`index, this`att
      ensures Value() == ClearedAll(old(Value()))
    {
      var rest, docs := index.Keys, {};
      while rest != {}
        invariant rest <= index.Keys == old(index.Keys)
        invariant forall t | t in index :: index[t] == if t in rest then old(index[t]) else Cleared(old(index[t]))
        invariant att == old(att) && docs == DroppedDocs(old(index), old(index.Keys) - rest)
      {
        var t :| t in rest;
        var more := CollectAfterMark(index[t]);
        DroppedStep(old(index), old(index.Keys) - rest, t);
        assert old(index.Keys) - rest + {t} == old(index.Keys) - (rest - {t});
        docs := docs + more;
        index, rest := index[t := Cleared(index[t])], rest - {t};
      }
      assert old(index.Keys) - {} == old(index.Keys);
      DeleteAttachments(docs);
    }

    method DeleteAttachments(docs: set<nat>)
      modifies this`att
      ensures att == old(att) - docs
    {
      var rest := docs;
      while rest != {}
        invariant rest <= docs && att == old(att) - (docs - rest)
      {
        ghost var any := AnyOf(rest);
        var d :| d in rest;
        if d in att {
          att := att - {d};
        }
        rest := rest - {d};
      }
    }

    /** TranslateToGlobalID, into a result that holds the local id before the call. */
    method TranslateToGlobalId(id: nat) returns (found: bool, globalId: int)
      ensures found == (id in att)
      ensures globalId == GlobalId(att, id)
      ensures if found then globalId == att[id] else globalId == id
    {
      found, globalId := id in att, id;
      if found {
        globalId := att[id];
      }
    }
  }

  lemma TokensStep(keywords: seq<Keyword>, i: nat)
    requires i < |keywords|
    ensures Tokens(keywords[..i + 1]) == Tokens(keywords[..i]) + {keywords[i].token}
  {
    var a, b := keywords[..i], keywords[..i + 1];
    assert b == a + [keywords[i]];
    assert b[i] == keywords[i] && forall j | 0 <= j < i :: b[j] == a[j];
  }

  lemma PushedNothing(index: Index, id: nat)
    ensures PushedIndex(index, [], id) == index
  {
    assert forall t | t in index :: PushedIndex(index, [], id)[t] == index[t];
  }

  /** Creating the missing lists first makes no difference. */
  lemma PushedIntoCreated(index: Index, created: Index, keywords: seq<Keyword>, id: nat)
    requires created.Keys == index.Keys + Tokens(keywords)
    requires forall t | t in created :: created[t] == ListOf(index, t)
    ensures PushedIndex(created, keywords, id) == PushedIndex(index, keywords, id)
  {
    assert created.Keys + Tokens(keywords) == created.Keys;
  }

  lemma PushedStep(index: Index, keywords: seq<Keyword>, i: nat, id: nat)
    requires i < |keywords| && keywords[i].token in index
    ensures var k, before := keywords[i], PushedIndex(index, keywords[..i], id);
            && k.token in before
            && PushedIndex(index, keywords[..i + 1], id)
               == before[k.token := Pushed(before[k.token], Posting(id, k.weight, k.stamp))]
  {
    TokensStep(keywords, i);
    assert keywords[..i + 1][..i] == keywords[..i];
    var k, before, after := keywords[i], PushedIndex(index, keywords[..i], id), PushedIndex(index, keywords[..i + 1], id);
    var p := Posting(id, k.weight, k.stamp);
    var mine, nodes := StoryPostings(keywords[..i], id, k.token), index[k.token].nodes;
    assert ([p] + mine) + nodes == [p] + (mine + nodes);
    forall t | t in after && t != k.token
      ensures after[t] == before[t]
    {
      assert [] + StoryPostings(keywords[..i], id, t) == StoryPostings(keywords[..i], id, t);
    }
    assert after.Keys == before.Keys;
  }

  lemma IdsStep(nodes: seq<Posting>, i: nat)
    requires i < |nodes|
    ensures Ids(nodes[..i + 1]) == Ids(nodes[..i]) + {nodes[i].id}
  {
    var a, b := nodes[..i], nodes[..i + 1];
    assert b[i] == nodes[i] && forall j | 0 <= j < i :: b[j] == a[j];
  }

  lemma DroppedStep(index: Index, tokens: set<Token>, t: Token)
    requires t in index
    ensures DroppedDocs(index, tokens + {t}) == DroppedDocs(index, tokens) + Dropped(index[t])
  {
  }
}
