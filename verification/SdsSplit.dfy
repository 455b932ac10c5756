/** sdssplitlen: splitting a string at every occurrence of a separator. */
module SdsSplit {
  import opened Bytes

  /** memcmp, byte by byte. */
  predicate StartsWith(s: seq<byte>, sep: seq<byte>) {
    sep == [] || (s != [] && s[0] == sep[0] && StartsWith(s[1..], sep[1..]))
  }

  lemma {:induction false} StartsWithMeaning(s: seq<byte>, sep: seq<byte>)
    ensures StartsWith(s, sep) <==> sep <= s
  {
    if sep != [] && s != [] {
      StartsWithMeaning(s[1..], sep[1..]);
    }
  }

  predicate OccursAt(s: seq<byte>, sep: seq<byte>, i: nat) {
    i + |sep| <= |s| && StartsWith(s[i..], sep)
  }

  lemma OccursMeaning(s: seq<byte>, sep: seq<byte>, i: nat)
    ensures OccursAt(s, sep, i) <==> i + |sep| <= |s| && s[i..i + |sep|] == sep
  {
    if i + |sep| <= |s| {
      StartsWithMeaning(s[i..], sep);
      assert s[i..][..|sep|] == s[i..i + |sep|];
    }
  }

  ghost predicate Contains(s: seq<byte>, sep: seq<byte>) {
    exists i: nat :: OccursAt(s, sep, i)
  }

  /** The leftmost occurrence from i on; the length of the string when there is none. */
  function FirstFrom(s: seq<byte>, sep: seq<byte>, i: nat): (at: nat)
    requires i <= |s|
    ensures i <= at <= |s|
    decreases |s| - i
  {
    if i + |sep| > |s| then |s|
    else if OccursAt(s, sep, i) || i == |s| then i
    else FirstFrom(s, sep, i + 1)
  }

  /** The tokens from start on: each ends at the leftmost separator. */
  function SplitFrom(s: seq<byte>, sep: seq<byte>, start: nat): (tokens: seq<seq<byte>>)
    requires sep != [] && start <= |s|
    ensures |tokens| > 0
    decreases |s| - start
  {
    var at := FirstFrom(s, sep, start);
    if at + |sep| <= |s| then [s[start..at]] + SplitFrom(s, sep, at + |sep|) else [s[start..]]
  }

  /** The same with the tokens found so far. */
  function SplitAcc(s: seq<byte>, sep: seq<byte>, start: nat, done: seq<seq<byte>>): (tokens: seq<seq<byte>>)
    requires sep != [] && start <= |s|
    decreases |s| - start
  {
    var at := FirstFrom(s, sep, start);
    if at + |sep| <= |s| then SplitAcc(s, sep, at + |sep|, done + [s[start..at]]) else done + [s[start..]]
  }

  lemma {:induction false} SplitAccIs(s: seq<byte>, sep: seq<byte>, start: nat, done: seq<seq<byte>>)
    requires sep != [] && start <= |s|
    ensures SplitAcc(s, sep, start, done) == done + SplitFrom(s, sep, start)
    decreases |s| - start
  {
    var at := FirstFrom(s, sep, start);
    if at + |sep| <= |s| {
      SplitAccIs(s, sep, at + |sep|, done + [s[start..at]]);
      ConcatAssoc(done, [s[start..at]], SplitFrom(s, sep, at + |sep|));
    }
  }

  function Join(tokens: seq<seq<byte>>, sep: seq<byte>): (s: seq<byte>) {
    if tokens == [] then []
    else if |tokens| == 1 then tokens[0]
    else tokens[0] + sep + Join(tokens[1..], sep)
  }

  lemma {:induction false} FirstFromMeaning(s: seq<byte>, sep: seq<byte>, i: nat)
    requires sep != [] && i <= |s|
    ensures var at := FirstFrom(s, sep, i);
            && (if at + |sep| <= |s| then OccursAt(s, sep, at) else at == |s|)
            && forall k | i <= k < at :: !OccursAt(s, sep, k)
    decreases |s| - i
  {
    if i + |sep| <= |s| && !OccursAt(s, sep, i) {
      FirstFromMeaning(s, sep, i + 1);
    }
  }

  lemma Cut(s: seq<byte>, a: nat, b: nat, c: nat)
    requires a <= b <= c <= |s|
    ensures s[a..] == s[a..b] + s[b..c] + s[c..]
  {
  }

  /** Joining the tokens with the separator gives the input back. */
  lemma {:induction false} SplitJoins(s: seq<byte>, sep: seq<byte>, start: nat)
    requires sep != [] && start <= |s|
    ensures Join(SplitFrom(s, sep, start), sep) == s[start..]
    decreases |s| - start
  {
    var at := FirstFrom(s, sep, start);
    FirstFromMeaning(s, sep, start);
    if at + |sep| <= |s| {
      var next := at + |sep|;
      SplitJoins(s, sep, next);
      OccursMeaning(s, sep, at);
      var rest := SplitFrom(s, sep, next);
      assert ([s[start..at]] + rest)[1..] == rest;
      Cut(s, start, at, next);
    }
  }

  lemma OccursInside(s: seq<byte>, sep: seq<byte>, lo: nat, hi: nat, i: nat)
    requires lo <= hi <= |s| && OccursAt(s[lo..hi], sep, i)
    ensures OccursAt(s, sep, lo + i) && lo + i + |sep| <= hi
  {
    OccursMeaning(s[lo..hi], sep, i);
    OccursMeaning(s, sep, lo + i);
    var a, b := s[lo..hi][i..i + |sep|], s[lo + i..lo + i + |sep|];
    assert forall k | 0 <= k < |sep| :: a[k] == b[k];
  }

  /** No token contains the separator. */
  lemma {:induction false} TokensAreFree(s: seq<byte>, sep: seq<byte>, start: nat)
    requires sep != [] && start <= |s|
    ensures forall k | 0 <= k < |SplitFrom(s, sep, start)| :: !Contains(SplitFrom(s, sep, start)[k], sep)
    decreases |s| - start
  {
    var at := FirstFrom(s, sep, start);
    FirstFromMeaning(s, sep, start);
    forall i: nat
      ensures !OccursAt(s[start..at], sep, i)
      ensures at == |s| ==> !OccursAt(s[start..], sep, i)
    {
      if OccursAt(s[start..at], sep, i) {
        OccursInside(s, sep, start, at, i);
      }
      assert s[start..|s|] == s[start..];
    }
    if at + |sep| <= |s| {
      TokensAreFree(s, sep, at + |sep|);
    }
  }

  // ----- The other way round

  /** In every remaining joined string the first separator is the joint. */
  predicate JointsComeFirst(tokens: seq<seq<byte>>, sep: seq<byte>) {
    tokens == [] || (FirstFrom(Join(tokens, sep), sep, 0) == |tokens[0]| && JointsComeFirst(tokens[1..], sep))
  }

  /** Searching in the rest of a string. */
  lemma {:induction false} FirstShift(s: seq<byte>, sep: seq<byte>, start: nat, i: nat)
    requires sep != [] && start + i <= |s|
    ensures FirstFrom(s, sep, start + i) == start + FirstFrom(s[start..], sep, i)
    decreases |s| - start - i
  {
    assert s[start + i..] == s[start..][i..];
    if start + i + |sep| <= |s| && !OccursAt(s, sep, start + i) {
      FirstShift(s, sep, start, i + 1);
    }
  }

  lemma SplitUnfold(s: seq<byte>, sep: seq<byte>, start: nat, at: nat)
    requires sep != [] && start <= |s| && FirstFrom(s, sep, start) == at <= |s| - |sep|
    ensures SplitFrom(s, sep, start) == [s[start..at]] + SplitFrom(s, sep, at + |sep|)
  {
  }

  lemma JoinUnfold(tokens: seq<seq<byte>>, sep: seq<byte>)
    requires |tokens| > 1
    ensures var rest := Join(tokens[1..], sep);
            var s, at := Join(tokens, sep), |tokens[0]|;
            at + |sep| <= |s| && s[..at] == tokens[0] && s[at + |sep|..] == rest
  {
  }

  /** From a given place on: the tokens come back exactly when every joint comes first. */
  lemma {:induction false} SplitOfJoin(s: seq<byte>, start: nat, tokens: seq<seq<byte>>, sep: seq<byte>)
    requires |tokens| > 0 && sep != [] && start <= |s| && s[start..] == Join(tokens, sep)
    ensures SplitFrom(s, sep, start) == tokens <==> JointsComeFirst(tokens, sep)
    decreases |tokens|
  {
    FirstShift(s, sep, start, 0);
    if |tokens| == 1 {
      assert tokens == [tokens[0]] && tokens[1..] == [];
      OneToken(s, start, tokens[0], sep);
    } else {
      JoinTail(s, start, tokens, sep);
      SplitOfJoin(s, start + |tokens[0]| + |sep|, tokens[1..], sep);
      ManyTokens(s, start, tokens, sep);
    }
  }

  lemma JoinTail(s: seq<byte>, start: nat, tokens: seq<seq<byte>>, sep: seq<byte>)
    requires |tokens| > 1 && start <= |s| && s[start..] == Join(tokens, sep)
    ensures var mid := start + |tokens[0]|;
            && mid + |sep| <= |s| && s[start..mid] == tokens[0] && s[mid + |sep|..] == Join(tokens[1..], sep)
  {
    JoinUnfold(tokens, sep);
    var t, n := s[start..], |tokens[0]|;
    assert s[start..start + n] == t[..n] && s[start + n + |sep|..] == t[n + |sep|..];
  }

  lemma ManyTokens(s: seq<byte>, start: nat, tokens: seq<seq<byte>>, sep: seq<byte>)
    requires |tokens| > 1 && sep != [] && start + |tokens[0]| + |sep| <= |s| && s[start..start + |tokens[0]|] == tokens[0]
    ensures SplitFrom(s, sep, start) == tokens
            <==> FirstFrom(s, sep, start) == start + |tokens[0]| && SplitFrom(s, sep, start + |tokens[0]| + |sep|) == tokens[1..]
  {
    var at := FirstFrom(s, sep, start);
    FirstFromMeaning(s, sep, start);
    if at + |sep| <= |s| {
      SplitUnfold(s, sep, start, at);
      var rest := SplitFrom(s, sep, at + |sep|);
      assert ([s[start..at]] + rest)[0] == s[start..at] && ([s[start..at]] + rest)[1..] == rest;
      assert tokens == [tokens[0]] + tokens[1..];
      assert |s[start..at]| == at - start;
    } else {
      assert |SplitFrom(s, sep, start)| == 1;
    }
  }

  lemma OneToken(s: seq<byte>, start: nat, token: seq<byte>, sep: seq<byte>)
    requires sep != [] && start <= |s| && s[start..] == token
    ensures SplitFrom(s, sep, start) == [token] <==> FirstFrom(s, sep, start) == |s|
  {
    var at := FirstFrom(s, sep, start);
    FirstFromMeaning(s, sep, start);
    if at + |sep| <= |s| {
      assert |SplitFrom(s, sep, start)| > 1;
    }
  }

  /** Splitting undoes joining, for any separator, exactly when every joint is the first separator of
      what is left. */
  lemma JoinSplits(tokens: seq<seq<byte>>, sep: seq<byte>)
    requires |tokens| > 0 && sep != []
    ensures SplitFrom(Join(tokens, sep), sep, 0) == tokens <==> JointsComeFirst(tokens, sep)
  {
    assert Join(tokens, sep)[0..] == Join(tokens, sep);
    SplitOfJoin(Join(tokens, sep), 0, tokens, sep);
  }

  /** With a separator of one byte that is so whenever no token holds it. */
  lemma {:induction false} OneByteJoints(tokens: seq<seq<byte>>, c: byte)
    requires |tokens| > 0 && forall k | 0 <= k < |tokens| :: c !in tokens[k]
    ensures JointsComeFirst(tokens, [c])
    decreases |tokens|
  {
    var s, at := Join(tokens, [c]), |tokens[0]|;
    if |tokens| > 1 {
      JoinUnfold(tokens, [c]);
      assert s == tokens[0] + [c] + Join(tokens[1..], [c]);
      OneByteJoints(tokens[1..], c);
    }
    assert s[..at] == tokens[0];
    assert forall k | 0 <= k < at :: s[k] == tokens[0][k];
    FirstIs(s, c, 0, at);
  }

  /** The leftmost occurrence of a byte, or the end. */
  lemma {:induction false} FirstIs(s: seq<byte>, c: byte, i: nat, at: nat)
    requires i <= at <= |s| && (at < |s| ==> s[at] == c) && forall k | i <= k < at :: s[k] != c
    ensures FirstFrom(s, [c], i) == at
    decreases at - i
  {
    if i < |s| {
      OccursMeaning(s, [c], i);
      assert s[i..i + 1] == [s[i]];
    }
    if i < at {
      FirstIs(s, c, i + 1, at);
    }
  }

  // ----- The loop

  /** realloc to twice the slots. */
  method Grow(tokens: array<seq<byte>>, elements: nat) returns (bigger: array<seq<byte>>)
    requires elements <= tokens.Length
    ensures fresh(bigger) && bigger.Length == 2 * tokens.Length && bigger[..elements] == tokens[..elements]
  {
    bigger := new seq<byte>[2 * tokens.Length](_ => []);
    forall i | 0 <= i < elements {
      bigger[i] := tokens[i];
    }
  }

  method Put(tokens: array<seq<byte>>, elements: nat, t: seq<byte>)
    requires elements < tokens.Length
    modifies tokens
    ensures tokens[..elements + 1] == old(tokens[..elements]) + [t]
  {
    tokens[elements] := t;
  }

  /** No tokens array for an empty separator, no tokens for an empty string, else the tokens. */
  method SplitLen(s: seq<byte>, sep: seq<byte>) returns (ok: bool, tokens: array<seq<byte>>, count: nat)
    ensures ok == (sep != [])
    ensures count <= tokens.Length && fresh(tokens)
    ensures ok ==> tokens[..count] == if s == [] then [] else SplitFrom(s, sep, 0)
  {
    tokens, count := new seq<byte>[5](_ => []), 0;
    ok := |sep| >= 1;
    if !ok || s == [] {
      return;
    }
    ghost var done: seq<seq<byte>> := [];
    SplitAccIs(s, sep, 0, []);
    var elements: nat, start: nat, j: nat := 0, 0, 0;
    while j < |s| - (|sep| - 1)
      invariant start <= j <= |s|
      invariant elements < tokens.Length && tokens.Length >= 5 && fresh(tokens)
      invariant NoneWithin(s, sep, start, j)
      invariant tokens[..elements] == done && Yields(s, sep, start, done)
      decreases |s| - j
    {
      if tokens.Length < elements + 2 {
        tokens := Grow(tokens, elements);
      }
      if OccursAt(s, sep, j) {
        SplitStep(s, sep, start, j, done);
        Put(tokens, elements, s[start..j]);
        done := done + [s[start..j]];
        elements := elements + 1;
        start := j + |sep|;
        j := j + |sep| - 1;
      }
      j := j + 1;
    }
    SplitEnd(s, sep, start, j, done);
    Put(tokens, elements, s[start..]);
    count := elements + 1;
  }

  ghost predicate NoneWithin(s: seq<byte>, sep: seq<byte>, lo: nat, hi: nat) {
    forall k | lo <= k < hi :: !OccursAt(s, sep, k)
  }

  /** The tokens so far and those from start on are the tokens of the whole. */
  ghost predicate Yields(s: seq<byte>, sep: seq<byte>, start: nat, done: seq<seq<byte>>) {
    sep != [] && start <= |s| && SplitAcc(s, sep, start, done) == SplitFrom(s, sep, 0)
  }

  lemma SplitEnd(s: seq<byte>, sep: seq<byte>, start: nat, j: nat, done: seq<seq<byte>>)
    requires start <= j <= |s| < j + |sep| && NoneWithin(s, sep, start, j) && Yields(s, sep, start, done)
    ensures done + [s[start..]] == SplitFrom(s, sep, 0)
  {
    FirstFromMeaning(s, sep, start);
  }

  lemma SplitStep(s: seq<byte>, sep: seq<byte>, start: nat, j: nat, done: seq<seq<byte>>)
    requires start <= j && OccursAt(s, sep, j) && NoneWithin(s, sep, start, j) && Yields(s, sep, start, done)
    ensures Yields(s, sep, j + |sep|, done + [s[start..j]])
  {
    FirstFromMeaning(s, sep, start);
    assert FirstFrom(s, sep, start) == j;
  }

  /** What sdssplitlen gives for a string and a separator that are not empty. */
  lemma SplitInverts(s: seq<byte>, sep: seq<byte>)
    requires s != [] && sep != []
    ensures Join(SplitFrom(s, sep, 0), sep) == s
    ensures forall k | 0 <= k < |SplitFrom(s, sep, 0)| :: !Contains(SplitFrom(s, sep, 0)[k], sep)
  {
    SplitJoins(s, sep, 0);
    TokensAreFree(s, sep, 0);
  }
}
