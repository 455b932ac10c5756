/** sdscatrepr and sdssplitargs: quoting a string and splitting a line into arguments. */
module SdsQuote {
  import opened Bytes
  import opened Sds

  /** isprint in the C locale. */
  predicate IsPrint(c: byte) { 32 <= c < 127 }

  function HexDigit(d: nat): (c: byte)
    requires d < 16
  {
    if d < 10 then ZERO + d else 'a' as int + d - 10
  }

  // ----- Quoting

  const LOWER_N: byte := 110
  const LOWER_R: byte := 114
  const LOWER_T: byte := 116
  const LOWER_A: byte := 97
  const LOWER_B: byte := 98
  const LOWER_X: byte := 120

  function Escape(c: byte): (e: seq<byte>) {
    if c == BACKSLASH || c == QUOTE then [BACKSLASH, c]
    else if c == LF then [BACKSLASH, LOWER_N]
    else if c == CR then [BACKSLASH, LOWER_R]
    else if c == TAB then [BACKSLASH, LOWER_T]
    else if c == BELL then [BACKSLASH, LOWER_A]
    else if c == BACKSPACE then [BACKSLASH, LOWER_B]
    else if IsPrint(c) then [c]
    else [BACKSLASH, LOWER_X, HexDigit(c / 16), HexDigit(c % 16)]
  }

  function Escapes(s: seq<byte>): (e: seq<byte>) {
    if s == [] then [] else Escape(s[0]) + Escapes(s[1..])
  }

  function Repr(s: seq<byte>): (r: seq<byte>) {
    [QUOTE] + Escapes(s) + [QUOTE]
  }

  lemma {:induction false} EscapesStep(s: seq<byte>, i: nat)
    requires i < |s|
    ensures Escapes(s[..i + 1]) == Escapes(s[..i]) + Escape(s[i])
  {
    if i > 0 {
      EscapesStep(s[1..], i - 1);
      assert s[1..][..i] == s[..i + 1][1..];
      assert s[1..][..i - 1] == s[..i][1..];
      ConcatAssoc(Escape(s[0]), Escapes(s[..i][1..]), Escape(s[i]));
    } else {
      assert s[..1][1..] == [] && s[..0] == [];
    }
  }

  /** sdscatrepr */
  method CatRepr(s: Sds, p: seq<byte>)
    requires s.Valid()
    modifies s, s.buf
    ensures s.Valid() && s.Contents() == old(s.Contents()) + Repr(p)
  {
    s.CatLen([QUOTE]);
    ghost var open := old(s.Contents()) + [QUOTE];
    assert open + Escapes(p[..0]) == open;
    for i := 0 to |p|
      invariant s.Valid() && (s.buf == old(s.buf) || fresh(s.buf))
      invariant s.Contents() == open + Escapes(p[..i])
    {
      EscapesStep(p, i);
      ConcatAssoc(open, Escapes(p[..i]), Escape(p[i]));
      s.CatLen(Escape(p[i]));
    }
    assert p[..|p|] == p;
    s.CatLen([QUOTE]);
    ConcatAssoc(old(s.Contents()), [QUOTE], Escapes(p));
    ConcatAssoc(old(s.Contents()), [QUOTE] + Escapes(p), [QUOTE]);
  }

  // ----- Splitting into arguments

  datatype Token = Unbalanced | Token(value: seq<byte>, rest: seq<byte>)

  datatype Arguments = Failed | Arguments(values: seq<seq<byte>>)

  /** *p, where the line ends in a NUL. */
  function Head(line: seq<byte>): (c: byte) {
    if line == [] then NUL else line[0]
  }

  function Unescape(c: byte): (u: byte) {
    if c == LOWER_N then LF
    else if c == LOWER_R then CR
    else if c == LOWER_T then TAB
    else if c == LOWER_B then BACKSPACE
    else if c == LOWER_A then BELL
    else c
  }

  /** The rest of one token, inside quotes or outside. */
  function ScanToken(line: seq<byte>, inq: bool, current: seq<byte>): (t: Token)
    ensures t.Token? ==> |t.rest| <= |line| && (Head(line) != NUL ==> |t.rest| < |line|)
  {
    var c := Head(line);
    if inq then
      if c == BACKSLASH && Head(line[1..]) != NUL then ScanToken(line[2..], true, current + [Unescape(line[1])])
      else if c == QUOTE then
        if Head(line[1..]) != NUL && !IsSpace(line[1]) then Unbalanced else Token(current, line[1..])
      else if c == NUL then Unbalanced
      else ScanToken(line[1..], true, current + [c])
    else if c == SPACE || c == LF || c == CR || c == TAB then Token(current, line[1..])
    else if c == NUL then Token(current, line)
    else if c == QUOTE then ScanToken(line[1..], true, current)
    else ScanToken(line[1..], false, current + [c])
  }

  function SkipBlanks(line: seq<byte>): (rest: seq<byte>)
    ensures |rest| <= |line|
  {
    if Head(line) != NUL && IsSpace(Head(line)) then SkipBlanks(line[1..]) else line
  }

  function SplitArgs(line: seq<byte>): (a: Arguments)
    decreases |line|
  {
    var rest := SkipBlanks(line);
    if Head(rest) == NUL then Arguments([])
    else match ScanToken(rest, false, [])
      case Unbalanced => Failed
      case Token(value, after) =>
        match SplitArgs(after)
        case Failed => Failed
        case Arguments(values) => Arguments([value] + values)
  }

  /** One token by the loop of sdssplitargs. */
  method ReadToken(line: seq<byte>, start: nat) returns (t: Token, p: nat)
    requires start <= |line|
    ensures t == ScanToken(line[start..], false, [])
    ensures t.Token? ==> p <= |line| && t.rest == line[p..]
  {
    var inq, done, current: seq<byte> := false, false, [];
    p := start;
    while !done
      invariant p <= |line|
      invariant if done then ScanToken(line[start..], false, []) == Token(current, line[p..])
                else ScanToken(line[start..], false, []) == ScanToken(line[p..], inq, current)
      decreases !done, |line| - p
    {
      var c := if p < |line| then line[p] else NUL;
      var c' := if p + 1 < |line| then line[p + 1] else NUL;
      TailOf(line, p);
      if inq {
        if c == BACKSLASH && c' != NUL {
          p := p + 1;
          current := current + [Unescape(line[p])];
        } else if c == QUOTE {
          if c' != NUL && !IsSpace(c') {
            t := Unbalanced;
            return;
          }
          done := true;
        } else if c == NUL {
          t := Unbalanced;
          return;
        } else {
          current := current + [c];
        }
      } else if c == SPACE || c == LF || c == CR || c == TAB || c == NUL {
        done := true;
      } else if c == QUOTE {
        inq := true;
      } else {
        current := current + [c];
      }
      if p < |line| && line[p] != NUL {
        p := p + 1;
      }
    }
    t := Token(current, line[p..]);
  }

  lemma TailOf(line: seq<byte>, p: nat)
    requires p <= |line|
    ensures p < |line| ==> line[p..][1..] == line[p + 1..] && line[p..][0] == line[p]
    ensures p + 1 < |line| ==> line[p..][2..] == line[p + 2..] && line[p..][1] == line[p + 1]
    ensures p == |line| ==> line[p..] == []
  {
  }

  method SkipSpaces(line: seq<byte>, start: nat) returns (p: nat)
    requires start <= |line|
    ensures p <= |line| && SkipBlanks(line[start..]) == line[p..]
  {
    p := start;
    while p < |line| && line[p] != NUL && IsSpace(line[p])
      invariant p <= |line| && SkipBlanks(line[start..]) == SkipBlanks(line[p..])
    {
      TailOf(line, p);
      p := p + 1;
    }
    TailOf(line, p);
  }

  function Prepended(values: seq<seq<byte>>, a: Arguments): (a': Arguments) {
    match a
    case Failed => Failed
    case Arguments(more) => Arguments(values + more)
  }

  lemma PrependedTwice(values: seq<seq<byte>>, value: seq<byte>, a: Arguments)
    ensures Prepended(values, Prepended([value], a)) == Prepended(values + [value], a)
  {
    if a.Arguments? {
      ConcatAssoc(values, [value], a.values);
    }
  }

  /** sdssplitargs; on failure the arguments read so far are dropped. */
  method SplitLine(line: seq<byte>) returns (a: Arguments)
    ensures a == SplitArgs(line)
  {
    var p: nat, values: seq<seq<byte>> := 0, [];
    assert line[0..] == line;
    ArgumentsAlone(SplitArgs(line));
    while true
      invariant p <= |line| && SplitArgs(line) == Prepended(values, SplitArgs(line[p..]))
      decreases |line| - p
    {
      var q := SkipSpaces(line, p);
      TailOf(line, q);
      if q == |line| || line[q] == NUL {
        assert values + [] == values;
        return Arguments(values);
      }
      var t, next := ReadToken(line, q);
      if t.Unbalanced? {
        return Failed;
      }
      PrependedTwice(values, t.value, SplitArgs(t.rest));
      values, p := values + [t.value], next;
    }
  }

  lemma ArgumentsAlone(a: Arguments)
    ensures Prepended([], a) == a
  {
  }

  // ----- Round trip

  /** What sdssplitargs can read back: the escapes for other bytes are not decoded. */
  predicate Quotable(c: byte) {
    IsPrint(c) || c == LF || c == CR || c == TAB || c == BELL || c == BACKSPACE
  }

  function Decode(c: byte): (d: seq<byte>) {
    if Quotable(c) then [c] else [LOWER_X, HexDigit(c / 16), HexDigit(c % 16)]
  }

  function Decoded(s: seq<byte>): (d: seq<byte>) {
    if s == [] then [] else Decode(s[0]) + Decoded(s[1..])
  }

  lemma ScanPlain(c: byte, rest: seq<byte>, current: seq<byte>)
    requires c != BACKSLASH && c != QUOTE && c != NUL
    ensures ScanToken([c] + rest, true, current) == ScanToken(rest, true, current + [c])
  {
    assert ([c] + rest)[1..] == rest;
  }

  lemma ScanEscaped(c: byte, rest: seq<byte>, current: seq<byte>)
    requires c != NUL
    ensures ScanToken([BACKSLASH, c] + rest, true, current) == ScanToken(rest, true, current + [Unescape(c)])
  {
    var line := [BACKSLASH, c] + rest;
    assert line[2..] == rest && line[1..][0] == c;
  }

  lemma ScanHex(h: byte, l: byte, rest: seq<byte>, current: seq<byte>)
    requires forall c | c in [h, l] :: c != BACKSLASH && c != QUOTE && c != NUL
    ensures ScanToken([BACKSLASH, LOWER_X, h, l] + rest, true, current) == ScanToken(rest, true, current + [LOWER_X, h, l])
  {
    assert h in [h, l] && l in [h, l];
    assert [BACKSLASH, LOWER_X, h, l] + rest == [BACKSLASH, LOWER_X] + ([h] + ([l] + rest));
    ScanEscaped(LOWER_X, [h] + ([l] + rest), current);
    ScanPlain(h, [l] + rest, current + [LOWER_X]);
    ScanPlain(l, rest, current + [LOWER_X] + [h]);
    assert current + [LOWER_X] + [h] + [l] == current + [LOWER_X, h, l];
  }

  /** One escaped byte inside quotes. */
  lemma ScanOne(c: byte, rest: seq<byte>, current: seq<byte>)
    ensures ScanToken(Escape(c) + rest, true, current) == ScanToken(rest, true, current + Decode(c))
  {
    if |Escape(c)| == 1 {
      ScanPlain(c, rest, current);
    } else if |Escape(c)| == 2 {
      ScanEscaped(Escape(c)[1], rest, current);
    } else {
      ScanHex(HexDigit(c / 16), HexDigit(c % 16), rest, current);
    }
  }

  predicate Closes(tail: seq<byte>) {
    Head(tail) == NUL || IsSpace(Head(tail))
  }

  lemma {:induction false} ScanEscapes(s: seq<byte>, tail: seq<byte>, current: seq<byte>)
    requires Closes(tail)
    ensures ScanToken(Escapes(s) + ([QUOTE] + tail), true, current) == Token(current + Decoded(s), tail)
    decreases |s|
  {
    var end := [QUOTE] + tail;
    if s == [] {
      assert [] + end == end && end[1..] == tail;
      assert current + [] == current;
    } else {
      ConcatAssoc(Escape(s[0]), Escapes(s[1..]), end);
      ScanOne(s[0], Escapes(s[1..]) + end, current);
      ScanEscapes(s[1..], tail, current + Decode(s[0]));
      ConcatAssoc(current, Decode(s[0]), Decoded(s[1..]));
    }
  }

  lemma ScanRepr(s: seq<byte>, tail: seq<byte>)
    requires Closes(tail)
    ensures SkipBlanks(Repr(s) + tail) == Repr(s) + tail && Head(Repr(s) + tail) == QUOTE
    ensures ScanToken(Repr(s) + tail, false, []) == Token(Decoded(s), tail)
  {
    var line := Repr(s) + tail;
    ConcatAssoc([QUOTE], Escapes(s), [QUOTE]);
    ConcatAssoc([QUOTE], Escapes(s) + [QUOTE], tail);
    ConcatAssoc(Escapes(s), [QUOTE], tail);
    assert line == [QUOTE] + (Escapes(s) + ([QUOTE] + tail));
    assert line[1..] == Escapes(s) + ([QUOTE] + tail);
    ScanEscapes(s, tail, []);
    assert [] + Decoded(s) == Decoded(s);
  }

  /** The quoted strings with a blank between them. */
  function LineOf(args: seq<seq<byte>>): (line: seq<byte>) {
    if args == [] then []
    else if |args| == 1 then Repr(args[0])
    else Repr(args[0]) + ([SPACE] + LineOf(args[1..]))
  }

  function AllDecoded(args: seq<seq<byte>>): (values: seq<seq<byte>>) {
    if args == [] then [] else [Decoded(args[0])] + AllDecoded(args[1..])
  }

  lemma SkipOneBlank(line: seq<byte>)
    ensures SplitArgs([SPACE] + line) == SplitArgs(line)
  {
    assert ([SPACE] + line)[1..] == line;
  }

  /** What comes back when strings are quoted and the line is split again. */
  lemma {:induction false} SplitOfRepr(args: seq<seq<byte>>)
    ensures SplitArgs(LineOf(args)) == Arguments(AllDecoded(args))
  {
    if |args| == 1 {
      ScanRepr(args[0], []);
      assert Repr(args[0]) + [] == Repr(args[0]);
      assert args[1..] == [];
    } else if |args| > 1 {
      var tail := [SPACE] + LineOf(args[1..]);
      ScanRepr(args[0], tail);
      SkipOneBlank(LineOf(args[1..]));
      SplitOfRepr(args[1..]);
    }
  }

  predicate AllQuotable(s: seq<byte>) {
    forall i | 0 <= i < |s| :: Quotable(s[i])
  }

  lemma {:induction false} DecodedIff(s: seq<byte>)
    ensures |Decoded(s)| >= |s|
    ensures AllQuotable(s) ==> Decoded(s) == s
    ensures !AllQuotable(s) ==> |Decoded(s)| > |s|
  {
    if s != [] {
      DecodedIff(s[1..]);
      assert s == [s[0]] + s[1..];
    }
  }

  /** Quoting and splitting give the strings back, however many, exactly when all their bytes are
      printable or one of newline, return, tab, bell and backspace. */
  lemma {:induction false} QuoteRoundTrip(args: seq<seq<byte>>)
    ensures SplitArgs(LineOf(args)) == Arguments(args) <==> forall i | 0 <= i < |args| :: AllQuotable(args[i])
  {
    SplitOfRepr(args);
    AllDecodedIff(args);
  }

  lemma {:induction false} AllDecodedIff(args: seq<seq<byte>>)
    ensures AllDecoded(args) == args <==> forall i | 0 <= i < |args| :: AllQuotable(args[i])
  {
    if args != [] {
      DecodedIff(args[0]);
      AllDecodedIff(args[1..]);
      var d := AllDecoded(args);
      assert args == [args[0]] + args[1..];
      assert d[0] == Decoded(args[0]) && d[1..] == AllDecoded(args[1..]);
    }
  }
}
