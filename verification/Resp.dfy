/** The reply grammar of the Redis serialization protocol (RESP2), as a recursive parser with
    the leniency of src/hiredis/hiredis.cc: the two bytes after a bulk body are not looked at,
    every negative bulk length is nil, a lone CR inside a line is ordinary text, and only a
    multi bulk count of exactly -1 is nil. */
module Resp {
  import opened Bytes

  datatype Reply =
    | Status(text: seq<byte>)
    | Error(text: seq<byte>)
    | Integer(value: int)
    | String(text: seq<byte>)
    | Nil
    | Array(count: int, element: seq<Reply>)

  /** What the type byte announces; Unread is the source's type -1. */
  datatype Kind = Unread | StatusKind | ErrorKind | IntegerKind | StringKind | ArrayKind

  datatype ReadError = BadTypeByte(got: byte) | TooDeep

  datatype Outcome<T> = Complete(value: T, rest: seq<byte>) | NeedMore | Failed(err: ReadError)

  datatype Line = NoLine | Line(text: seq<byte>, rest: seq<byte>)

  /** Deepest stack slot; an array met there is refused. */
  const MAX_LEVEL: nat := 8

  function KindOf(c: byte): (k: Kind) {
    if c == MINUS then ErrorKind
    else if c == PLUS then StatusKind
    else if c == COLON then IntegerKind
    else if c == DOLLAR then StringKind
    else if c == STAR then ArrayKind
    else Unread
  }

  predicate CrlfAt(b: seq<byte>, k: int) {
    0 <= k < |b| - 1 && b[k] == CR && b[k + 1] == LF
  }

  /** Cuts b at its first CR LF. */
  function SplitLine(b: seq<byte>): (l: Line)
    ensures l.Line? ==> |l.text| + 2 + |l.rest| == |b|
  {
    if |b| < 2 then NoLine
    else if b[0] == CR && b[1] == LF then Line([], b[2..])
    else
      var tail := SplitLine(b[1..]);
      if tail.NoLine? then NoLine else Line([b[0]] + tail.text, tail.rest)
  }

  lemma {:induction false} SplitLineMeaning(b: seq<byte>)
    ensures SplitLine(b).NoLine? ==> forall k :: !CrlfAt(b, k)
    ensures var l := SplitLine(b);
            l.Line? ==> b == l.text + CRLF + l.rest && CrlfAt(b, |l.text|)
    ensures var l := SplitLine(b);
            l.Line? ==> forall k | 0 <= k < |l.text| :: !CrlfAt(b, k)
  {
    if |b| >= 2 && !(b[0] == CR && b[1] == LF) {
      SplitLineMeaning(b[1..]);
      assert forall k | 1 <= k :: CrlfAt(b, k) == CrlfAt(b[1..], k - 1);
    }
  }

  /** The cut is determined by where the first CR LF stands. */
  lemma SplitLineUnique(b: seq<byte>, text: seq<byte>, rest: seq<byte>)
    requires b == text + CRLF + rest
    requires forall k | 0 <= k < |text| :: !CrlfAt(b, k)
    ensures SplitLine(b) == Line(text, rest)
  {
    assert CrlfAt(b, |text|);
    SplitLineMeaning(b);
    var l := SplitLine(b);
    assert |l.text| == |text|;
    assert l.text == b[..|text|] == text;
    assert l.rest == b[|text| + 2..] == rest;
  }

  /** A line once complete is not changed by what follows it. */
  lemma SplitLineLocal(b: seq<byte>, x: seq<byte>)
    requires SplitLine(b).Line?
    ensures SplitLine(SplitLine(b).text + CRLF + x) == Line(SplitLine(b).text, x)
  {
    SplitLineMeaning(b);
    var l := SplitLine(b);
    var b' := l.text + CRLF + x;
    forall k | 0 <= k < |l.text|
      ensures !CrlfAt(b', k)
    {
      assert !CrlfAt(b, k);
      assert b[k] == b'[k] && b[k + 1] == b'[k + 1];
    }
    SplitLineUnique(b', l.text, x);
  }

  /** One reply, type byte included, at nesting level `level`. */
  function ParseItem(level: nat, b: seq<byte>): (o: Outcome<Reply>)
    ensures o.Complete? ==> |o.rest| < |b|
    decreases |b|, 1
  {
    if b == [] then NeedMore
    else if KindOf(b[0]) == Unread then Failed(BadTypeByte(b[0]))
    else ParseTyped(level, KindOf(b[0]), b[1..])
  }

  /** The remainder of a reply whose type byte was already taken. */
  function ParseTyped(level: nat, kind: Kind, b: seq<byte>): (o: Outcome<Reply>)
    requires kind != Unread
    ensures o.Complete? ==> |o.rest| < |b|
    decreases |b|, 0
  {
    if kind == ArrayKind && level >= MAX_LEVEL then Failed(TooDeep)
    else match SplitLine(b)
      case NoLine => NeedMore
      case Line(text, rest) =>
        match kind
        case StatusKind => Complete(Status(text), rest)
        case ErrorKind => Complete(Error(text), rest)
        case IntegerKind => Complete(Integer(ReadLongLong(text)), rest)
        case StringKind =>
          var len := ReadLongLong(text);
          if len < 0 then Complete(Nil, rest)
          else if len + 2 <= |rest| then Complete(String(rest[..len]), rest[len + 2..])
          else NeedMore
        case ArrayKind =>
          var count := ReadLongLong(text);
          if count == -1 then Complete(Nil, rest)
          else if count <= 0 then Complete(Array(count, []), rest)
          else match ParseElements(level + 1, count, rest)
            case Complete(es, rest') => Complete(Array(count, es), rest')
            case NeedMore => NeedMore
            case Failed(e) => Failed(e)
  }

  /** n consecutive replies. */
  function ParseElements(level: nat, n: nat, b: seq<byte>): (o: Outcome<seq<Reply>>)
    ensures o.Complete? ==> |o.rest| <= |b| && |o.value| == n
    decreases |b|, 2
  {
    if n == 0 then Complete([], b)
    else match ParseItem(level, b)
      case NeedMore => NeedMore
      case Failed(e) => Failed(e)
      case Complete(r, rest) =>
        match ParseElements(level, n - 1, rest)
        case Complete(rs, rest') => Complete([r] + rs, rest')
        case NeedMore => NeedMore
        case Failed(e) => Failed(e)
  }

  /** Every array slot below a reply is filled: the element vector is as long as the count
      says, at every depth. */
  predicate WellFilled(r: Reply) {
    r.Array? ==>
      |r.element| == (if r.count < 0 then 0 else r.count) &&
      forall e | e in r.element :: WellFilled(e)
  }

  lemma {:induction false} ParseItemWellFilled(level: nat, b: seq<byte>)
    ensures ParseItem(level, b).Complete? ==> WellFilled(ParseItem(level, b).value)
    decreases |b|, 1
  {
    if b != [] && KindOf(b[0]) != Unread {
      ParseTypedWellFilled(level, KindOf(b[0]), b[1..]);
    }
  }

  lemma {:induction false} ParseTypedWellFilled(level: nat, kind: Kind, b: seq<byte>)
    requires kind != Unread
    ensures ParseTyped(level, kind, b).Complete? ==> WellFilled(ParseTyped(level, kind, b).value)
    decreases |b|, 0
  {
    var l := SplitLine(b);
    if l.Line? && kind == ArrayKind && ReadLongLong(l.text) > 0 {
      ParseElementsWellFilled(level + 1, ReadLongLong(l.text), l.rest);
    }
  }

  lemma {:induction false} ParseElementsWellFilled(level: nat, n: nat, b: seq<byte>)
    ensures ParseElements(level, n, b).Complete? ==>
              forall e | e in ParseElements(level, n, b).value :: WellFilled(e)
    decreases |b|, 2
  {
    if n > 0 && ParseItem(level, b).Complete? {
      ParseItemWellFilled(level, b);
      ParseElementsWellFilled(level, n - 1, ParseItem(level, b).rest);
    }
  }

  /** The bytes a complete parse used. */
  function Used<T>(b: seq<byte>, o: Outcome<T>): (u: seq<byte>)
    requires o.Complete? && |o.rest| <= |b|
  {
    b[..|b| - |o.rest|]
  }

  /** What a parse leaves over is the end of its input. */
  lemma {:induction false} ParseItemSuffix(level: nat, b: seq<byte>)
    requires ParseItem(level, b).Complete?
    ensures b == Used(b, ParseItem(level, b)) + ParseItem(level, b).rest
    decreases |b|, 1
  {
    ParseTypedSuffix(level, KindOf(b[0]), b[1..]);
    assert b == [b[0]] + b[1..];
  }

  lemma {:induction false} ParseTypedSuffix(level: nat, kind: Kind, b: seq<byte>)
    requires kind != Unread
    requires ParseTyped(level, kind, b).Complete?
    ensures b == Used(b, ParseTyped(level, kind, b)) + ParseTyped(level, kind, b).rest
    decreases |b|, 0
  {
    var l := SplitLine(b);
    var n := ReadLongLong(l.text);
    var o := ParseTyped(level, kind, b);
    var k := |l.rest| - |o.rest|;
    assert l.rest == l.rest[..k] + o.rest by {
      if kind == ArrayKind && n > 0 {
        ParseElementsSuffix(level + 1, n, l.rest);
      }
    }
    SplitLineMeaning(b);
    PrefixOfConcat(l.text + CRLF, l.rest, k, o.rest);
  }

  lemma {:induction false} ParseElementsSuffix(level: nat, n: nat, b: seq<byte>)
    requires ParseElements(level, n, b).Complete?
    ensures b == Used(b, ParseElements(level, n, b)) + ParseElements(level, n, b).rest
    decreases |b|, 2
  {
    if n > 0 {
      ParseItemSuffix(level, b);
      ParseElementsSuffix(level, n - 1, ParseItem(level, b).rest);
    }
  }

  lemma PrefixOfConcat(head: seq<byte>, tail: seq<byte>, k: nat, x: seq<byte>)
    requires k <= |tail|
    ensures (head + tail)[..|head| + k] + x == head + (tail[..k] + x)
  {
  }

  lemma TailOfPrefix(b: seq<byte>, k: nat, x: seq<byte>)
    requires 1 <= k <= |b|
    ensures (b[..k] + x)[1..] == b[1..][..k - 1] + x
    ensures (b[..k] + x)[0] == b[0]
  {
  }

  /** A complete reply depends on exactly the bytes it used: followed by any other bytes they
      give the same reply and leave those bytes alone. */
  lemma {:induction false} ParseItemLocal(level: nat, b: seq<byte>, x: seq<byte>)
    requires ParseItem(level, b).Complete?
    ensures ParseItem(level, Used(b, ParseItem(level, b)) + x) == Complete(ParseItem(level, b).value, x)
    decreases |b|, 1
  {
    var o := ParseItem(level, b);
    var t := ParseTyped(level, KindOf(b[0]), b[1..]);
    ParseTypedLocal(level, KindOf(b[0]), b[1..], x);
    TailOfPrefix(b, |b| - |o.rest|, x);
  }

  lemma {:induction false} ParseTypedLocal(level: nat, kind: Kind, b: seq<byte>, x: seq<byte>)
    requires kind != Unread
    requires ParseTyped(level, kind, b).Complete?
    ensures ParseTyped(level, kind, Used(b, ParseTyped(level, kind, b)) + x)
         == Complete(ParseTyped(level, kind, b).value, x)
    decreases |b|, 0
  {
    var o := ParseTyped(level, kind, b);
    var l := SplitLine(b);
    var n := ReadLongLong(l.text);
    var k := |l.rest| - |o.rest|;
    var tail := l.rest[..k] + x;
    assert Used(b, o) + x == l.text + CRLF + tail by {
      SplitLineMeaning(b);
      PrefixOfConcat(l.text + CRLF, l.rest, k, x);
    }
    assert SplitLine(Used(b, o) + x) == Line(l.text, tail) by {
      SplitLineLocal(b, tail);
    }
    if kind == ArrayKind && n > 0 {
      assert ParseElements(level + 1, n, tail) == Complete(o.value.element, x) by {
        ParseElementsLocal(level + 1, n, l.rest, x);
      }
    } else if kind == StringKind && n >= 0 {
      BodyLocal(l.rest, n, x);
    } else {
      assert tail == x;
    }
  }

  lemma BodyLocal(b: seq<byte>, n: nat, x: seq<byte>)
    requires n + 2 <= |b|
    ensures (b[..n + 2] + x)[..n] == b[..n]
    ensures (b[..n + 2] + x)[n + 2..] == x
  {
  }

  lemma {:induction false} ParseElementsLocal(level: nat, n: nat, b: seq<byte>, x: seq<byte>)
    requires ParseElements(level, n, b).Complete?
    ensures ParseElements(level, n, Used(b, ParseElements(level, n, b)) + x)
         == Complete(ParseElements(level, n, b).value, x)
    decreases |b|, 2
  {
    var o := ParseElements(level, n, b);
    if n == 0 {
      assert Used(b, o) + x == x;
    } else {
      var first := ParseItem(level, b);
      var tail := first.rest[..|first.rest| - |o.rest|] + x;
      ElementsUse(level, n, b, x);
      ParseItemLocal(level, b, tail);
      ParseElementsLocal(level, n - 1, first.rest, x);
    }
  }

  lemma ElementsUse(level: nat, n: nat, b: seq<byte>, x: seq<byte>)
    requires n > 0 && ParseElements(level, n, b).Complete?
    ensures var o, first := ParseElements(level, n, b), ParseItem(level, b);
            Used(b, o) + x == Used(b, first) + (first.rest[..|first.rest| - |o.rest|] + x)
  {
    var o, first := ParseElements(level, n, b), ParseItem(level, b);
    ParseItemSuffix(level, b);
    PrefixOfConcat(Used(b, first), first.rest, |first.rest| - |o.rest|, x);
  }
}
