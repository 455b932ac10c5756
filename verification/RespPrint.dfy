/** The wire form of every reply, byte by byte, and what the parser makes of it. The bytes are those of
    the Redis serialization protocol specification (RESP2): '+' 43, '-' 45, ':' 58, '$' 36, '*' 42, and
    CR LF 13 10 at the end of a line. */
module RespPrint {
  import opened Bytes
  import opened Resp
  import opened ReaderMachine
  import opened Formatter

  function Signed(v: int): (s: seq<byte>) {
    if v < 0 then [45] + Decimal(-v) else Decimal(v)
  }

  function Print(r: Reply): (b: seq<byte>) {
    match r
    case Status(text) => [43] + (text + [13, 10])
    case Error(text) => [45] + (text + [13, 10])
    case Integer(v) => [58] + (Signed(v) + [13, 10])
    case String(text) => [36] + (Decimal(|text|) + [13, 10] + (text + [13, 10]))
    case Nil => [36] + (Signed(-1) + [13, 10])
    case Array(count, es) => [42] + (Signed(count) + [13, 10] + PrintAll(es))
  }

  function PrintAll(rs: seq<Reply>): (b: seq<byte>) {
    if rs == [] then [] else Print(rs[0]) + PrintAll(rs[1..])
  }

  /** A text that does not end its own line. */
  predicate OneLine(text: seq<byte>) {
    forall k | 0 <= k < |text| - 1 :: !(text[k] == 13 && text[k + 1] == 10)
  }

  /** The replies that have a wire form: texts of one line, and arrays as long as they say, or empty ones
      with one of the negative counts that the code lets through. */
  predicate Printable(r: Reply) {
    match r
    case Status(text) => OneLine(text)
    case Error(text) => OneLine(text)
    case Array(count, es) => (count == |es| || (count < -1 && es == [])) && forall e | e in es :: Printable(e)
    case _ => true
  }

  /** How deep arrays are nested. */
  function Levels(r: Reply): (n: nat) {
    if r.Array? then 1 + MostLevels(r.element) else 0
  }

  function MostLevels(rs: seq<Reply>): (n: nat) {
    if rs == [] then 0
    else
      var a, b := Levels(rs[0]), MostLevels(rs[1..]);
      if a > b then a else b
  }

  // ----- Lines

  lemma TextLine(text: seq<byte>, x: seq<byte>)
    requires OneLine(text)
    ensures SplitLine(text + [13, 10] + x) == Line(text, x)
  {
    var b := text + [13, 10] + x;
    forall k | 0 <= k < |text|
      ensures !CrlfAt(b, k)
    {
      assert b[k] == text[k];
      if k + 1 < |text| {
        assert b[k + 1] == text[k + 1];
      } else {
        assert b[k + 1] == 13;
      }
    }
    SplitLineUnique(b, text, x);
  }

  /** The number parser reads back every integer, of either sign. */
  lemma SignedReads(v: int)
    ensures OneLine(Signed(v)) && ReadLongLong(Signed(v)) == v
  {
    var n := if v < 0 then -v else v;
    DecimalIsTheNumber(n);
    ReadLongLongDecimal(n, []);
    assert Decimal(n) + [] == Decimal(n);
    if v < 0 {
      assert Signed(v)[1..] == Decimal(n);
    }
  }

  lemma NumberedLine(v: int, x: seq<byte>)
    ensures SplitLine(Signed(v) + [13, 10] + x) == Line(Signed(v), x) && ReadLongLong(Signed(v)) == v
  {
    SignedReads(v);
    TextLine(Signed(v), x);
  }

  lemma Behind(c: byte, a: seq<byte>, x: seq<byte>)
    ensures ([c] + a + x)[0] == c && ([c] + a + x)[1..] == a + x
  {
  }

  // ----- Reading back

  lemma LineReplyParses(level: nat, r: Reply, x: seq<byte>)
    requires (r.Status? || r.Error? || r.Integer? || r.Nil?) && Printable(r)
    ensures ParseItem(level, Print(r) + x) == Complete(r, x)
  {
    match r {
      case Status(text) =>
        Behind(43, text + [13, 10], x);
        TextLine(text, x);
      case Error(text) =>
        Behind(45, text + [13, 10], x);
        TextLine(text, x);
      case Integer(v) =>
        Behind(58, Signed(v) + [13, 10], x);
        NumberedLine(v, x);
      case Nil =>
        Behind(36, Signed(-1) + [13, 10], x);
        NumberedLine(-1, x);
    }
  }

  lemma StringParses(level: nat, text: seq<byte>, x: seq<byte>)
    ensures ParseItem(level, Print(String(text)) + x) == Complete(String(text), x)
  {
    BulkParses(level, text, x);
    assert Bulk(text) == Print(String(text));
  }

  /** Every reply with a wire form is read back from it, with whatever follows left alone, exactly when its
      arrays fit into the nine stack slots; else the stream is refused as too deep. */
  lemma {:induction false} PrintParses(level: nat, r: Reply, x: seq<byte>)
    requires Printable(r) && level <= 8
    ensures ParseItem(level, Print(r) + x) == if level + Levels(r) <= 8 then Complete(r, x) else Failed(TooDeep)
    decreases r, 0
  {
    match r {
      case String(text) => StringParses(level, text, x);
      case Array(count, es) =>
        var tail := PrintAll(es) + x;
        Behind(42, Signed(count) + [13, 10] + PrintAll(es), x);
        ConcatAssoc(Signed(count) + [13, 10], PrintAll(es), x);
        NumberedLine(count, tail);
        if count > 0 && level < 8 {
          PrintAllParses(level + 1, es, x);
        } else if level < 8 {
          assert es == [] && tail == x;
        }
      case _ => LineReplyParses(level, r, x);
    }
  }

  lemma {:induction false} PrintAllParses(level: nat, rs: seq<Reply>, x: seq<byte>)
    requires level <= 8 && forall r | r in rs :: Printable(r)
    ensures ParseElements(level, |rs|, PrintAll(rs) + x) == if level + MostLevels(rs) <= 8 then Complete(rs, x) else Failed(TooDeep)
    decreases rs, 1
  {
    if rs == [] {
      assert PrintAll(rs) + x == x;
    } else {
      var tail := PrintAll(rs[1..]) + x;
      ConcatAssoc(Print(rs[0]), PrintAll(rs[1..]), x);
      PrintParses(level, rs[0], tail);
      PrintAllParses(level, rs[1..], x);
      assert rs == [rs[0]] + rs[1..];
    }
  }

  // ----- What else the code accepts or refuses

  /** Any other type byte is refused, by name. */
  lemma OtherBytesRefused(level: nat, c: byte, x: seq<byte>)
    requires c != 43 && c != 45 && c != 58 && c != 36 && c != 42
    ensures ParseItem(level, [c] + x) == Failed(BadTypeByte(c))
  {
  }

  /** Every negative length is nil, and so is the count -1; other negative counts make empty arrays; the
      two bytes after a body are not looked at. */
  lemma Leniency(level: nat, v: int, text: seq<byte>, y: byte, z: byte, x: seq<byte>)
    requires v < 0 && level < 8
    ensures ParseItem(level, [36] + (Signed(v) + [13, 10]) + x) == Complete(Nil, x)
    ensures ParseItem(level, [42] + (Signed(v) + [13, 10]) + x) == Complete(if v == -1 then Nil else Array(v, []), x)
    ensures ParseItem(level, [36] + (Decimal(|text|) + [13, 10] + (text + [y, z])) + x) == Complete(String(text), x)
  {
    Behind(36, Signed(v) + [13, 10], x);
    NumberedLine(v, x);
    Behind(42, Signed(v) + [13, 10], x);
    var tail := text + [y, z] + x;
    Behind(36, Decimal(|text|) + [13, 10] + (text + [y, z]), x);
    ConcatAssoc(Decimal(|text|) + [13, 10], text + [y, z], x);
    NumberedLine(|text|, tail);
    assert tail[..|text|] == text && tail[|text| + 2..] == x;
  }

  /** A formatted command is the wire form of the array of its arguments. */
  lemma {:induction false} CommandIsPrinted(args: seq<seq<byte>>)
    ensures Command(args) == Print(Array(|args|, Strings(args)))
  {
    BulksArePrinted(args);
    ConcatAssoc([42], Decimal(|args|) + [13, 10], Bulks(args));
  }

  lemma {:induction false} BulksArePrinted(args: seq<seq<byte>>)
    ensures Bulks(args) == PrintAll(Strings(args))
  {
    if args != [] {
      BulksArePrinted(args[1..]);
      assert Strings(args)[1..] == Strings(args[1..]);
    }
  }

  // ----- Through the reader

  predicate Fit(rs: seq<Reply>) {
    forall r | r in rs :: Printable(r) && Levels(r) <= 8
  }

  lemma {:induction false} PrintedDrains(rs: seq<Reply>)
    requires Fit(rs)
    ensures Drain(START, PrintAll(rs)) == Drained(rs, Waiting(START, []))
    decreases |rs|
  {
    RunRefinesParser(START, PrintAll(rs));
    if rs != [] {
      PrintParses(0, rs[0], PrintAll(rs[1..]));
      PrintedDrains(rs[1..]);
      assert rs == [rs[0]] + rs[1..];
    }
  }

  /** Any replies, printed one after the other and fed to a fresh reader in any pieces, come out as they
      went in, and nothing is left behind. */
  lemma PrintedRoundTrip(rs: seq<Reply>, chunks: seq<seq<byte>>)
    requires Fit(rs) && Concat(chunks) == PrintAll(rs)
    ensures DrainChunks(Waiting(START, []), chunks) == Drained(rs, Waiting(START, []))
  {
    PrintedDrains(rs);
    ChunkIndependence(START, [], chunks);
    assert [] + Concat(chunks) == PrintAll(rs);
    var cut := DrainChunks(Waiting(START, []), chunks);
    assert [] + cut.replies == cut.replies;
  }
}
