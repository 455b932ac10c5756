/** Command formatting: the fixed-length writer, its exact length, and what the reader and the
    argument scanner make of its output. */
module Formatter {
  import opened Bytes
  import opened Resp
  import opened ReaderMachine

  /** One argument as a bulk string. */
  function Bulk(a: seq<byte>): (b: seq<byte>) {
    [DOLLAR] + (Decimal(|a|) + CRLF + (a + CRLF))
  }

  function Bulks(args: seq<seq<byte>>): (b: seq<byte>) {
    if args == [] then [] else Bulk(args[0]) + Bulks(args[1..])
  }

  function Header(n: nat): (b: seq<byte>) {
    [STAR] + (Decimal(n) + CRLF)
  }

  /** A command at protocol level. */
  function Command(args: seq<seq<byte>>): (b: seq<byte>) {
    Header(|args|) + Bulks(args)
  }

  // ----- Lengths computed in advance

  /** intlen: the width of printf's %d. */
  method IntLen(i: int) returns (len: nat)
    ensures len == |Decimal(if i < 0 then -i else i)| + if i < 0 then 1 else 0
  {
    len := 0;
    var n := i;
    if n < 0 {
      len := 1;
      n := -n;
    }
    ghost var sign, whole := len, n;
    len, n := len + 1, n / 10;
    while n != 0
      invariant n >= 0
      invariant len + (if n == 0 then 0 else |Decimal(n)|) == sign + |Decimal(whole)|
    {
      len, n := len + 1, n / 10;
    }
  }

  /** bulklen: what an argument of this length takes up. */
  method BulkLen(len: nat) returns (n: nat)
    ensures forall a: seq<byte> | |a| == len :: |Bulk(a)| == n
  {
    var digits := IntLen(len);
    n := 1 + digits + 2 + len + 2;
  }

  lemma {:induction false} BulksSnoc(args: seq<seq<byte>>, a: seq<byte>)
    ensures Bulks(args + [a]) == Bulks(args) + Bulk(a)
  {
    if args == [] {
      assert args + [a] == [a];
      assert Bulks([a]) == Bulk(a) + Bulks([a][1..]);
    } else {
      assert (args + [a])[1..] == args[1..] + [a];
      BulksSnoc(args[1..], a);
      ConcatAssoc(Bulk(args[0]), Bulks(args[1..]), Bulk(a));
    }
  }

  // ----- The writer

  /** A write into the command buffer; that it stays inside is its precondition. */
  method Put(cmd: array<byte>, pos: nat, s: seq<byte>) returns (next: nat)
    requires pos + |s| <= cmd.Length
    modifies cmd
    ensures next == pos + |s|
    ensures cmd[..next] == old(cmd[..pos]) + s
  {
    for j := 0 to |s|
      invariant cmd[..pos] == old(cmd[..pos])
      invariant cmd[pos..pos + j] == s[..j]
    {
      cmd[pos + j] := s[j];
    }
    next := pos + |s|;
    assert cmd[..next] == cmd[..pos] + cmd[pos..next];
  }

  /** The buffer-filling half of both formatters, for a length computed beforehand. The source's
      assert(pos == totlen) is the assertion before the terminator is written. */
  method Write(args: seq<seq<byte>>, totlen: nat) returns (cmd: array<byte>)
    requires totlen == |Command(args)|
    ensures fresh(cmd) && cmd.Length == totlen + 1
    ensures cmd[..totlen] == Command(args) && cmd[totlen] == NUL
  {
    cmd := new byte[totlen + 1];
    var pos := Put(cmd, 0, Header(|args|));
    assert args[..0] == [];
    for j := 0 to |args|
      invariant pos == |Header(|args|)| + |Bulks(args[..j])| <= totlen
      invariant cmd[..pos] == Header(|args|) + Bulks(args[..j])
    {
      PrefixFits(args, j);
      pos := Put(cmd, pos, [DOLLAR] + (Decimal(|args[j]|) + CRLF));
      pos := Put(cmd, pos, args[j]);
      pos := Put(cmd, pos, CRLF);
      BulkPieces(Header(|args|) + Bulks(args[..j]), args[j]);
      ConcatAssoc(Header(|args|), Bulks(args[..j]), Bulk(args[j]));
    }
    assert args[..|args|] == args;
    assert pos == totlen;
    cmd[pos] := NUL;
  }

  lemma BulkPieces(pre: seq<byte>, a: seq<byte>)
    ensures pre + ([DOLLAR] + (Decimal(|a|) + CRLF)) + a + CRLF == pre + Bulk(a)
  {
    var d := Decimal(|a|) + CRLF;
    ConcatAssoc(pre + ([DOLLAR] + d), a, CRLF);
    ConcatAssoc(pre, [DOLLAR] + d, a + CRLF);
    ConcatAssoc([DOLLAR], d, a + CRLF);
  }

  /** The arguments up to j and the next one fit into the whole. */
  lemma PrefixFits(args: seq<seq<byte>>, j: nat)
    requires j < |args|
    ensures Bulks(args[..j + 1]) == Bulks(args[..j]) + Bulk(args[j])
    ensures |Bulks(args[..j])| + |Bulk(args[j])| <= |Bulks(args)|
  {
    assert args[..j + 1] == args[..j] + [args[j]];
    BulksSnoc(args[..j], args[j]);
    BulksConcat(args[..j + 1], args[j + 1..]);
    assert args[..j + 1] + args[j + 1..] == args;
  }

  lemma {:induction false} BulksConcat(a: seq<seq<byte>>, b: seq<seq<byte>>)
    ensures Bulks(a + b) == Bulks(a) + Bulks(b)
  {
    if a == [] {
      assert a + b == b;
    } else {
      assert (a + b)[1..] == a[1..] + b;
      BulksConcat(a[1..], b);
      ConcatAssoc(Bulk(a[0]), Bulks(a[1..]), Bulks(b));
    }
  }

  /** redisFormatCommandArgv: the length is computed before anything is written, and it is exact. */
  method FormatArgv(args: seq<seq<byte>>) returns (cmd: array<byte>, totlen: nat)
    ensures fresh(cmd) && cmd.Length == totlen + 1
    ensures cmd[..totlen] == Command(args) && cmd[totlen] == NUL
  {
    var digits := IntLen(|args|);
    totlen := 1 + digits + 2;
    assert args[..0] == [];
    for j := 0 to |args|
      invariant totlen == |Header(|args|)| + |Bulks(args[..j])|
    {
      PrefixFits(args, j);
      var n := BulkLen(|args[j]|);
      totlen := totlen + n;
    }
    assert args[..|args|] == args;
    cmd := Write(args, totlen);
  }

  // ----- Reading a command back

  function Strings(args: seq<seq<byte>>): (rs: seq<Reply>)
    ensures |rs| == |args|
  {
    if args == [] then [] else [String(args[0])] + Strings(args[1..])
  }

  lemma NumberLine(n: nat, x: seq<byte>)
    ensures SplitLine(Decimal(n) + CRLF + x) == Line(Decimal(n), x)
    ensures ReadLongLong(Decimal(n)) == n
  {
    var b := Decimal(n) + CRLF + x;
    forall k | 0 <= k < |Decimal(n)|
      ensures !CrlfAt(b, k)
    {
      assert b[k] == Decimal(n)[k];
    }
    SplitLineUnique(b, Decimal(n), x);
    ReadLongLongDecimal(n, []);
    assert Decimal(n) + [] == Decimal(n);
  }

  lemma BulkParses(level: nat, a: seq<byte>, x: seq<byte>)
    ensures ParseItem(level, Bulk(a) + x) == Complete(String(a), x)
  {
    var d := Decimal(|a|) + CRLF;
    var tail := (a + CRLF) + x;
    ConcatAssoc([DOLLAR], d + (a + CRLF), x);
    ConcatAssoc(d, a + CRLF, x);
    assert Bulk(a) + x == [DOLLAR] + (d + tail);
    assert ([DOLLAR] + (d + tail))[1..] == d + tail;
    NumberLine(|a|, tail);
    assert tail[..|a|] == a;
    assert tail[|a| + 2..] == x;
  }

  lemma {:induction false} BulksParse(level: nat, args: seq<seq<byte>>, x: seq<byte>)
    ensures ParseElements(level, |args|, Bulks(args) + x) == Complete(Strings(args), x)
    decreases |args|
  {
    if args == [] {
      assert Bulks(args) + x == x;
    } else {
      var tail := Bulks(args[1..]) + x;
      ConcatAssoc(Bulk(args[0]), Bulks(args[1..]), x);
      BulkParses(level, args[0], tail);
      BulksParse(level, args[1..], x);
    }
  }

  /** Printer and parser are inverse: any formatted command reads back as the array of its
      arguments, whatever bytes they hold and whatever follows. */
  lemma CommandParses(args: seq<seq<byte>>, x: seq<byte>)
    ensures ParseItem(0, Command(args) + x) == Complete(Array(|args|, Strings(args)), x)
  {
    var d := Decimal(|args|) + CRLF;
    var tail := Bulks(args) + x;
    ConcatAssoc(Header(|args|), Bulks(args), x);
    ConcatAssoc([STAR], d, tail);
    assert ([STAR] + (d + tail))[1..] == d + tail;
    NumberLine(|args|, tail);
    if args == [] {
      assert tail == x;
    } else {
      BulksParse(1, args, x);
    }
  }

  /** Fed to a fresh reader in any number of pieces, a command yields that one array and leaves
      nothing behind. */
  lemma CommandRoundTrip(args: seq<seq<byte>>, chunks: seq<seq<byte>>)
    requires Concat(chunks) == Command(args)
    ensures DrainChunks(Waiting(START, []), chunks)
         == Drained([Array(|args|, Strings(args))], Waiting(START, []))
  {
    CommandParses(args, []);
    assert Command(args) + [] == Command(args);
    RunRefinesParser(START, Command(args));
    ChunkIndependence(START, [], chunks);
    assert [] + Concat(chunks) == Command(args);
    var cut := DrainChunks(Waiting(START, []), chunks);
    assert [] + cut.replies == cut.replies;
    assert [Array(|args|, Strings(args))] + [] == [Array(|args|, Strings(args))];
  }

  /** No two argument lists format alike. */
  lemma CommandInjective(args: seq<seq<byte>>, args': seq<seq<byte>>)
    requires Command(args) == Command(args')
    ensures args == args'
  {
    CommandParses(args, []);
    CommandParses(args', []);
    StringsInjective(args, args');
  }

  lemma {:induction false} StringsInjective(args: seq<seq<byte>>, args': seq<seq<byte>>)
    requires Strings(args) == Strings(args')
    ensures args == args'
  {
    if args != [] {
      assert Strings(args)[1..] == Strings(args[1..]);
      assert Strings(args')[1..] == Strings(args'[1..]);
      assert Strings(args)[0] == String(args[0]) && Strings(args')[0] == String(args'[0]);
      StringsInjective(args[1..], args'[1..]);
    }
  }
}
