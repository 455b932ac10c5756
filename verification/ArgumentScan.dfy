/** nextArgument of the asynchronous client: walking the arguments of a formatted command with
    string functions that stop at a NUL. */
module ArgumentScan {
  import opened Bytes
  import opened Formatter

  /** strchr from index i on; -1 when the terminator, written or implied, comes first. */
  function StrChr(s: seq<byte>, i: nat, c: byte): (k: int)
    requires i <= |s|
    ensures k == -1 || i <= k < |s|
    decreases |s| - i
  {
    if i == |s| then -1
    else if s[i] == c then i
    else if s[i] == NUL then -1
    else StrChr(s, i + 1, c)
  }

  function DigitsFrom(s: seq<byte>, i: nat, v: nat): (n: nat)
    requires i <= |s|
    decreases |s| - i
  {
    if i < |s| && IsDigit(s[i]) then DigitsFrom(s, i + 1, 10 * v + (s[i] - ZERO)) else v
  }

  /** strtol in base ten. */
  function StrToL(s: seq<byte>, i: nat): (n: int)
    requires i <= |s|
    decreases |s| - i
  {
    if i == |s| then 0
    else if IsSpace(s[i]) then StrToL(s, i + 1)
    else if s[i] == MINUS then 0 - DigitsFrom(s, i + 1, 0)
    else if s[i] == PLUS then DigitsFrom(s, i + 1, 0)
    else DigitsFrom(s, i, 0)
  }

  /** NoMore is the NULL return, Aborts the failed assertion that a CR follows the length. */
  datatype Next = NoMore | Aborts | Arg(str: int, len: int, next: int)

  function NextArgument(s: seq<byte>, start: nat): (r: Next)
    requires start <= |s|
  {
    var p := if start < |s| && s[start] == DOLLAR then start else StrChr(s, start, DOLLAR);
    if p == -1 then NoMore
    else
      var len := StrToL(s, p + 1);
      var q := StrChr(s, p, CR);
      if q == -1 then Aborts else Arg(q + 2, len, q + 2 + len + 2)
  }

  predicate InBounds(s: seq<byte>, r: Next) {
    r.Arg? && 0 <= r.str && 0 <= r.len && r.str + r.len <= |s| && r.next <= |s|
  }

  /** The loop `while ((p = nextArgument(p, &str, &len)) != NULL)`; None when it would leave the
      buffer, stall, or abort. */
  datatype Scanned = None | Args(args: seq<seq<byte>>)

  function ScanAll(s: seq<byte>, start: nat): (r: Scanned)
    requires start <= |s|
    decreases |s| - start
  {
    var a := NextArgument(s, start);
    if a.NoMore? then Args([])
    else if !InBounds(s, a) || a.next <= start then None
    else
      match ScanAll(s, a.next)
      case None => None
      case Args(rest) => Args([s[a.str..a.str + a.len]] + rest)
  }

  lemma {:induction false} StrChrSkips(s: seq<byte>, i: nat, k: nat, c: byte)
    requires i <= k < |s| && s[k] == c
    requires forall j | i <= j < k :: s[j] != c && s[j] != NUL
    ensures StrChr(s, i, c) == k
    decreases k - i
  {
    if i < k {
      StrChrSkips(s, i + 1, k, c);
    }
  }

  /** t stands at index p. */
  predicate At(s: seq<byte>, p: nat, t: seq<byte>) {
    p + |t| <= |s| && forall j | 0 <= j < |t| :: s[p + j] == t[j]
  }

  lemma AtSplit(s: seq<byte>, p: nat, t: seq<byte>, u: seq<byte>)
    requires At(s, p, t + u)
    ensures At(s, p, t) && At(s, p + |t|, u)
  {
    forall j | 0 <= j < |t|
      ensures s[p + j] == t[j]
    {
      assert (t + u)[j] == t[j];
    }
    forall j | 0 <= j < |u|
      ensures s[p + |t| + j] == u[j]
    {
      assert (t + u)[|t| + j] == u[j];
    }
  }

  lemma AtByte(s: seq<byte>, p: nat, t: seq<byte>, j: nat)
    requires At(s, p, t) && j < |t|
    ensures s[p + j] == t[j]
  {
  }

  lemma BulkAt(s: seq<byte>, p: nat, a: seq<byte>)
    requires At(s, p, Bulk(a))
    ensures var d := Decimal(|a|);
            At(s, p, [DOLLAR]) && At(s, p + 1, d) && At(s, p + 1 + |d|, CRLF) && At(s, p + 3 + |d|, a)
  {
    var d := Decimal(|a|);
    AtSplit(s, p, [DOLLAR], d + CRLF + (a + CRLF));
    AtSplit(s, p + 1, d + CRLF, a + CRLF);
    AtSplit(s, p + 1, d, CRLF);
    AtSplit(s, p + 3 + |d|, a, CRLF);
  }

  /** The first bulk string after a gap without '$' and NUL is found with its exact extent. */
  lemma NextOnBulk(s: seq<byte>, i: nat, gap: seq<byte>, a: seq<byte>)
    requires DOLLAR !in gap && NUL !in gap
    requires At(s, i, gap) && At(s, i + |gap|, Bulk(a))
    ensures var next := i + |gap| + |Bulk(a)|;
            && NextArgument(s, i) == Arg(next - 2 - |a|, |a|, next)
            && At(s, next - 2 - |a|, a)
  {
    var p, d := i + |gap|, Decimal(|a|);
    BulkAt(s, p, a);
    FindsDollar(s, i, gap);
    AtByte(s, p + 1 + |d|, CRLF, 0);
    LengthAt(s, p + 1, |a|);
    FindsEnd(s, p, d);
    assert |Bulk(a)| == 1 + |d| + 2 + |a| + 2;
  }

  lemma FindsDollar(s: seq<byte>, i: nat, gap: seq<byte>)
    requires DOLLAR !in gap && NUL !in gap
    requires At(s, i, gap) && At(s, i + |gap|, [DOLLAR])
    ensures (if s[i] == DOLLAR then i else StrChr(s, i, DOLLAR)) == i + |gap|
  {
    var p := i + |gap|;
    AtByte(s, p, [DOLLAR], 0);
    forall j | i <= j < p
      ensures s[j] != DOLLAR && s[j] != NUL
    {
      AtByte(s, i, gap, j - i);
    }
    StrChrSkips(s, i, p, DOLLAR);
  }

  lemma FindsEnd(s: seq<byte>, p: nat, d: seq<byte>)
    requires forall j | 0 <= j < |d| :: IsDigit(d[j])
    requires At(s, p, [DOLLAR]) && At(s, p + 1, d) && At(s, p + 1 + |d|, CRLF)
    ensures StrChr(s, p, CR) == p + 1 + |d|
  {
    AtByte(s, p, [DOLLAR], 0);
    AtByte(s, p + 1 + |d|, CRLF, 0);
    forall j | p < j < p + 1 + |d|
      ensures IsDigit(s[j])
    {
      AtByte(s, p + 1, d, j - p - 1);
    }
    StrChrSkips(s, p, p + 1 + |d|, CR);
  }

  lemma {:induction false} DigitsOfDecimal(s: seq<byte>, i: nat, n: nat)
    requires At(s, i, Decimal(n))
    ensures DigitsFrom(s, i, 0) == DigitsFrom(s, i + |Decimal(n)|, n)
    decreases n
  {
    if n < 10 {
      AtByte(s, i, Decimal(n), 0);
    } else {
      var k := |Decimal(n / 10)|;
      AtSplit(s, i, Decimal(n / 10), [ZERO + n % 10]);
      AtByte(s, i + k, [ZERO + n % 10], 0);
      DigitsOfDecimal(s, i, n / 10);
    }
  }

  lemma LengthAt(s: seq<byte>, i: nat, n: nat)
    requires At(s, i, Decimal(n)) && i + |Decimal(n)| < |s| && s[i + |Decimal(n)|] == CR
    ensures StrToL(s, i) == n
  {
    DigitsOfDecimal(s, i, n);
    AtByte(s, i, Decimal(n), 0);
  }

  /** The string ends here, without the byte in between. */
  predicate EndsWithout(s: seq<byte>, i: nat, c: byte, end: nat) {
    i <= end <= |s| && (end == |s| || s[end] == 0) && forall j | i <= j < end :: s[j] != c
  }

  /** strchr: the first such byte, unless a NUL or the end comes before it. */
  lemma {:induction false} StrChrMeaning(s: seq<byte>, i: nat, c: byte)
    requires i <= |s| && c != 0
    ensures var k := StrChr(s, i, c);
            && (k != -1 ==> s[k] == c && forall j | i <= j < k :: s[j] != c && s[j] != 0)
            && (k == -1 ==> exists end :: EndsWithout(s, i, c, end))
    decreases |s| - i
  {
    if i < |s| && s[i] != c && s[i] != NUL {
      StrChrMeaning(s, i + 1, c);
      if StrChr(s, i + 1, c) == -1 {
        var end :| EndsWithout(s, i + 1, c, end);
        assert EndsWithout(s, i, c, end);
      }
    } else if i == |s| || s[i] != c {
      assert EndsWithout(s, i, c, i);
    }
  }

  /** strtol: blanks, a sign, and digits up to the first byte that is none. */
  lemma {:induction false} StrToLReads(s: seq<byte>, i: nat, blanks: nat, sign: seq<byte>, n: nat)
    requires i + blanks <= |s| && forall j | i <= j < i + blanks :: s[j] == 32 || 9 <= s[j] <= 13
    requires sign == [] || sign == [43] || sign == [45]
    requires At(s, i + blanks, sign) && At(s, i + blanks + |sign|, Decimal(n))
    requires var end := i + blanks + |sign| + |Decimal(n)|; end == |s| || !(48 <= s[end] <= 57)
    ensures StrToL(s, i) == if sign == [45] then 0 - n else n
    decreases blanks
  {
    if blanks > 0 {
      StrToLReads(s, i + 1, blanks - 1, sign, n);
    } else {
      DigitsOfDecimal(s, i + |sign|, n);
      AtByte(s, i + |sign|, Decimal(n), 0);
      if sign != [] {
        AtByte(s, i, sign, 0);
      }
    }
  }

  lemma {:induction false} ScanBulks(s: seq<byte>, i: nat, gap: seq<byte>, args: seq<seq<byte>>)
    requires DOLLAR !in gap && NUL !in gap
    requires At(s, i, gap) && At(s, i + |gap|, Bulks(args)) && i + |gap| + |Bulks(args)| == |s|
    ensures ScanAll(s, i) == Args(args)
    decreases |args|
  {
    if args == [] {
      assert s[i..] == gap;
      NoDollar(s, i, gap);
    } else {
      BulksAt(s, i + |gap|, args);
      ScanBulks(s, i + |gap| + |Bulk(args[0])|, [], args[1..]);
      ScanOne(s, i, gap, args[0], args[1..]);
      assert [args[0]] + args[1..] == args;
    }
  }

  lemma BulksAt(s: seq<byte>, p: nat, args: seq<seq<byte>>)
    requires args != [] && At(s, p, Bulks(args))
    ensures var next := p + |Bulk(args[0])|;
            && At(s, p, Bulk(args[0])) && At(s, next, []) && At(s, next, Bulks(args[1..]))
            && |Bulks(args)| == |Bulk(args[0])| + |Bulks(args[1..])|
  {
    AtSplit(s, p, Bulk(args[0]), Bulks(args[1..]));
  }

  lemma ScanOne(s: seq<byte>, i: nat, gap: seq<byte>, a: seq<byte>, rest: seq<seq<byte>>)
    requires DOLLAR !in gap && NUL !in gap
    requires At(s, i, gap) && At(s, i + |gap|, Bulk(a))
    requires ScanAll(s, i + |gap| + |Bulk(a)|) == Args(rest)
    ensures ScanAll(s, i) == Args([a] + rest)
  {
    NextOnBulk(s, i, gap, a);
    var next := i + |gap| + |Bulk(a)|;
    assert s[next - 2 - |a|..next - 2] == a;
  }

  lemma {:induction false} NoDollar(s: seq<byte>, i: nat, gap: seq<byte>)
    requires i <= |s| && s[i..] == gap && DOLLAR !in gap
    ensures NextArgument(s, i) == NoMore
  {
    StrChrMisses(s, i, DOLLAR);
  }

  lemma {:induction false} StrChrMisses(s: seq<byte>, i: nat, c: byte)
    requires i <= |s| && c !in s[i..]
    ensures StrChr(s, i, c) == -1
    ensures i < |s| ==> s[i] != c
    decreases |s| - i
  {
    if i < |s| {
      assert s[i] == s[i..][0] && s[i + 1..] == s[i..][1..];
      StrChrMisses(s, i + 1, c);
    }
  }

  /** Walking a formatted command yields exactly its arguments, in order, then NULL: '$', CR and
      NUL inside the arguments are stepped over. */
  lemma ScanCommand(args: seq<seq<byte>>)
    ensures ScanAll(Command(args), 0) == Args(args)
  {
    var h := Header(|args|);
    assert forall j | 0 <= j < |h| :: h[j] != DOLLAR && h[j] != NUL;
    assert At(Command(args), 0, h + Bulks(args));
    AtSplit(Command(args), 0, h, Bulks(args));
    ScanBulks(Command(args), 0, h, args);
  }
}
