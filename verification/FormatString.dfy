/** redisvFormatCommand for formats made of text, spaces, %s, %b and %%. */
module FormatString {
  import opened Bytes
  import opened Formatter

  const LETTER_S: byte := 115
  const LETTER_B: byte := 98

  predicate IsDirective(f: seq<byte>) {
    |f| > 1 && f[0] == PERCENT
  }

  /** Every % is followed by s, b or %, except that a final % is plain text. */
  predicate Supported(f: seq<byte>) {
    if f == [] then true
    else if IsDirective(f) then
      (f[1] == LETTER_S || f[1] == LETTER_B || f[1] == PERCENT) && Supported(f[2..])
    else Supported(f[1..])
  }

  /** How many values the directives take. */
  function Uses(f: seq<byte>): (n: nat) {
    if f == [] then 0
    else if IsDirective(f) then (if f[1] == PERCENT then 0 else 1) + Uses(f[2..])
    else Uses(f[1..])
  }

  /** The bytes strlen sees. */
  function CString(v: seq<byte>): (s: seq<byte>) {
    if v == [] || v[0] == NUL then [] else [v[0]] + CString(v[1..])
  }

  /** What %s inserts: the value up to its first NUL byte, or all of it. */
  lemma {:induction false} CStringMeaning(v: seq<byte>)
    ensures CString(v) <= v && 0 !in CString(v)
    ensures CString(v) == v || v[|CString(v)|] == 0
  {
    if v != [] && v[0] != NUL {
      CStringMeaning(v[1..]);
      assert v == [v[0]] + v[1..];
    }
  }

  lemma {:induction false} CStringCuts(text: seq<byte>, rest: seq<byte>)
    requires 0 !in text && (rest == [] || rest[0] == 0)
    ensures CString(text + rest) == text
  {
    if text == [] {
      assert text + rest == rest;
    } else {
      CStringCuts(text[1..], rest);
      assert (text + rest)[1..] == text[1..] + rest;
    }
  }

  // ----- Meaning: cut the format at its own spaces, then substitute

  function FirstWord(f: seq<byte>): (w: seq<byte>)
    ensures |w| <= |f|
    ensures f != [] && f[0] != SPACE ==> |w| > 0
  {
    if f == [] || f[0] == SPACE then [] else [f[0]] + FirstWord(f[1..])
  }

  /** The words of the format itself; no value is looked at. */
  function Words(f: seq<byte>): (ws: seq<seq<byte>>)
    decreases |f|
  {
    if f == [] then []
    else if f[0] == SPACE then Words(f[1..])
    else [FirstWord(f)] + Words(f[|FirstWord(f)|..])
  }

  /** A word with its directives replaced by the next values. */
  function Expand(w: seq<byte>, vals: seq<seq<byte>>): (a: seq<byte>)
    requires Uses(w) <= |vals|
  {
    if w == [] then []
    else if IsDirective(w) then
      if w[1] == PERCENT then [PERCENT] + Expand(w[2..], vals)
      else (if w[1] == LETTER_S then CString(vals[0]) else vals[0]) + Expand(w[2..], vals[1..])
    else [w[0]] + Expand(w[1..], vals)
  }

  function UsesAll(ws: seq<seq<byte>>): (n: nat) {
    if ws == [] then 0 else Uses(ws[0]) + UsesAll(ws[1..])
  }

  /** One argument per word of the format, whatever bytes the values hold. */
  function Arguments(ws: seq<seq<byte>>, vals: seq<seq<byte>>): (args: seq<seq<byte>>)
    requires UsesAll(ws) <= |vals|
    ensures |args| == |ws|
  {
    if ws == [] then []
    else [Expand(ws[0], vals)] + Arguments(ws[1..], vals[Uses(ws[0])..])
  }

  // ----- The character loop

  /** What the loop still adds from a given point on. */
  function Scan(f: seq<byte>, cur: seq<byte>, touched: bool, vals: seq<seq<byte>>): (args: seq<seq<byte>>)
    requires Uses(f) <= |vals|
    decreases |f|
  {
    if f == [] then (if touched then [cur] else [])
    else if IsDirective(f) then
      if f[1] == PERCENT then Scan(f[2..], cur + [PERCENT], true, vals)
      else Scan(f[2..], cur + (if f[1] == LETTER_S then CString(vals[0]) else vals[0]), true, vals[1..])
    else if f[0] == SPACE then
      if touched then [cur] + Scan(f[1..], [], false, vals) else Scan(f[1..], cur, false, vals)
    else Scan(f[1..], cur + [f[0]], true, vals)
  }

  /** The first word takes its values before the rest does. */
  lemma {:induction false} UsesSplit(f: seq<byte>)
    requires Supported(f)
    ensures Supported(f[|FirstWord(f)|..])
    ensures Uses(f) == Uses(FirstWord(f)) + Uses(f[|FirstWord(f)|..])
    decreases |f|
  {
    if f == [] || f[0] == SPACE {
      assert f[0..] == f;
    } else if IsDirective(f) {
      WordOfDirective(f);
      UsesSplit(f[2..]);
      assert f[2..][|FirstWord(f[2..])|..] == f[|FirstWord(f)|..];
    } else {
      WordOfPlain(f);
      UsesSplit(f[1..]);
      assert f[1..][|FirstWord(f[1..])|..] == f[|FirstWord(f)|..];
    }
  }

  lemma WordOfDirective(f: seq<byte>)
    requires Supported(f) && IsDirective(f)
    ensures FirstWord(f) == f[..2] + FirstWord(f[2..])
    ensures IsDirective(FirstWord(f)) && FirstWord(f)[1] == f[1] && FirstWord(f)[2..] == FirstWord(f[2..])
  {
    assert f[1..][1..] == f[2..];
    assert FirstWord(f[1..]) == [f[1]] + FirstWord(f[2..]);
  }

  lemma WordOfPlain(f: seq<byte>)
    requires f != [] && !IsDirective(f) && f[0] != SPACE
    ensures FirstWord(f) == [f[0]] + FirstWord(f[1..])
    ensures !IsDirective(FirstWord(f)) && FirstWord(f)[1..] == FirstWord(f[1..])
  {
  }

  lemma {:induction false} UsesOfWords(f: seq<byte>)
    requires Supported(f)
    ensures UsesAll(Words(f)) == Uses(f)
    decreases |f|
  {
    if f != [] {
      if f[0] == SPACE {
        UsesOfWords(f[1..]);
      } else {
        UsesSplit(f);
        UsesOfWords(f[|FirstWord(f)|..]);
        var w, rest := FirstWord(f), Words(f[|FirstWord(f)|..]);
        assert ([w] + rest)[1..] == rest;
      }
    }
  }

  /** The rest of a format behind its first word, seen from behind its first bytes. */
  lemma RestOfWord(f: seq<byte>, k: nat)
    requires k <= |f| && |FirstWord(f)| == k + |FirstWord(f[k..])|
    ensures f[k..][|FirstWord(f[k..])|..] == f[|FirstWord(f)|..]
  {
  }

  /** A directive in the middle of a word, once the rest of the word is known. */
  lemma ScanDirective(f: seq<byte>, cur: seq<byte>, vals: seq<seq<byte>>, tail: seq<seq<byte>>)
    requires Supported(f) && IsDirective(f) && Uses(f) <= |vals| && Uses(FirstWord(f)) <= |vals|
    requires var w, v := FirstWord(f[2..]), if f[1] == PERCENT then [PERCENT] else if f[1] == LETTER_S then CString(vals[0]) else vals[0];
             var more := if f[1] == PERCENT then vals else vals[1..];
             Uses(w) <= |more| && Scan(f[2..], cur + v, true, more) == [cur + v + Expand(w, more)] + tail
    ensures Scan(f, cur, true, vals) == [cur + Expand(FirstWord(f), vals)] + tail
  {
    WordOfDirective(f);
    var w := FirstWord(f[2..]);
    if f[1] == PERCENT {
      ConcatAssoc(cur, [PERCENT], Expand(w, vals));
    } else {
      ConcatAssoc(cur, if f[1] == LETTER_S then CString(vals[0]) else vals[0], Expand(w, vals[1..]));
    }
  }

  /** In the middle of a word the loop finishes that word and then does the others. */
  lemma {:induction false} ScanWord(f: seq<byte>, cur: seq<byte>, vals: seq<seq<byte>>)
    requires Supported(f) && Uses(f) <= |vals|
    ensures var w := FirstWord(f);
            && Uses(w) + Uses(f[|w|..]) <= |vals|
            && Scan(f, cur, true, vals)
               == [cur + Expand(w, vals)] + Scan(f[|w|..], [], false, vals[Uses(w)..])
    decreases |f|
  {
    var w := FirstWord(f);
    UsesSplit(f);
    if f == [] {
      assert cur + [] == cur;
    } else if IsDirective(f) {
      WordOfDirective(f);
      RestOfWord(f, 2);
      if f[1] == PERCENT {
        ScanWord(f[2..], cur + [PERCENT], vals);
      } else {
        ScanWord(f[2..], cur + if f[1] == LETTER_S then CString(vals[0]) else vals[0], vals[1..]);
        assert vals[1..][Uses(w[2..])..] == vals[Uses(w)..];
      }
      ScanDirective(f, cur, vals, Scan(f[|w|..], [], false, vals[Uses(w)..]));
    } else if f[0] == SPACE {
      assert cur + [] == cur && f[0..] == f && vals[0..] == vals;
    } else {
      WordOfPlain(f);
      RestOfWord(f, 1);
      ScanWord(f[1..], cur + [f[0]], vals);
      ConcatAssoc(cur, [f[0]], Expand(w[1..], vals));
    }
  }

  /** The loop's arguments are the expanded words of the format. */
  lemma {:induction false} ScanIsArguments(f: seq<byte>, vals: seq<seq<byte>>)
    requires Supported(f) && Uses(f) <= |vals|
    ensures UsesAll(Words(f)) <= |vals|
    ensures Scan(f, [], false, vals) == Arguments(Words(f), vals)
    decreases |f|
  {
    UsesOfWords(f);
    if f != [] {
      if f[0] == SPACE {
        ScanIsArguments(f[1..], vals);
      } else {
        ScanStarts(f, vals);
        ScanWord(f, [], vals);
        UsesSplit(f);
        var w := FirstWord(f);
        ScanIsArguments(f[|w|..], vals[Uses(w)..]);
        assert [] + Expand(w, vals) == Expand(w, vals);
        var rest := Words(f[|w|..]);
        assert ([w] + rest)[1..] == rest;
      }
    }
  }

  lemma ScanStarts(f: seq<byte>, vals: seq<seq<byte>>)
    requires f != [] && f[0] != SPACE && Uses(f) <= |vals|
    ensures Scan(f, [], false, vals) == Scan(f, [], true, vals)
  {
  }

  /** redisvFormatCommand: byte for byte what redisFormatCommandArgv writes for the words of the
      format with the values substituted. */
  method FormatV(format: seq<byte>, vals: seq<seq<byte>>) returns (cmd: array<byte>, totlen: nat)
    requires Supported(format) && NUL !in format && Uses(format) <= |vals|
    ensures UsesAll(Words(format)) <= |vals|
    ensures fresh(cmd) && cmd.Length == totlen + 1
    ensures cmd[..totlen] == Command(Arguments(Words(format), vals)) && cmd[totlen] == NUL
  {
    var c, cur, touched := 0, [], false;
    var argv: seq<seq<byte>> := [];
    var ap := vals;
    totlen := 0;
    assert format[0..] == format;
    while c < |format|
      invariant c <= |format| && Supported(format[c..]) && Uses(format[c..]) <= |ap|
      invariant !touched ==> cur == []
      invariant totlen == |Bulks(argv)|
      invariant argv + Scan(format[c..], cur, touched, ap) == Scan(format, [], false, vals)
    {
      ghost var f := format[c..];
      assert f[1..] == format[c + 1..];
      assert IsDirective(f) ==> f[2..] == format[c + 2..];
      if format[c] != PERCENT || c + 1 == |format| {
        if format[c] == SPACE {
          if touched {
            ConcatAssoc(argv, [cur], Scan(f[1..], [], false, ap));
            BulksSnoc(argv, cur);
            argv := argv + [cur];
            var n := BulkLen(|cur|);
            totlen := totlen + n;
            cur, touched := [], false;
          }
        } else {
          cur, touched := cur + [format[c]], true;
        }
      } else {
        if format[c + 1] == PERCENT {
          cur := cur + [PERCENT];
        } else {
          cur := cur + (if format[c + 1] == LETTER_S then CString(ap[0]) else ap[0]);
          ap := ap[1..];
        }
        touched := true;
        c := c + 1;
      }
      c := c + 1;
    }
    if touched {
      BulksSnoc(argv, cur);
      argv := argv + [cur];
      var n := BulkLen(|cur|);
      totlen := totlen + n;
    }
    ScanIsArguments(format, vals);
    assert argv == Arguments(Words(format), vals);
    var digits := IntLen(|argv|);
    totlen := totlen + 1 + digits + 2;
    cmd := Write(argv, totlen);
  }
}
