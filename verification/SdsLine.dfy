/** Lines as a person writes them for sdssplitargs: plain words, quoted strings, a plain word running
    into a quoted string, any blanks between. */
module SdsLine {
  import opened Bytes
  import opened SdsQuote

  /** An argument behind its blanks: plain text, and possibly a quoted string that ends it. */
  datatype Written = Written(blanks: seq<byte>, plain: seq<byte>, isQuoted: bool, quoted: seq<byte>)

  /** Space, newline, return and tab end a plain word; vertical tab and form feed do not. */
  predicate Ends(c: byte) { c == 32 || c == 10 || c == 13 || c == 9 }

  predicate Blank(c: byte) { c == 32 || 9 <= c <= 13 }

  predicate PlainByte(c: byte) { c != 0 && c != 34 && !Ends(c) }

  predicate Plain(s: seq<byte>) {
    forall i | 0 <= i < |s| :: PlainByte(s[i])
  }

  predicate Blanks(s: seq<byte>) {
    forall i | 0 <= i < |s| :: Blank(s[i])
  }

  /** There is something to start the argument, and that is no blank. */
  predicate Proper(w: Written) {
    && Blanks(w.blanks) && Plain(w.plain)
    && (w.plain != [] || w.isQuoted)
    && (w.plain == [] || !Blank(w.plain[0]))
  }

  /** What may stand behind an argument: nothing, or blanks that end a plain word. */
  predicate Separates(s: seq<byte>) {
    s == [] || Ends(s[0])
  }

  predicate ProperLine(ws: seq<Written>) {
    && (forall i | 0 <= i < |ws| :: Proper(ws[i]))
    && (forall i | 0 < i < |ws| :: ws[i].blanks != [] && Ends(ws[i].blanks[0]))
  }

  /** How the argument is typed. */
  function Text(w: Written): (s: seq<byte>) {
    if w.isQuoted then w.plain + Repr(w.quoted) else w.plain
  }

  function Line(ws: seq<Written>, trailing: seq<byte>): (line: seq<byte>) {
    if ws == [] then trailing else ws[0].blanks + (Text(ws[0]) + Line(ws[1..], trailing))
  }

  /** What the program gets. */
  function Value(w: Written): (v: seq<byte>) {
    if w.isQuoted then w.plain + Decoded(w.quoted) else w.plain
  }

  function Given(ws: seq<Written>): (vs: seq<seq<byte>>)
    ensures |vs| == |ws| && forall i | 0 <= i < |ws| :: vs[i] == Value(ws[i])
  {
    if ws == [] then [] else [Value(ws[0])] + Given(ws[1..])
  }

  // ----- One argument

  lemma {:induction false} BlanksSkipped(blanks: seq<byte>, line: seq<byte>)
    requires Blanks(blanks)
    ensures SplitArgs(blanks + line) == SplitArgs(line)
  {
    if blanks == [] {
      assert blanks + line == line;
    } else {
      BlanksSkipped(blanks[1..], line);
      assert Blank(blanks[0]) && (blanks + line)[1..] == blanks[1..] + line;
    }
  }

  lemma {:induction false} PlainScanned(plain: seq<byte>, rest: seq<byte>, current: seq<byte>)
    requires Plain(plain)
    ensures ScanToken(plain + rest, false, current) == ScanToken(rest, false, current + plain)
  {
    if plain == [] {
      assert plain + rest == rest && current + plain == current;
    } else {
      var line := plain + rest;
      assert PlainByte(plain[0]) && line[0] == plain[0];
      assert line[1..] == plain[1..] + rest;
      PlainScanned(plain[1..], rest, current + [plain[0]]);
      assert current + [plain[0]] + plain[1..] == current + plain;
    }
  }

  /** An opening quote and the string behind it. */
  lemma QuotedScanned(quoted: seq<byte>, tail: seq<byte>, current: seq<byte>)
    requires Closes(tail)
    ensures ScanToken(Repr(quoted) + tail, false, current) == Token(current + Decoded(quoted), tail)
  {
    ReprThen(quoted, tail);
    ScanEscapes(quoted, tail, current);
  }

  lemma ReprThen(quoted: seq<byte>, tail: seq<byte>)
    ensures Head(Repr(quoted) + tail) == 34
    ensures (Repr(quoted) + tail)[1..] == Escapes(quoted) + ([34] + tail)
  {
    ConcatAssoc([34], Escapes(quoted), [34]);
    ConcatAssoc([34], Escapes(quoted) + [34], tail);
    ConcatAssoc(Escapes(quoted), [34], tail);
    var more := Escapes(quoted) + ([34] + tail);
    assert ([34] + more)[1..] == more;
  }

  /** Where an argument begins, no blank is skipped. */
  lemma StartsHere(w: Written, tail: seq<byte>)
    requires Proper(w)
    ensures var line := Text(w) + tail; SkipBlanks(line) == line && Head(line) != NUL
  {
    if w.plain != [] {
      assert PlainByte(w.plain[0]) && (Text(w) + tail)[0] == w.plain[0];
    } else {
      assert (Text(w) + tail)[0] == 34;
    }
  }

  /** A plain word ends, and the blank that ended it is gone. */
  lemma PlainEnds(tail: seq<byte>, current: seq<byte>)
    requires Separates(tail)
    ensures var t := ScanToken(tail, false, current);
            t.Token? && t.value == current && SplitArgs(t.rest) == SplitArgs(tail)
  {
    if tail != [] {
      BlanksSkipped(tail[..1], tail[1..]);
      assert tail[..1] + tail[1..] == tail;
    }
  }

  lemma ArgumentScanned(w: Written, tail: seq<byte>)
    requires Proper(w) && Separates(tail)
    ensures var t := ScanToken(Text(w) + tail, false, []);
            t.Token? && t.value == Value(w) && SplitArgs(t.rest) == SplitArgs(tail)
  {
    assert [] + w.plain == w.plain;
    if w.isQuoted {
      ConcatAssoc(w.plain, Repr(w.quoted), tail);
      PlainScanned(w.plain, Repr(w.quoted) + tail, []);
      QuotedScanned(w.quoted, tail, w.plain);
    } else {
      PlainScanned(w.plain, tail, []);
      PlainEnds(tail, w.plain);
    }
  }

  // ----- A line

  lemma TailSeparates(ws: seq<Written>, trailing: seq<byte>)
    requires ws != [] && ProperLine(ws) && Separates(trailing)
    ensures ProperLine(ws[1..]) && Separates(Line(ws[1..], trailing))
  {
    var rest := ws[1..];
    forall i | 0 <= i < |rest| ensures Proper(rest[i]) && rest[i].blanks != [] && Ends(rest[i].blanks[0]) {
      assert rest[i] == ws[i + 1];
    }
  }

  /** Whatever line continues behind the arguments, they come first. */
  lemma {:induction false} ArgumentsThen(ws: seq<Written>, trailing: seq<byte>)
    requires ProperLine(ws) && Separates(trailing)
    ensures SplitArgs(Line(ws, trailing)) == Prepended(Given(ws), SplitArgs(trailing))
  {
    if ws == [] {
      ArgumentsAlone(SplitArgs(trailing));
    } else {
      var rest := Line(ws[1..], trailing);
      assert Proper(ws[0]);
      TailSeparates(ws, trailing);
      ArgumentsThen(ws[1..], trailing);
      BlanksSkipped(ws[0].blanks, Text(ws[0]) + rest);
      StartsHere(ws[0], rest);
      ArgumentScanned(ws[0], rest);
      FirstThen(Value(ws[0]), Given(ws[1..]), SplitArgs(trailing));
    }
  }

  lemma FirstThen(v: seq<byte>, vs: seq<seq<byte>>, a: Arguments)
    ensures Prepended([v], Prepended(vs, a)) == Prepended([v] + vs, a)
  {
    if a.Arguments? {
      ConcatAssoc([v], vs, a.values);
    }
  }

  /** A line of plain words and quoted strings splits into what was written. */
  lemma LineSplits(ws: seq<Written>, trailing: seq<byte>)
    requires ProperLine(ws) && Blanks(trailing) && Separates(trailing)
    ensures SplitArgs(Line(ws, trailing)) == Arguments(Given(ws))
  {
    ArgumentsThen(ws, trailing);
    BlanksSkipped(trailing, []);
    assert trailing + [] == trailing && Given(ws) + [] == Given(ws);
  }

  /** Where the line goes wrong: a quote that is never closed, or one closed in front of something
      that is no blank, behind any good arguments. */
  lemma BadQuoteFails(ws: seq<Written>, blanks: seq<byte>, plain: seq<byte>, quoted: seq<byte>, rest: seq<byte>)
    requires ProperLine(ws) && Blanks(blanks) && Separates(blanks) && (ws == [] || blanks != [])
    requires Plain(plain) && (plain == [] || !Blank(plain[0]))
    requires rest == [] || (rest[0] == 34 && |rest| > 1 && rest[1] != 0 && !Blank(rest[1]))
    ensures var bad := plain + ([34] + (Escapes(quoted) + rest));
            SplitArgs(Line(ws, blanks + bad)) == Failed
  {
    var more := [34] + (Escapes(quoted) + rest);
    var bad := plain + more;
    BlanksSkipped(blanks, bad);
    assert more[1..] == Escapes(quoted) + rest;
    PlainScanned(plain, more, []);
    BadEnd(quoted, rest, [] + plain);
    if plain != [] {
      assert PlainByte(plain[0]) && bad[0] == plain[0];
    } else {
      assert bad[0] == 34;
    }
    assert SplitArgs(bad) == Failed;
    if ws == [] {
      assert Line(ws, blanks + bad) == blanks + bad;
    } else {
      assert (blanks + bad)[0] == blanks[0];
      ArgumentsThen(ws, blanks + bad);
    }
  }

  lemma {:induction false} BadEnd(quoted: seq<byte>, rest: seq<byte>, current: seq<byte>)
    requires rest == [] || (rest[0] == 34 && |rest| > 1 && rest[1] != 0 && !Blank(rest[1]))
    ensures ScanToken(Escapes(quoted) + rest, true, current) == Unbalanced
    decreases |quoted|
  {
    if quoted == [] {
      assert Escapes(quoted) + rest == rest;
    } else {
      ConcatAssoc(Escape(quoted[0]), Escapes(quoted[1..]), rest);
      ScanOne(quoted[0], Escapes(quoted[1..]) + rest, current);
      BadEnd(quoted[1..], rest, current + Decode(quoted[0]));
    }
  }

  // ----- The quoted form itself

  /** Printable text without quotes and backslashes stands between the quotes as it is. */
  lemma {:induction false} PrintableIsItself(s: seq<byte>)
    requires forall i | 0 <= i < |s| :: 32 <= s[i] < 127 && s[i] != 34 && s[i] != 92
    ensures Escapes(s) == s && Repr(s) == [34] + s + [34]
  {
    if s != [] {
      PrintableIsItself(s[1..]);
      assert s == [s[0]] + s[1..];
    }
  }

  /** The value of a hexadecimal digit in ASCII. */
  function HexValue(c: byte): (v: int) {
    if 48 <= c <= 57 then c - 48 else if 97 <= c <= 102 then c - 87 else -1
  }

  /** The other bytes: a backslash, and the byte itself, the letter of its C escape, or x and the
      two hexadecimal digits of its number. */
  lemma EscapedBytes(c: byte)
    requires c < 32 || c >= 127 || c == 34 || c == 92
    ensures var e := Escape(c);
            && |e| >= 2 && e[0] == 92
            && (c == 34 || c == 92 ==> e == [92, c])
            && (c == 10 ==> e == [92, 110]) && (c == 13 ==> e == [92, 114]) && (c == 9 ==> e == [92, 116])
            && (c == 7 ==> e == [92, 97]) && (c == 8 ==> e == [92, 98])
            && (c !in {34, 92, 10, 13, 9, 7, 8} ==>
                  && |e| == 4 && e[1] == 120 && 0 <= HexValue(e[2]) && 0 <= HexValue(e[3])
                  && 16 * HexValue(e[2]) + HexValue(e[3]) == c as int)
  {
    assert HexValue(HexDigit(c / 16)) == c / 16 && HexValue(HexDigit(c % 16)) == c % 16;
  }
}
