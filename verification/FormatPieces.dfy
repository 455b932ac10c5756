/** Formats written out of their parts, each with the value it takes: what printf-style formatting
    promises its callers, said without the scanner. */
module FormatPieces {
  import opened Bytes
  import opened FormatString

  /** Literal: the byte itself. Str: %s with the string text, which ends at a NUL byte if anything
      follows it. Bin: %b with bytes of known length. Percent: %%. */
  datatype Piece = Literal(c: byte) | Str(text: seq<byte>, rest: seq<byte>) | Bin(bytes: seq<byte>) | Percent

  /** A word of the format, behind so many spaces. */
  datatype Word = Word(spaces: nat, pieces: seq<Piece>)

  predicate Proper(p: Piece) {
    match p
    case Literal(c) => c != 0 && c != 32 && c != 37
    case Str(text, rest) => 0 !in text && (rest == [] || rest[0] == 0)
    case Bin(_) => true
    case Percent => true
  }

  /** How the piece is written in the format. */
  function Code(p: Piece): (f: seq<byte>)
    ensures f != []
  {
    match p
    case Literal(c) => [c]
    case Str(_, _) => [37, 115]
    case Bin(_) => [37, 98]
    case Percent => [37, 37]
  }

  /** The values the piece takes from the argument list. */
  function Takes(p: Piece): (vals: seq<seq<byte>>) {
    match p
    case Literal(_) => []
    case Str(text, rest) => [text + rest]
    case Bin(bytes) => [bytes]
    case Percent => []
  }

  /** What the piece puts into the command. */
  function Puts(p: Piece): (a: seq<byte>) {
    match p
    case Literal(c) => [c]
    case Str(text, _) => text
    case Bin(bytes) => bytes
    case Percent => [37]
  }

  function Codes(ps: seq<Piece>): (f: seq<byte>)
    ensures ps != [] ==> f != []
  {
    if ps == [] then [] else Code(ps[0]) + Codes(ps[1..])
  }

  function TakesAll(ps: seq<Piece>): (vals: seq<seq<byte>>) {
    if ps == [] then [] else Takes(ps[0]) + TakesAll(ps[1..])
  }

  function PutsAll(ps: seq<Piece>): (a: seq<byte>) {
    if ps == [] then [] else Puts(ps[0]) + PutsAll(ps[1..])
  }

  function Spaces(n: nat): (s: seq<byte>)
    ensures |s| == n && forall i | 0 <= i < n :: s[i] == 32
  {
    seq(n, _ => 32)
  }

  /** The format text: words behind their spaces, and spaces at the end. */
  function Format(ws: seq<Word>, trailing: nat): (f: seq<byte>) {
    if ws == [] then Spaces(trailing)
    else Spaces(ws[0].spaces) + (Codes(ws[0].pieces) + Format(ws[1..], trailing))
  }

  function Values(ws: seq<Word>): (vals: seq<seq<byte>>) {
    if ws == [] then [] else TakesAll(ws[0].pieces) + Values(ws[1..])
  }

  predicate ProperWord(w: Word) {
    w.pieces != [] && forall i | 0 <= i < |w.pieces| :: Proper(w.pieces[i])
  }

  /** Every word has a piece, and a space before it unless it is the first. */
  predicate ProperFormat(ws: seq<Word>) {
    && (forall i | 0 <= i < |ws| :: ProperWord(ws[i]))
    && (forall i | 0 < i < |ws| :: ws[i].spaces > 0)
  }

  // ----- One piece, one word, one format

  /** A piece in front of more format text. */
  lemma OnePiece(p: Piece, f: seq<byte>)
    requires Proper(p)
    ensures Supported(Code(p) + f) == Supported(f)
    ensures Uses(Code(p) + f) == |Takes(p)| + Uses(f)
    ensures FirstWord(Code(p) + f) == Code(p) + FirstWord(f)
    ensures 0 !in Code(p)
  {
    var g := Code(p) + f;
    if p.Literal? {
      assert g[1..] == f;
    } else {
      assert IsDirective(g) && g[2..] == f && g[1..][1..] == f;
      assert FirstWord(g[1..]) == [g[1]] + FirstWord(f);
    }
  }

  lemma OnePieceExpands(p: Piece, f: seq<byte>, vals: seq<seq<byte>>)
    requires Proper(p) && Uses(f) <= |vals|
    ensures Uses(Code(p) + f) <= |Takes(p) + vals|
    ensures Expand(Code(p) + f, Takes(p) + vals) == Puts(p) + Expand(f, vals)
  {
    OnePiece(p, f);
    var g, all := Code(p) + f, Takes(p) + vals;
    if p.Literal? {
      assert g[1..] == f && all == vals;
    } else {
      assert IsDirective(g) && g[2..] == f;
      if p.Percent? {
        assert all == vals;
      } else {
        assert all[1..] == vals;
        if p.Str? {
          CStringCuts(p.text, p.rest);
        }
      }
    }
  }

  /** The pieces of a word in front of more format text. */
  lemma {:induction false} OneWord(ps: seq<Piece>, f: seq<byte>)
    requires forall i | 0 <= i < |ps| :: Proper(ps[i])
    ensures Supported(Codes(ps) + f) == Supported(f)
    ensures Uses(Codes(ps) + f) == |TakesAll(ps)| + Uses(f)
    ensures FirstWord(Codes(ps) + f) == Codes(ps) + FirstWord(f)
    ensures 0 !in Codes(ps)
  {
    if ps == [] {
      assert [] + f == f && [] + FirstWord(f) == FirstWord(f);
    } else {
      var rest := Codes(ps[1..]);
      ConcatAssoc(Code(ps[0]), rest, f);
      ConcatAssoc(Code(ps[0]), rest, FirstWord(f));
      OnePiece(ps[0], rest + f);
      OneWord(ps[1..], f);
    }
  }

  lemma {:induction false} OneWordExpands(ps: seq<Piece>, vals: seq<seq<byte>>)
    requires forall i | 0 <= i < |ps| :: Proper(ps[i])
    ensures Uses(Codes(ps)) <= |TakesAll(ps) + vals|
    ensures Expand(Codes(ps), TakesAll(ps) + vals) == PutsAll(ps)
  {
    if ps != [] {
      var rest := TakesAll(ps[1..]) + vals;
      ConcatAssoc(Takes(ps[0]), TakesAll(ps[1..]), vals);
      OneWordExpands(ps[1..], vals);
      OnePieceExpands(ps[0], Codes(ps[1..]), rest);
    }
  }

  lemma {:induction false} SpacesSkipped(n: nat, f: seq<byte>)
    ensures Supported(Spaces(n) + f) == Supported(f)
    ensures Uses(Spaces(n) + f) == Uses(f) && Words(Spaces(n) + f) == Words(f)
  {
    var g := Spaces(n) + f;
    if n == 0 {
      assert g == f;
    } else {
      SpacesSkipped(n - 1, f);
      assert g[1..] == Spaces(n - 1) + f;
    }
  }

  /** A word in front of a format that starts with a space or is empty. */
  lemma WordCut(ps: seq<Piece>, f: seq<byte>)
    requires ps != [] && forall i | 0 <= i < |ps| :: Proper(ps[i])
    requires f == [] || f[0] == 32
    ensures Words(Codes(ps) + f) == [Codes(ps)] + Words(f)
  {
    var g := Codes(ps) + f;
    OneWord(ps, f);
    assert FirstWord(g) == Codes(ps) by {
      assert Codes(ps) + [] == Codes(ps);
    }
    assert g[0] != 32 by {
      assert g[0] == Code(ps[0])[0] && Proper(ps[0]);
    }
    assert g[|Codes(ps)|..] == f;
  }

  lemma FormatStarts(ws: seq<Word>, trailing: nat)
    requires ws != [] && ProperFormat(ws)
    ensures ProperFormat(ws[1..])
    ensures Format(ws[1..], trailing) == [] || Format(ws[1..], trailing)[0] == 32
  {
    var rest := ws[1..];
    forall i | 0 <= i < |rest| ensures ProperWord(rest[i]) && rest[i].spaces > 0 {
      assert rest[i] == ws[i + 1];
    }
  }

  lemma FirstArgument(ps: seq<Piece>, ws: seq<seq<byte>>, vals: seq<seq<byte>>)
    requires forall i | 0 <= i < |ps| :: Proper(ps[i])
    requires UsesAll(ws) <= |vals|
    ensures UsesAll([Codes(ps)] + ws) <= |TakesAll(ps) + vals|
    ensures Arguments([Codes(ps)] + ws, TakesAll(ps) + vals) == [PutsAll(ps)] + Arguments(ws, vals)
  {
    OneWord(ps, []);
    assert Codes(ps) + [] == Codes(ps);
    OneWordExpands(ps, vals);
    assert ([Codes(ps)] + ws)[1..] == ws;
    assert (TakesAll(ps) + vals)[|TakesAll(ps)|..] == vals;
  }

  /** The format is one the scanner takes, and it takes as many values as its pieces do. */
  lemma {:induction false} FormatTakes(ws: seq<Word>, trailing: nat)
    requires ProperFormat(ws)
    ensures var f := Format(ws, trailing);
            Supported(f) && 0 !in f && Uses(f) == |Values(ws)|
  {
    if ws == [] {
      assert Spaces(trailing) + [] == Spaces(trailing);
      SpacesSkipped(trailing, []);
    } else {
      var ps, rest := ws[0].pieces, Format(ws[1..], trailing);
      assert ProperWord(ws[0]);
      FormatStarts(ws, trailing);
      FormatTakes(ws[1..], trailing);
      SpacesSkipped(ws[0].spaces, Codes(ps) + rest);
      OneWord(ps, rest);
    }
  }

  lemma {:induction false} FormatWords(ws: seq<Word>, trailing: nat)
    requires ProperFormat(ws)
    ensures Words(Format(ws, trailing)) == WordCodes(ws)
  {
    if ws == [] {
      assert Spaces(trailing) + [] == Spaces(trailing);
      SpacesSkipped(trailing, []);
    } else {
      var ps, rest := ws[0].pieces, Format(ws[1..], trailing);
      assert ProperWord(ws[0]);
      FormatStarts(ws, trailing);
      FormatWords(ws[1..], trailing);
      SpacesSkipped(ws[0].spaces, Codes(ps) + rest);
      WordCut(ps, rest);
    }
  }

  function WordCodes(ws: seq<Word>): (codes: seq<seq<byte>>) {
    if ws == [] then [] else [Codes(ws[0].pieces)] + WordCodes(ws[1..])
  }

  /** One argument per word: everything its pieces put there, in order. */
  function Results(ws: seq<Word>): (args: seq<seq<byte>>)
    ensures |args| == |ws| && forall i | 0 <= i < |ws| :: args[i] == PutsAll(ws[i].pieces)
  {
    if ws == [] then [] else [PutsAll(ws[0].pieces)] + Results(ws[1..])
  }

  lemma {:induction false} WordsExpand(ws: seq<Word>)
    requires ProperFormat(ws)
    ensures UsesAll(WordCodes(ws)) <= |Values(ws)|
    ensures Arguments(WordCodes(ws), Values(ws)) == Results(ws)
  {
    if ws != [] {
      assert ProperWord(ws[0]);
      FormatStarts(ws, 0);
      WordsExpand(ws[1..]);
      FirstArgument(ws[0].pieces, WordCodes(ws[1..]), Values(ws[1..]));
    }
  }

  /** The arguments of a format are its words with every directive replaced by its value: a string up
      to its end, bytes in full, a percent sign for two; whatever spaces or percent signs the values hold. */
  lemma FormatMeaning(ws: seq<Word>, trailing: nat)
    requires ProperFormat(ws)
    ensures var f, vals := Format(ws, trailing), Values(ws);
            && Supported(f) && 0 !in f && Uses(f) == |vals| && UsesAll(Words(f)) <= |vals|
            && Arguments(Words(f), vals) == Results(ws)
  {
    FormatTakes(ws, trailing);
    FormatWords(ws, trailing);
    WordsExpand(ws);
  }

  /** A format of %s words over strings, and what it makes of them. */
  function StringWords(vals: seq<seq<byte>>): (ws: seq<Word>)
    ensures |ws| == |vals| && forall i | 0 <= i < |vals| :: ws[i] == Word(1, [Str(vals[i], [])])
  {
    if vals == [] then [] else [Word(1, [Str(vals[0], [])])] + StringWords(vals[1..])
  }

  /** " %s %s ... %s" gives exactly the strings as arguments. */
  lemma {:induction false} StringsInStringsOut(vals: seq<seq<byte>>)
    requires forall i | 0 <= i < |vals| :: 0 !in vals[i]
    ensures var f := Format(StringWords(vals), 0);
            Supported(f) && Uses(f) == |vals| && UsesAll(Words(f)) <= |vals| && Arguments(Words(f), vals) == vals
  {
    var ws := StringWords(vals);
    StringValues(vals);
    FormatMeaning(ws, 0);
    forall i | 0 <= i < |vals| ensures Results(ws)[i] == vals[i] {
      StringPuts(vals[i]);
    }
  }

  lemma StringPuts(text: seq<byte>)
    ensures PutsAll([Str(text, [])]) == text && TakesAll([Str(text, [])]) == [text]
  {
    var ps := [Str(text, [])];
    assert ps[1..] == [] && text + [] == text;
  }

  lemma {:induction false} StringValues(vals: seq<seq<byte>>)
    ensures Values(StringWords(vals)) == vals
  {
    if vals != [] {
      StringPuts(vals[0]);
      StringValues(vals[1..]);
      assert StringWords(vals)[1..] == StringWords(vals[1..]);
    }
  }
}
