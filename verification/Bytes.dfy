/** Bytes as the C sources see them, the ASCII codes that steer the protocol, and the
    text/number conversions shared by the reader and the formatter. */
module Bytes {

  type byte = b: int | 0 <= b < 256

  const NUL: byte := 0
  const BELL: byte := 7
  const BACKSPACE: byte := 8
  const TAB: byte := 9
  const LF: byte := 10
  const VTAB: byte := 11
  const FORMFEED: byte := 12
  const CR: byte := 13
  const SPACE: byte := 32
  const QUOTE: byte := 34
  const DOLLAR: byte := 36
  const PERCENT: byte := 37
  const STAR: byte := 42
  const PLUS: byte := 43
  const MINUS: byte := 45
  const ZERO: byte := 48
  const COLON: byte := 58
  const BACKSLASH: byte := 92

  const CRLF: seq<byte> := [CR, LF]

  lemma ConcatAssoc<T>(a: seq<T>, b: seq<T>, c: seq<T>)
    ensures a + b + c == a + (b + c)
  {
  }

  /** isspace in the C locale. */
  predicate IsSpace(c: byte) {
    c == SPACE || TAB <= c <= CR
  }

  predicate IsDigit(c: byte) {
    ZERO <= c < ZERO + 10
  }

  /** Decimal digits of n, as printf's %d and %zu write them. */
  function Decimal(n: nat): (s: seq<byte>)
    ensures |s| >= 1
    ensures forall i | 0 <= i < |s| :: IsDigit(s[i])
  {
    if n < 10 then [ZERO + n] else Decimal(n / 10) + [ZERO + n % 10]
  }

  /** What ASCII digits stand for in base ten. */
  function ValueOf(s: seq<byte>): (v: int) {
    if s == [] then 0 else 10 * ValueOf(s[..|s| - 1]) + (s[|s| - 1] as int - 48)
  }

  /** The text is the number in base ten, in the ASCII digits 48 to 57, without leading zeros. */
  lemma {:induction false} DecimalIsTheNumber(n: nat)
    ensures ValueOf(Decimal(n)) == n
    ensures forall i | 0 <= i < |Decimal(n)| :: 48 <= Decimal(n)[i] <= 57
    ensures n > 0 ==> Decimal(n)[0] != 48
  {
    if n >= 10 {
      DecimalIsTheNumber(n / 10);
      assert Decimal(n)[..|Decimal(n)| - 1] == Decimal(n / 10);
    } else {
      assert Decimal(n)[..0] == [];
    }
  }

  function Tens(k: nat): (n: nat)
    ensures n > 0
  {
    if k == 0 then 1 else 10 * Tens(k - 1)
  }

  /** A number has at most k digits exactly when it is below ten to the k. */
  lemma {:induction false} DecimalSize(n: nat, k: nat)
    requires k > 0
    ensures |Decimal(n)| <= k <==> n < Tens(k)
  {
    if k == 1 {
      assert Tens(1) == 10 * Tens(0);
    } else if n >= 10 {
      DecimalSize(n / 10, k - 1);
    }
  }

  /** The digit loop of readLongLong: folds digits into v up to a CR or the end of the line,
      and gives -1 at the first byte that is not a digit. */
  function ReadDigits(s: seq<byte>, v: nat): (r: int)
    ensures r >= -1
  {
    if s == [] || s[0] == CR then v
    else if IsDigit(s[0]) then ReadDigits(s[1..], 10 * v + (s[0] - ZERO))
    else -1
  }

  /** Any byte but a digit or CR behind digits spoils the number. */
  lemma {:induction false} OtherByteSpoils(digits: seq<byte>, c: byte, t: seq<byte>, v: nat)
    requires (forall i | 0 <= i < |digits| :: 48 <= digits[i] <= 57) && c != 13 && !(48 <= c <= 57)
    ensures ReadDigits(digits + ([c] + t), v) == -1
  {
    var s := digits + ([c] + t);
    if digits != [] {
      assert s[1..] == digits[1..] + ([c] + t) && s[0] == digits[0];
      OtherByteSpoils(digits[1..], c, t, 10 * v + (s[0] - 48));
    }
  }

  /** Value of a line, ambiguously -1 for unexpected input. */
  function ReadLongLong(line: seq<byte>): (r: int) {
    if line != [] && line[0] == MINUS then
      var v := ReadDigits(line[1..], 0);
      if v == -1 then -1 else -v
    else if line != [] && line[0] == PLUS then ReadDigits(line[1..], 0)
    else ReadDigits(line, 0)
  }

  /** Reading a digit block first and the tail afterwards. */
  lemma {:induction false} ReadDigitsSplit(n: nat, t: seq<byte>)
    ensures ReadDigits(Decimal(n) + t, 0) == ReadDigits(t, n)
  {
    var d := Decimal(n);
    if n < 10 {
      assert (d + t)[1..] == t;
    } else {
      var last: seq<byte> := [ZERO + n % 10];
      ConcatAssoc(Decimal(n / 10), last, t);
      ReadDigitsSplit(n / 10, last + t);
      assert (last + t)[1..] == t;
    }
  }

  /** The reader's number parser inverts the formatter's number printer, whatever CR-led
      bytes follow. */
  lemma ReadLongLongDecimal(n: nat, t: seq<byte>)
    requires t == [] || t[0] == CR
    ensures ReadLongLong(Decimal(n) + t) == n
  {
    ReadDigitsSplit(n, t);
    assert IsDigit((Decimal(n) + t)[0]);
  }

  /** A sign in front: + is ignored, - negates. */
  lemma ReadLongLongSigned(n: nat, t: seq<byte>)
    requires t == [] || t[0] == CR
    ensures ReadLongLong([43] + (Decimal(n) + t)) == n
    ensures ReadLongLong([45] + (Decimal(n) + t)) == 0 - n
  {
    ReadDigitsSplit(n, t);
    assert ([43] + (Decimal(n) + t))[1..] == Decimal(n) + t;
    assert ([45] + (Decimal(n) + t))[1..] == Decimal(n) + t;
  }
}
