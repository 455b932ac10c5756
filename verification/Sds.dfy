/** Dynamic strings: a byte buffer with its length, its free space and a terminating NUL. */
module Sds {
  import opened Bytes

  /** sdsrange, with its negative indices and clamping. */
  function RangeOf(s: seq<byte>, start: int, end: int): (r: seq<byte>) {
    var len := |s|;
    if len == 0 then s
    else
      var start1 := if start < 0 then (if len + start < 0 then 0 else len + start) else start;
      var end1 := if end < 0 then (if len + end < 0 then 0 else len + end) else end;
      if start1 > end1 || start1 >= len then []
      else if end1 >= len then s[start1..]
      else s[start1..end1 + 1]
  }

  /** The reader's discard of consumed input keeps exactly the unread bytes. */
  lemma RangeDropsPrefix(s: seq<byte>, pos: nat)
    requires pos <= |s|
    ensures RangeOf(s, pos, -1) == s[pos..]
  {
  }

  /** A non-empty part in the middle is cut out by its indices, counted from either end. */
  lemma RangeCutsOut(a: seq<byte>, b: seq<byte>, c: seq<byte>)
    requires b != []
    ensures RangeOf(a + b + c, |a|, |a| + |b| - 1) == b
    ensures RangeOf(a + b + c, -|b| - |c|, -|c| - 1) == b
    ensures RangeOf(a + b + c, |a|, -|c| - 1) == b
  {
    assert (a + b + c)[|a|..|a| + |b|] == b;
  }

  /** Indices past the ends stop there; a start behind the end or past the string gives nothing. */
  lemma RangeClamps(a: seq<byte>, b: seq<byte>, start: int, end: int)
    requires a != [] && b != []
    ensures end >= |a| + |b| ==> RangeOf(a + b, |a|, end) == b
    ensures start < -|a| - |b| ==> RangeOf(a + b, start, |a| - 1) == a
    ensures start >= |a| + |b| || start > end >= 0 ==> RangeOf(a + b, start, end) == []
  {
    assert (a + b)[|a|..] == b && (a + b)[..|a|] == a;
  }

  class Sds {
    var len: nat
    var free: nat
    var buf: array<byte>

    ghost predicate Valid()
      reads this, buf
    {
      buf.Length == len + free + 1 && buf[len] == NUL
    }

    ghost function Contents(): (s: seq<byte>)
      requires Valid()
      reads this, buf
    {
      buf[..len]
    }

    /** sdsnewlen */
    constructor (init: seq<byte>)
      ensures Valid() && fresh(buf) && Contents() == init && free == 0
    {
      len, free := |init|, 0;
      buf := new byte[|init| + 1](i => if 0 <= i < |init| then init[i] else NUL);
      new;
      assert buf[..len] == init;
    }

    method MakeRoomFor(addlen: nat)
      requires Valid()
      modifies this`free, this`buf
      ensures Valid() && len == old(len) && Contents() == old(Contents())
      ensures if old(free) >= addlen then free == old(free) && buf == old(buf)
              else len + free == 2 * (len + addlen) && fresh(buf)
      ensures free >= addlen
    {
      if free < addlen {
        var newlen := (len + addlen) * 2;
        var bigger := new byte[newlen + 1](_ => NUL);
        forall i | 0 <= i <= len {
          bigger[i] := buf[i];
        }
        assert bigger[..len] == buf[..len];
        free := newlen - len;
        buf := bigger;
      }
    }

    /** sdscatlen */
    method CatLen(t: seq<byte>)
      requires Valid()
      modifies this, buf
      ensures Valid() && Contents() == old(Contents()) + t
      ensures buf == old(buf) || fresh(buf)
      ensures old(free) >= |t| ==> buf == old(buf) && free == old(free) - |t|
    {
      MakeRoomFor(|t|);
      var curlen := len;
      ghost var was := buf[..curlen];
      forall i | curlen <= i < curlen + |t| {
        buf[i] := t[i - curlen];
      }
      len := curlen + |t|;
      free := free - |t|;
      buf[len] := NUL;
      assert buf[..len] == was + t;
    }

    /** sdsrange: the bytes move to the front of the same buffer. */
    method Range(start: int, end: int)
      requires Valid()
      modifies this`len, this`free, buf
      ensures Valid() && Contents() == RangeOf(old(Contents()), start, end)
      ensures len + free == old(len + free)
    {
      if len == 0 {
        return;
      }
      var from, newlen := Bounds(len, start, end);
      RangeIsSlice(Contents(), start, end);
      if from != 0 && newlen != 0 {
        forall i | 0 <= i < newlen {
          buf[i] := buf[from + i];
        }
      }
      assert newlen != 0 ==> buf[..newlen] == old(buf[..len])[from..from + newlen];
      buf[newlen] := NUL;
      free := free + (len - newlen);
      len := newlen;
    }
  }

  /** Where the range starts and how long it is. */
  function SliceOf(len: nat, start: int, end: int): (r: (nat, nat)) {
    var from := if start >= 0 then start else if len + start < 0 then 0 else len + start;
    var to := if end >= 0 then end else if len + end < 0 then 0 else len + end;
    if from > to || from >= len then (from, 0)
    else (from, (if to >= len then len else to + 1) - from)
  }

  lemma RangeIsSlice(s: seq<byte>, start: int, end: int)
    requires |s| > 0
    ensures var (from, n) := SliceOf(|s|, start, end);
            && (n == 0 || from + n <= |s|)
            && RangeOf(s, start, end) == if n == 0 then [] else s[from..from + n]
  {
  }

  /** The index arithmetic of sdsrange. */
  method Bounds(len: nat, start: int, end: int) returns (from: nat, newlen: nat)
    ensures newlen == SliceOf(len, start, end).1 && (newlen > 0 ==> from == SliceOf(len, start, end).0)
  {
    var lo, hi := start, end;
    if lo < 0 {
      lo := len + lo;
      if lo < 0 {
        lo := 0;
      }
    }
    if hi < 0 {
      hi := len + hi;
      if hi < 0 {
        hi := 0;
      }
    }
    newlen := if lo > hi then 0 else hi - lo + 1;
    if newlen != 0 {
      if lo >= len {
        newlen := 0;
      } else if hi >= len {
        hi := len - 1;
        newlen := hi - lo + 1;
      }
    } else {
      lo := 0;
    }
    from := lo;
  }
}
