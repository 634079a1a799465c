/** Byte-level vocabulary shared by the rule parser, the address decoder and
    the configuration loader: the byte type, the terminators the C code looks
    for, line ends, byte counts, the dotted-field split and the decimal value
    that `unsigned int` accumulation (`x = x*10 + (c - '0')`) computes, with
    its 32-bit wrap-around. */
module Bytes {

  datatype Option<+T> = None | Some(value: T)

  newtype byte = x: int | 0 <= x < 0x100

  /** `unsigned int` and `guint32`: 32-bit unsigned, arithmetic modulo 2^32. */
  newtype u32 = x: int | 0 <= x < 0x1_0000_0000

  const TWO_32: int := 0x1_0000_0000

  const NUL: byte := 0
  const LF: byte := 10
  const CR: byte := 13
  const DOT: byte := 46
  const SLASH: byte := 47

  predicate IsDigit(c: byte) { 48 <= c <= 57 }

  predicate AllDigits(s: seq<byte>) { forall k :: 0 <= k < |s| ==> IsDigit(s[k]) }

  /** The byte at offset `i` of a NUL-terminated buffer: the data is followed
      by its terminator, so every offset at or past the end reads NUL. */
  function At(buf: seq<byte>, i: nat): byte { if i < |buf| then buf[i] else NUL }

  /** `buf[i]` stops the C loops `while (ch[i] != 0 && ch[i] != '\n')`. */
  predicate EndsLine(buf: seq<byte>, i: nat) { At(buf, i) == NUL || At(buf, i) == LF }

  /** `s` holds no byte that ends a line. */
  predicate NoLineEnd(s: seq<byte>) { forall k :: 0 <= k < |s| ==> s[k] != NUL && s[k] != LF }

  /** The offset of the first NUL or LF at or after `i`. */
  function LineEnd(buf: seq<byte>, i: nat): (j: nat)
    requires i <= |buf|
    ensures i <= j <= |buf| && EndsLine(buf, j)
    decreases |buf| - i
  {
    if EndsLine(buf, i) then i else LineEnd(buf, i + 1)
  }

  /** The line end is the first terminator from `i` on. */
  lemma {:induction false} LineEndFirst(buf: seq<byte>, i: nat, j: nat)
    requires i <= j <= |buf| && j <= LineEnd(buf, i) && EndsLine(buf, j)
    ensures j == LineEnd(buf, i)
    decreases j - i
  {
    if i < j {
      LineEndFirst(buf, i + 1, j);
    }
  }

  /** No terminator comes before the line end. */
  lemma {:induction false} LineEndClean(buf: seq<byte>, i: nat)
    requires i <= |buf|
    ensures NoLineEnd(buf[i..LineEnd(buf, i)])
    decreases |buf| - i
  {
    if !EndsLine(buf, i) {
      LineEndClean(buf, i + 1);
      assert buf[i..LineEnd(buf, i)] == [buf[i]] + buf[i + 1..LineEnd(buf, i + 1)];
    }
  }

  /** A line end is found where it is: if `buf[i..j]` holds no terminator and
      `buf[j]` ends the line, the search from `i` stops at `j`. */
  lemma {:induction false} LineEndAt(buf: seq<byte>, i: nat, j: nat)
    requires i <= j <= |buf| && EndsLine(buf, j)
    requires forall k :: i <= k < j ==> buf[k] != NUL && buf[k] != LF
    ensures LineEnd(buf, i) == j
    decreases j - i
  {
    if i < j {
      LineEndAt(buf, i + 1, j);
    }
  }

  /** The search for a line end does not depend on what precedes the
      offset it starts from. */
  lemma {:induction false} LineEndShift(x: seq<byte>, r: seq<byte>, i: nat)
    requires i <= |r|
    ensures LineEnd(x + r, |x| + i) == |x| + LineEnd(r, i)
    decreases |r| - i
  {
    assert At(x + r, |x| + i) == At(r, i);
    if !EndsLine(r, i) {
      LineEndShift(x, r, i + 1);
    }
  }

  lemma SliceShift(x: seq<byte>, r: seq<byte>, i: nat, j: nat)
    requires i <= j <= |r|
    ensures (x + r)[|x| + i..|x| + j] == r[i..j]
  {}

  lemma AtShift(x: seq<byte>, r: seq<byte>, i: nat)
    ensures At(x + r, |x| + i) == At(r, i)
  {}

  /** A line read after a prefix `x` is the line read in `r`, `|x|` further on. */
  lemma LineShift(x: seq<byte>, r: seq<byte>, i: nat)
    requires i <= |r|
    ensures
      var f := LineEnd(r, i);
      LineEnd(x + r, |x| + i) == |x| + f && At(x + r, |x| + f) == At(r, f) &&
      (x + r)[|x| + i..|x| + f] == r[i..f]
  {
    LineEndShift(x, r, i);
    var f := LineEnd(r, i);
    AtShift(x, r, f);
    SliceShift(x, r, i, f);
  }

  lemma SliceConcat(s: seq<byte>, i: nat, j: nat, k: nat)
    requires i <= j <= k <= |s|
    ensures s[i..j] + s[j..k] == s[i..k]
  {}

  /** The offset of the first `c` in `s`, or `|s|` when there is none. */
  function IndexOf(s: seq<byte>, c: byte): (j: nat)
    ensures j <= |s| && (j < |s| ==> s[j] == c) && c !in s[..j]
  {
    if s == [] || s[0] == c then 0
    else
      var j := 1 + IndexOf(s[1..], c);
      assert s[..j] == [s[0]] + s[1..][..j - 1];
      j
  }

  function Count(s: seq<byte>, c: byte): nat
  {
    if s == [] then 0 else Count(s[..|s| - 1], c) + (if s[|s| - 1] == c then 1 else 0)
  }

  lemma {:induction false} CountAppend(a: seq<byte>, b: seq<byte>, c: byte)
    ensures Count(a + b, c) == Count(a, c) + Count(b, c)
    decreases |b|
  {
    if b == [] {
      assert a + b == a;
    } else {
      assert (a + b)[..|a + b| - 1] == a + b[..|b| - 1];
      CountAppend(a, b[..|b| - 1], c);
    }
  }

  lemma {:induction false} CountAbsent(s: seq<byte>, c: byte)
    requires c !in s
    ensures Count(s, c) == 0
    decreases |s|
  {
    if s != [] {
      assert s[..|s| - 1] + [s[|s| - 1]] == s;
      CountAbsent(s[..|s| - 1], c);
    }
  }

  /** The prefix one byte longer. */
  lemma PrefixSnoc(s: seq<byte>, i: nat)
    requires i < |s|
    ensures s[..i + 1] == s[..i] + [s[i]]
  {}

  /** The count over a prefix one byte longer, and never above the whole. */
  lemma CountPrefix(s: seq<byte>, i: nat, c: byte)
    requires i < |s|
    ensures Count(s[..i + 1], c) == Count(s[..i], c) + (if s[i] == c then 1 else 0)
    ensures Count(s[..i + 1], c) <= Count(s, c)
  {
    assert s[..i + 1][..i] == s[..i];
    assert s == s[..i + 1] + s[i + 1..];
    CountAppend(s[..i + 1], s[i + 1..], c);
  }

  /** The number of LF bytes: the `buf[i] == '\n'` count of `load_config`. */
  function Newlines(s: seq<byte>): nat { Count(s, LF) }

  /** `c - '0'`, an `int`. */
  function DigitValue(c: byte): int { c as int - 48 }

  /** The digits of `ds` as the C code accumulates them into an
      `unsigned int`, starting from 0: the decimal value modulo 2^32. */
  function DecimalValue(ds: seq<byte>): u32
  {
    if ds == [] then 0 else Shift(DecimalValue(ds[..|ds| - 1]), ds[|ds| - 1])
  }

  /** One step of the accumulation: `x*10 + (c - '0')` in 32 bits. */
  function Shift(x: u32, c: byte): u32 { ((x as int * 10 + DigitValue(c)) % TWO_32) as u32 }

  lemma {:induction false} DecimalValueSnoc(ds: seq<byte>, c: byte)
    ensures DecimalValue(ds + [c]) == Shift(DecimalValue(ds), c)
  {
    var e := ds + [c];
    assert e[..|e| - 1] == ds;
    assert e[|e| - 1] == c;
  }

  /** The digits of `s`, in order, with every other byte left out. */
  function Digits(s: seq<byte>): (d: seq<byte>)
    ensures AllDigits(d)
  {
    if s == [] then []
    else Digits(s[..|s| - 1]) + (if IsDigit(s[|s| - 1]) then [s[|s| - 1]] else [])
  }

  /** Whether the last byte of `s` other than CR is a digit. */
  predicate EndsInDigit(s: seq<byte>)
  {
    if s == [] then false
    else if s[|s| - 1] == CR then EndsInDigit(s[..|s| - 1])
    else IsDigit(s[|s| - 1])
  }

  /** The fields of `s` between its dots, CR bytes ignored: "1.2" gives
      ["1", "2"], "" gives [""], "1." gives ["1", ""]. */
  function Fields(s: seq<byte>): (fs: seq<seq<byte>>)
    ensures |fs| == Count(s, DOT) + 1
  {
    if s == [] then [[]]
    else
      var init := Fields(s[..|s| - 1]);
      var c := s[|s| - 1];
      if c == DOT then init + [[]]
      else if c == CR then init
      else init[..|init| - 1] + [init[|init| - 1] + [c]]
  }

  lemma {:induction false} FieldsSnoc(s: seq<byte>, c: byte)
    ensures Fields(s + [c]) ==
      var init := Fields(s);
      if c == DOT then init + [[]]
      else if c == CR then init
      else init[..|init| - 1] + [init[|init| - 1] + [c]]
  {
    assert (s + [c])[..|s|] == s;
  }

  /** The decimal text of an octet, without leading zeros. */
  function Decimal(v: byte): (ds: seq<byte>)
    ensures 1 <= |ds| <= 3 && AllDigits(ds)
    ensures DecimalValue(ds) == v as int as u32
  {
    var ds := if v < 10 then [48 + v]
              else if v < 100 then [48 + v / 10, 48 + v % 10]
              else [48 + v / 100, 48 + (v / 10) % 10, 48 + v % 10];
    DecimalValueUpTo3(ds);
    DecimalDigits(v as int);
    ds
  }

  lemma DecimalDigits(v: int)
    requires 0 <= v < 0x100
    ensures 10 <= v < 100 ==> 10 * (v / 10) + v % 10 == v
    ensures 100 <= v ==> 100 * (v / 100) + 10 * ((v / 10) % 10) + v % 10 == v
  {
    if 100 <= v {
      assert v / 100 == (v / 10) / 10;
    }
  }

  /** DecimalValue of a text of at most three digits: no wrap-around. */
  lemma DecimalValueUpTo3(ds: seq<byte>)
    requires 1 <= |ds| <= 3 && AllDigits(ds)
    ensures |ds| == 1 ==> DecimalValue(ds) as int == DigitValue(ds[0])
    ensures |ds| == 2 ==> DecimalValue(ds) as int == 10 * DigitValue(ds[0]) + DigitValue(ds[1])
    ensures |ds| == 3 ==> DecimalValue(ds) as int == 100 * DigitValue(ds[0]) + 10 * DigitValue(ds[1]) + DigitValue(ds[2])
  {
    assert ds[..1][..0] == [];
    if |ds| >= 2 { assert ds[..2][..1] == ds[..1]; }
    if |ds| == 3 { assert ds[..3][..2] == ds[..2]; }
  }
}
