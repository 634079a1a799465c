/** `ip_atoi`: the dotted-quad text of the host's address as a `guint32`. */
module IpText {
  import opened Bytes
  import opened Rules

  /** The fields of `s` between its `sep` bytes, every other byte kept:
      "1.2" gives ["1", "2"], "" gives [""], "1." gives ["1", ""]. Unlike
      `Fields` of the rule parser, which passes over CR as `load_one_rule`
      does, `ip_atoi` has no CR case, so a CR here stays in its field. */
  function Split(s: seq<byte>, sep: byte): (fs: seq<seq<byte>>)
    ensures |fs| == Count(s, sep) + 1
  {
    if s == [] then [[]]
    else
      var init := Split(s[..|s| - 1], sep);
      if s[|s| - 1] == sep then init + [[]]
      else init[..|init| - 1] + [init[|init| - 1] + [s[|s| - 1]]]
  }

  lemma SplitSnoc(s: seq<byte>, sep: byte, c: byte)
    ensures Split(s + [c], sep) ==
      var init := Split(s, sep);
      if c == sep then init + [[]] else init[..|init| - 1] + [init[|init| - 1] + [c]]
  {
    assert (s + [c])[..|s|] == s;
  }

  /** What "ch should be well formatted" and the asserts of `ip_atoi`
      demand: a C string of digits and dots only, with exactly three dots,
      each of its four fields accumulating to less than 256. More dots would
      make the loop write past `ip[3]`; a byte other than a digit would add
      `c - '0'`, which depends on whether `char` is signed. */
  predicate WellFormattedIp(ch: seq<byte>)
  {
    DigitsAndDotsOnly(ch) && Count(ch, DOT) == 3 &&
    var fs := Split(ch, DOT);
    DecimalValue(fs[0]) < 256 && DecimalValue(fs[1]) < 256 && DecimalValue(fs[2]) < 256 && DecimalValue(fs[3]) < 256
  }

  predicate DigitsAndDotsOnly(s: seq<byte>)
  {
    forall k :: 0 <= k < |s| ==> IsDigit(s[k]) || s[k] == DOT
  }

  /** The address `ip_atoi` returns for a well formatted text. */
  function IpOf(ch: seq<byte>): u32
    requires WellFormattedIp(ch)
  {
    var fs := Split(ch, DOT);
    Pack(DecimalValue(fs[0]), DecimalValue(fs[1]), DecimalValue(fs[2]), DecimalValue(fs[3]))
  }

  /** `ip_atoi(ch)`: one pass over the text, adding each byte other than
      '.' into the current field `ip[j]` as a decimal digit, in 32 bits. */
  method IpAtoi(ch: seq<byte>) returns (r: u32)
    requires WellFormattedIp(ch)
    ensures r == IpOf(ch)
  {
    var i, j := 0, 0;
    var ip := new u32[4](_ => 0);
    assert ip[..] == Fields4([]);
    while i < |ch|
      invariant i <= |ch| && j == Count(ch[..i], DOT) && j <= 3
      invariant ip[..] == Fields4(ch[..i])
    {
      IpAtoiStep(ch, i);
      if ch[i] == DOT {
        j := j + 1;
      } else {
        ip[j] := Shift(ip[j], ch[i]);
      }
      i := i + 1;
    }
    assert ch[..i] == ch;
    Fields4Whole(ch);
    assert j == 3;
    assert ip[0] < 256 && ip[1] < 256 && ip[2] < 256 && ip[3] < 256;
    r := Pack(ip[0], ip[1], ip[2], ip[3]);
  }

  /** One byte of the pass, at offset `i` of a text with three dots. */
  lemma IpAtoiStep(ch: seq<byte>, i: nat)
    requires i < |ch| && Count(ch, DOT) == 3
    ensures Count(ch[..i + 1], DOT) == Count(ch[..i], DOT) + (if ch[i] == DOT then 1 else 0) <= 3
    ensures ch[i] == DOT ==> Fields4(ch[..i + 1]) == Fields4(ch[..i])
    ensures ch[i] != DOT ==> Fields4(ch[..i + 1]) == Fields4(ch[..i])[Count(ch[..i], DOT) := Shift(Fields4(ch[..i])[Count(ch[..i], DOT)], ch[i])]
  {
    CountPrefix(ch, i, DOT);
    PrefixSnoc(ch, i);
    Fields4Snoc(ch[..i], ch[i]);
  }

  /** After the whole text the four accumulators are the four field values. */
  lemma Fields4Whole(ch: seq<byte>)
    requires WellFormattedIp(ch)
    ensures var v := Fields4(ch); v[0] < 256 && v[1] < 256 && v[2] < 256 && v[3] < 256 && Pack(v[0], v[1], v[2], v[3]) == IpOf(ch)
  {}

  /** The four accumulators `ip[0..3]` after the text `s` of at most three
      dots: the value of each field read so far, 0 for those not reached. */
  function Fields4(s: seq<byte>): (v: seq<u32>)
    ensures |v| == 4
  {
    var fs := Split(s, DOT);
    seq(4, k requires 0 <= k < 4 => if k < |fs| then DecimalValue(fs[k]) else 0)
  }

  /** One byte of the pass: a '.' moves to the next accumulator, which is
      still 0; any other byte is added into the current one. */
  lemma Fields4Snoc(s: seq<byte>, c: byte)
    requires Count(s + [c], DOT) <= 3
    ensures c == DOT ==> Fields4(s + [c]) == Fields4(s)
    ensures c != DOT ==> Fields4(s + [c]) == Fields4(s)[Count(s, DOT) := Shift(Fields4(s)[Count(s, DOT)], c)]
  {
    SplitSnoc(s, DOT, c);
    CountSnoc(s, c);
    var fs := Split(s, DOT);
    if c != DOT {
      DecimalValueSnoc(fs[|fs| - 1], c);
    }
  }

  lemma CountSnoc(s: seq<byte>, c: byte)
    ensures Count(s + [c], DOT) == Count(s, DOT) + (if c == DOT then 1 else 0)
  {
    assert (s + [c])[..|s|] == s;
  }

  /** The dotted quad of four octets, as the host reports its address. */
  function DottedQuad(a: byte, b: byte, c: byte, d: byte): seq<byte>
  {
    Decimal(a) + [DOT] + Decimal(b) + [DOT] + Decimal(c) + [DOT] + Decimal(d)
  }

  /** The text of an address reads back as the address: `ip_atoi` packs
      the octets in the same order as the rule parser does. */
  lemma IpOfDottedQuad(a: byte, b: byte, c: byte, d: byte)
    ensures WellFormattedIp(DottedQuad(a, b, c, d))
    ensures IpOf(DottedQuad(a, b, c, d)) == Pack(a as int as u32, b as int as u32, c as int as u32, d as int as u32)
  {
    DottedQuadSplit(a, b, c, d);
    DigitsAndDots(Decimal(a), Decimal(b), Decimal(c), Decimal(d));
  }

  /** The four fields of a dotted quad are the four decimal texts. */
  lemma DottedQuadSplit(a: byte, b: byte, c: byte, d: byte)
    ensures var fs := Split(DottedQuad(a, b, c, d), DOT);
      |fs| == 4 && fs[0] == Decimal(a) && fs[1] == Decimal(b) && fs[2] == Decimal(c) && fs[3] == Decimal(d)
  {
    var f0, f1, f2, f3 := Decimal(a), Decimal(b), Decimal(c), Decimal(d);
    var t1 := f0 + [DOT] + f1;
    var t2 := t1 + [DOT] + f2;
    SplitFirst(f0);
    SplitField(f0, f1, [f0]);
    assert [f0] + [f1] == [f0, f1];
    SplitField(t1, f2, [f0, f1]);
    assert [f0, f1] + [f2] == [f0, f1, f2];
    SplitField(t2, f3, [f0, f1, f2]);
  }

  /** A digit text is a single field. */
  lemma SplitFirst(f: seq<byte>)
    requires AllDigits(f)
    ensures Split(f, DOT) == [f]
  {
    SplitDigits([], f, []);
    assert [] + f == f;
  }

  /** Appending '.' and a digit text `f` to a text opens a field `f`. */
  lemma SplitField(t: seq<byte>, f: seq<byte>, done: seq<seq<byte>>)
    requires AllDigits(f) && Split(t, DOT) == done
    ensures Split(t + [DOT] + f, DOT) == done + [f]
  {
    SplitSnoc(t, DOT, DOT);
    SplitDigits(t + [DOT], f, done);
  }

  /** Appending digits to a text extends its last field, here an empty one. */
  lemma {:induction false} SplitDigits(t: seq<byte>, f: seq<byte>, done: seq<seq<byte>>)
    requires AllDigits(f) && Split(t, DOT) == done + [[]]
    ensures Split(t + f, DOT) == done + [f]
    decreases |f|
  {
    if f == [] {
      assert t + f == t;
    } else {
      var g, c := f[..|f| - 1], f[|f| - 1];
      assert t + f == (t + g) + [c];
      SplitDigits(t, g, done);
      SplitSnoc(t + g, DOT, c);
      assert g + [c] == f;
    }
  }

  /** A dotted quad holds digits and dots only. */
  lemma DigitsAndDots(f0: seq<byte>, f1: seq<byte>, f2: seq<byte>, f3: seq<byte>)
    requires AllDigits(f0) && AllDigits(f1) && AllDigits(f2) && AllDigits(f3)
    ensures DigitsAndDotsOnly(f0 + [DOT] + f1 + [DOT] + f2 + [DOT] + f3)
  {
    var s := f0 + [DOT] + f1 + [DOT] + f2 + [DOT] + f3;
    assert forall k :: 0 <= k < |s| ==> IsDigit(s[k]) || s[k] == DOT;
  }
}
