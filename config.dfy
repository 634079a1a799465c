/** The configuration file: a sequence of two-line records read one after
    the other by `load_config` until the first one that does not parse. */
module Config {
  import opened Bytes
  import opened Rules
  import opened RuleParser

  /** The rules `while (load_one_rule(&ch, rules + rule_cnt)) rule_cnt++;`
      stores when `ch` starts at offset `ptr`: every record up to the first
      failure, in file order. */
  function ParseAll(buf: seq<byte>, ptr: nat): (rs: seq<Rule>)
    requires ptr <= |buf|
    decreases |buf| - ptr
  {
    match ParseRule(buf, ptr)
    case None => []
    case Some(p) => [p.rule] + ParseAll(buf, p.next)
  }

  /** Each record takes two LF bytes, so the records found from `ptr` on
      are at most half the LF bytes there. */
  lemma {:induction false} ParseAllBound(buf: seq<byte>, ptr: nat)
    requires ptr <= |buf|
    ensures 2 * |ParseAll(buf, ptr)| <= Newlines(buf[ptr..])
    decreases |buf| - ptr
  {
    match ParseRule(buf, ptr)
    case None =>
    case Some(p) =>
      ParseRuleConsumesTwoLines(buf, ptr);
      ParseAllBound(buf, p.next);
      assert buf[ptr..] == buf[ptr..p.next] + buf[p.next..];
      CountAppend(buf[ptr..p.next], buf[p.next..], LF);
  }

  /** The rule array `load_config` allocates holds every rule the parse
      loop stores: `(count + 1) / 2` slots, where the count of LF bytes is
      added to the rule count held before, 0 on the first load. */
  lemma CapacitySuffices(buf: seq<byte>, before: nat)
    ensures |ParseAll(buf, 0)| <= (before + Newlines(buf) + 1) / 2
  {
    ParseAllBound(buf, 0);
    assert buf[0..] == buf;
  }

  /** What precedes the records in the buffer does not change them. */
  lemma {:induction false} ParseAllShift(x: seq<byte>, r: seq<byte>, p: nat)
    requires p <= |r|
    ensures ParseAll(x + r, |x| + p) == ParseAll(r, p)
    decreases |r| - p
  {
    ParseRuleShift(x, r, p);
    match ParseRule(r, p)
    case None =>
      assert ParseRule(x + r, |x| + p) == None;
    case Some(q) =>
      assert ParseRule(x + r, |x| + p) == Some(Parsed(q.rule, |x| + q.next));
      assert ParseAll(x + r, |x| + p) == [q.rule] + ParseAll(x + r, |x| + q.next);
      ParseAllShift(x, r, q.next);
  }

  /** A rule as the configuration file is meant to state it: a dotted quad
      of octets, a prefix length and the status text. */
  datatype Entry = Entry(a: byte, b: byte, c: byte, d: byte, prefix: byte, status: seq<byte>)

  function EntryRule(e: Entry): Rule
  {
    Rule(e.status, Pack(e.a as int as u32, e.b as int as u32, e.c as int as u32, e.d as int as u32), e.prefix as int as u32)
  }

  function EntryRules(es: seq<Entry>): (rs: seq<Rule>)
    ensures |rs| == |es| && forall k :: 0 <= k < |es| ==> rs[k] == EntryRule(es[k])
  {
    if es == [] then [] else [EntryRule(es[0])] + EntryRules(es[1..])
  }

  /** The two lines `a.b.c.d/n` and the status, each ended by LF. */
  function RecordText(e: Entry): seq<byte>
  {
    AddressLine(Decimal(e.a), Decimal(e.b), Decimal(e.c), Decimal(e.d), Decimal(e.prefix)) + [LF] + e.status + [LF]
  }

  function ConfigText(es: seq<Entry>): seq<byte>
  {
    if es == [] then [] else RecordText(es[0]) + ConfigText(es[1..])
  }

  predicate StatusLines(es: seq<Entry>)
  {
    forall k :: 0 <= k < |es| ==> NoLineEnd(es[k].status)
  }

  /** One record in the documented form parses to its entry. */
  lemma RecordParses(e: Entry, rest: seq<byte>)
    requires NoLineEnd(e.status)
    ensures ParseRule(RecordText(e) + rest, 0) == Some(Parsed(EntryRule(e), |RecordText(e)|))
  {
    var f0, f1, f2, f3, g := Decimal(e.a), Decimal(e.b), Decimal(e.c), Decimal(e.d), Decimal(e.prefix);
    ParseCanonical(f0, f1, f2, f3, g, e.status, rest);
    var line := AddressLine(f0, f1, f2, f3, g);
    assert line + [LF] + e.status + [LF] + rest == RecordText(e) + rest;
  }

  /** The parse loop over a record in the documented form stores its rule
      and goes on after it. */
  lemma ParseAllRecord(e: Entry, r: seq<byte>)
    requires NoLineEnd(e.status)
    ensures ParseAll(RecordText(e) + r, 0) == [EntryRule(e)] + ParseAll(r, 0)
  {
    RecordParses(e, r);
    ParseAllFirst(RecordText(e), r, EntryRule(e));
  }

  /** The parse loop over a record `x` that parses as a whole. */
  lemma ParseAllFirst(x: seq<byte>, r: seq<byte>, rule: Rule)
    requires ParseRule(x + r, 0) == Some(Parsed(rule, |x|))
    ensures ParseAll(x + r, 0) == [rule] + ParseAll(r, 0)
  {
    assert ParseAll(x + r, 0) == [rule] + ParseAll(x + r, |x|);
    ParseAllShift(x, r, 0);
    assert |x| + 0 == |x|;
  }

  /** Writing entries out and loading them back gives their rules: the
      records of `ConfigText(es)` all parse, and parsing goes on into
      whatever follows them. */
  lemma {:induction false} ConfigRoundTrip(es: seq<Entry>, tail: seq<byte>)
    requires StatusLines(es)
    ensures ParseAll(ConfigText(es) + tail, 0) == EntryRules(es) + ParseAll(tail, 0)
  {
    if es == [] {
      assert ConfigText(es) + tail == tail;
      assert EntryRules(es) + ParseAll(tail, 0) == ParseAll(tail, 0);
    } else {
      var r := ConfigText(es[1..]) + tail;
      assert ConfigText(es) == RecordText(es[0]) + ConfigText(es[1..]);
      AppendAssoc(RecordText(es[0]), ConfigText(es[1..]), tail);
      ParseAllRecord(es[0], r);
      assert StatusLines(es[1..]);
      ConfigRoundTrip(es[1..], tail);
      assert EntryRules(es) == [EntryRule(es[0])] + EntryRules(es[1..]);
      AppendAssoc([EntryRule(es[0])], EntryRules(es[1..]), ParseAll(tail, 0));
    }
  }

  lemma AppendAssoc<T>(a: seq<T>, b: seq<T>, c: seq<T>)
    ensures a + (b + c) == (a + b) + c
  {}

  /** In particular the file `ConfigText(es)` loads exactly the rules of
      `es`, and a record that does not parse after them stops the loop. */
  lemma ConfigLoadsEntries(es: seq<Entry>, tail: seq<byte>)
    requires StatusLines(es) && ParseRule(tail, 0).None?
    ensures ParseAll(ConfigText(es) + tail, 0) == EntryRules(es)
  {
    ConfigRoundTrip(es, tail);
    assert EntryRules(es) + [] == EntryRules(es);
  }
}
