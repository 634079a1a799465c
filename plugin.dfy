/** The plugin's state and the two operations that change it: loading the
    configuration, and the periodic status update that looks up the host's
    address and picks the status of the rule that covers it. */
module AutoStatus {
  import opened Bytes
  import opened Rules
  import opened RuleParser
  import opened Config
  import opened IpText
  import opened Selection

  /** `set_status`: the status message of an account is the chosen status
      `loc` followed by the account's saved message, or `loc` alone when the
      saved-status lookup gives no message (NULL). */
  function Compose(loc: seq<byte>, saved: Option<seq<byte>>): (msg: seq<byte>)
    ensures saved.None? ==> msg == loc
    ensures saved.Some? ==> |msg| == |loc| + |saved.value| && msg[..|loc|] == loc && msg[|loc|..] == saved.value
  {
    if saved.Some? then loc + saved.value else loc
  }

  /** An empty saved message and no saved message give the same status. */
  lemma ComposeEmpty(loc: seq<byte>)
    ensures Compose(loc, Some([])) == Compose(loc, None) == loc
  {
    assert loc + [] == loc;
  }

  /** The globals of the plugin: the rule array and its count, the host's
      address as last read (`myip`, and its text `str_myip`, None for the
      uninitialised buffer that matches no address), and the chosen status
      `loc`. */
  class Plugin {
    var rules: array<Rule>
    var ruleCnt: u32
    var myip: u32
    var strMyip: Option<seq<byte>>
    var loc: seq<byte>

    /** The count never exceeds the array. */
    predicate Valid()
      reads this
    {
      ruleCnt as int <= rules.Length
    }

    /** The initial values of the globals, with `str_myip` freshly
        allocated by `plugin_load` and not yet written. */
    constructor()
      ensures Valid() && rules.Length == 0 && ruleCnt == 0 && myip == 0 && strMyip == None && loc == []
    {
      rules := new Rule[0];
      ruleCnt, myip, strMyip, loc := 0, 0, None, [];
    }

    /** `load_config`, with the file's contents given (None when the file
        cannot be read). The LF bytes of the whole file are added to the
        rule count held before; the array gets `(count + 1) / 2` slots;
        then the records are parsed from the start while they parse. The
        count must not wrap around in 32 bits, or the array would be too
        small. */
    method LoadConfig(contents: Option<seq<byte>>) returns (ok: bool)
      requires contents.Some? ==> ruleCnt as int + Newlines(contents.value) + 1 < TWO_32
      modifies this
      ensures ok == contents.Some?
      ensures !ok ==> rules == old(rules) && ruleCnt == old(ruleCnt)
      ensures ok ==> (fresh(rules) && Valid() &&
        rules.Length == (old(ruleCnt) as int + Newlines(contents.value) + 1) / 2 &&
        rules[..ruleCnt] == ParseAll(contents.value, 0))
      ensures myip == old(myip) && strMyip == old(strMyip) && loc == old(loc)
    {
      if contents.None? {
        return false;
      }
      var buf := contents.value;
      CountRules(buf);
      ruleCnt := (ruleCnt + 1) / 2;
      rules := new Rule[ruleCnt];
      CapacitySuffices(buf, old(ruleCnt) as int);
      ParseRules(buf);
      return true;
    }

    /** The loop `for (i=0; i<len; i++) if (buf[i] == '\n') rule_cnt++;`. */
    method CountRules(buf: seq<byte>)
      requires ruleCnt as int + Newlines(buf) < TWO_32
      modifies this
      ensures ruleCnt as int == old(ruleCnt) as int + Newlines(buf)
      ensures rules == old(rules) && myip == old(myip) && strMyip == old(strMyip) && loc == old(loc)
    {
      var i := 0;
      while i < |buf|
        invariant i <= |buf| && ruleCnt as int == old(ruleCnt) as int + Count(buf[..i], LF)
        invariant rules == old(rules) && myip == old(myip) && strMyip == old(strMyip) && loc == old(loc)
      {
        CountPrefix(buf, i, LF);
        if buf[i] == LF {
          ruleCnt := ruleCnt + 1;
        }
        i := i + 1;
      }
      assert buf[..i] == buf;
    }

    /** `rule_cnt = 0; while (load_one_rule(&ch, rules+rule_cnt)) rule_cnt++;`
        with `ch` at the start of the buffer: the array receives the rules
        of the records up to the first one that does not parse, and every
        write is in bounds when the array has room for all of them. */
    method ParseRules(buf: seq<byte>)
      requires |ParseAll(buf, 0)| <= rules.Length < TWO_32
      modifies this, rules
      ensures rules == old(rules) && Valid() && rules[..ruleCnt] == ParseAll(buf, 0)
      ensures myip == old(myip) && strMyip == old(strMyip) && loc == old(loc)
    {
      var a, ptr, n := rules, 0, 0;
      while true
        invariant ptr <= |buf| && n <= a.Length && |ParseAll(buf, 0)| <= a.Length
        invariant a[..n] + ParseAll(buf, ptr) == ParseAll(buf, 0)
        modifies a
        decreases |buf| - ptr
      {
        var parsed, next := LoadStep(buf, ptr, a, n);
        if !parsed {
          break;
        }
        ptr, n := next, n + 1;
      }
      ruleCnt := n as u32;
    }

    /** `set_status_all`, with the address text the network layer reports
        as `ip` and the saved messages of the active accounts as `saved`;
        it returns the message set on each of them. Only when the text
        differs from the one cached is the address converted (which needs
        it well formatted) and the rule selection redone. */
    method SetStatusAll(ip: seq<byte>, saved: seq<Option<seq<byte>>>) returns (msgs: seq<seq<byte>>)
      requires Valid()
      requires strMyip != Some(ip) ==> NetmasksInRange(rules[..ruleCnt]) && WellFormattedIp(ip)
      modifies this
      ensures rules == old(rules) && ruleCnt == old(ruleCnt) && strMyip == Some(ip)
      ensures old(strMyip) == Some(ip) ==> myip == old(myip) && loc == old(loc)
      ensures old(strMyip) != Some(ip) ==> (myip == IpOf(ip) &&
        ((exists i :: IsSelected(rules[..ruleCnt], myip, i) && loc == rules[i].status) ||
         (loc == [] && forall k :: !Candidate(rules[..ruleCnt], myip, k))))
      ensures |msgs| == |saved| && forall k :: 0 <= k < |saved| ==> msgs[k] == Compose(loc, saved[k])
    {
      if strMyip != Some(ip) {
        strMyip := Some(ip);
        myip := IpAtoi(ip);

        // find the longest prefix rule
        var found, fit := SelectRule(rules, ruleCnt as nat, myip);
        if found {
          loc := rules[fit].status;
        } else {
          loc := [];
        }
      }

      msgs := [];
      var k := 0;
      while k < |saved|
        invariant k <= |saved| && |msgs| == k
        invariant forall n :: 0 <= n < k ==> msgs[n] == Compose(loc, saved[n])
      {
        msgs := msgs + [Compose(loc, saved[k])];
        k := k + 1;
      }
    }
  }

  /** One round of the parse loop: `load_one_rule` into slot `n`, which
      exists whenever a record is left to parse. */
  method LoadStep(buf: seq<byte>, ptr: nat, a: array<Rule>, n: nat) returns (parsed: bool, next: nat)
    requires ptr <= |buf| && n <= a.Length && |ParseAll(buf, 0)| <= a.Length
    requires a[..n] + ParseAll(buf, ptr) == ParseAll(buf, 0)
    modifies a
    ensures parsed ==> ptr < next <= |buf| && n < a.Length && a[..n + 1] + ParseAll(buf, next) == ParseAll(buf, 0)
    ensures !parsed ==> a[..n] == ParseAll(buf, 0)
  {
    ParseAllShape(buf, ptr);
    parsed, next := LoadOneRule(buf, ptr, a, n);
    if parsed {
      ParseStep(old(a[..n]), a[..n + 1], buf, ptr, next);
    } else {
      ParseDone(a[..n], buf, ptr);
    }
  }

  /** What the parse loop of LoadConfig needs at each record: when a record
      parses, the rules still to come are that record's and those after it. */
  lemma ParseAllShape(buf: seq<byte>, ptr: nat)
    requires ptr <= |buf|
    ensures ParseRule(buf, ptr).None? ==> ParseAll(buf, ptr) == []
    ensures ParseRule(buf, ptr).Some? ==>
      ParseAll(buf, ptr) == [ParseRule(buf, ptr).value.rule] + ParseAll(buf, ParseRule(buf, ptr).value.next)
  {}

  /** Storing a parsed record's rule after those stored before keeps the
      stored rules and those still to come the whole list. */
  lemma ParseStep(done: seq<Rule>, done': seq<Rule>, buf: seq<byte>, ptr: nat, next: nat)
    requires ptr <= |buf| && ParseRule(buf, ptr).Some? && next == ParseRule(buf, ptr).value.next
    requires done' == done + [ParseRule(buf, ptr).value.rule]
    requires done + ParseAll(buf, ptr) == ParseAll(buf, 0)
    ensures done' + ParseAll(buf, next) == ParseAll(buf, 0)
  {
    ParseAllShape(buf, ptr);
    AppendAssoc(done, [ParseRule(buf, ptr).value.rule], ParseAll(buf, next));
  }

  /** When the loop stops, the rules stored are the whole list. */
  lemma ParseDone(done: seq<Rule>, buf: seq<byte>, ptr: nat)
    requires ptr <= |buf| && ParseRule(buf, ptr).None?
    requires done + ParseAll(buf, ptr) == ParseAll(buf, 0)
    ensures done == ParseAll(buf, 0)
  {
    ParseAllShape(buf, ptr);
    assert done + [] == done;
  }
}
