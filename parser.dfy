/** The two-line record parser `load_one_rule`: line 1 is an address in
    CIDR prefix notation (section 3.1 of RFC 4632), `A.B.C.D/N`, read by a
    state machine over its bytes; line 2 is the status text, taken verbatim. */
module RuleParser {
  import opened Bytes
  import opened Rules

  /** The state of the line-1 scanner: the octet accumulators `ip[4]`, the
      netmask accumulator `nm`, `ip_index`, and the flags `n_ip` ("still
      reading the address") and `n_num` ("a digit must come next"). */
  datatype Scanner = Scanner(ip: seq<u32>, nm: u32, octet: nat, inAddress: bool, needDigit: bool)
  {
    predicate Valid() { |ip| == 4 && octet <= 4 }
  }

  const Start: Scanner := Scanner([0, 0, 0, 0], 0, 0, true, true)

  /** One pass of the `switch (ch[i])` of line 1; None is `return FALSE`. A
      digit after a fourth '.' of the address would be stored into `ip[4]`,
      past the end of the array: the model rejects it there (such a line has
      no '/' after exactly three dots, so it is rejected in any case). */
  function Step(s: Scanner, c: byte): (r: Option<Scanner>)
    requires s.Valid()
    ensures r.Some? ==> r.value.Valid()
    ensures !(IsDigit(c) || c == DOT || c == SLASH || c == CR) ==> r == None
    ensures (c == DOT || c == SLASH) && s.needDigit ==> r == None
  {
    if c == DOT then
      if s.needDigit || s.octet > 3 || s.ip[s.octet] > 255 then None
      else Some(s.(octet := s.octet + 1, needDigit := true))
    else if c == SLASH then
      if s.octet != 3 || s.needDigit then None
      else Some(s.(needDigit := true, inAddress := false))
    else if IsDigit(c) then
      if !s.inAddress then Some(s.(needDigit := false, nm := Shift(s.nm, c)))
      else if s.octet > 3 then None
      else Some(s.(needDigit := false, ip := s.ip[s.octet := Shift(s.ip[s.octet], c)]))
    else if c == CR then Some(s)
    else None
  }

  /** The scanner run over `line`, first byte first. */
  function Scan(s: Scanner, line: seq<byte>): (r: Option<Scanner>)
    requires s.Valid()
    ensures r.Some? ==> r.value.Valid()
  {
    if line == [] then Some(s)
    else match Scan(s, line[..|line| - 1])
      case None => None
      case Some(t) => Step(t, line[|line| - 1])
  }

  datatype Parsed = Parsed(rule: Rule, next: nat)

  /** Line 1 of the record at `ptr`: up to its LF or the end of the input. */
  function FirstLine(buf: seq<byte>, ptr: nat): seq<byte>
    requires ptr <= |buf|
  {
    buf[ptr..LineEnd(buf, ptr)]
  }

  /** What `load_one_rule(&ch, rule)` computes with `ch` at offset `ptr` of the
      NUL-terminated buffer: None for FALSE, otherwise the rule it stores and
      the new offset of `ch`. The record must be two lines, each ended by LF:
      on success the status is exactly line 2 and the new offset is one past
      its LF. */
  function ParseRule(buf: seq<byte>, ptr: nat): (r: Option<Parsed>)
    requires ptr <= |buf|
    ensures r.Some? ==> ptr < r.value.next <= |buf|
  {
    var eol := LineEnd(buf, ptr);
    if At(buf, eol) == NUL then None
    else match Scan(Start, buf[ptr..eol])
      case None => None
      case Some(s) =>
        if s.needDigit || s.inAddress then None
        else
          var eos := LineEnd(buf, eol + 1);
          if At(buf, eos) == NUL then None
          else Some(Parsed(Rule(buf[eol + 1..eos], Pack(s.ip[0], s.ip[1], s.ip[2], s.ip[3]), s.nm), eos + 1))
  }

  /** A record needs both its lines ended by LF; on success the status is
      exactly line 2, and the new offset is one past its LF. */
  lemma ParseRuleLayout(buf: seq<byte>, ptr: nat)
    requires ptr <= |buf|
    ensures At(buf, LineEnd(buf, ptr)) == NUL ==> ParseRule(buf, ptr) == None
    ensures At(buf, LineEnd(buf, ptr)) == LF && At(buf, LineEnd(buf, LineEnd(buf, ptr) + 1)) == NUL ==> ParseRule(buf, ptr) == None
    ensures ParseRule(buf, ptr).Some? ==>
      var eol := LineEnd(buf, ptr);
      var next := ParseRule(buf, ptr).value.next;
      eol < |buf| && buf[eol] == LF &&
      next == LineEnd(buf, eol + 1) + 1 &&
      buf[next - 1] == LF && ParseRule(buf, ptr).value.rule.status == buf[eol + 1..next - 1]
  {}

  /** `load_one_rule(&ch, rules + slot)`. The rule is written through the
      out-parameter only on success, so the caller needs room at `slot` only
      when the record parses; on failure neither the rule storage nor the
      cursor is written. */
  method LoadOneRule(buf: seq<byte>, ptr: nat, rules: array<Rule>, slot: nat) returns (ok: bool, next: nat)
    requires ptr <= |buf|
    requires ParseRule(buf, ptr).Some? ==> slot < rules.Length
    modifies rules
    ensures ok == ParseRule(buf, ptr).Some?
    ensures ok ==> next == ParseRule(buf, ptr).value.next && rules[slot] == ParseRule(buf, ptr).value.rule
    ensures ok ==> forall k :: 0 <= k < rules.Length && k != slot ==> rules[k] == old(rules[k])
    ensures !ok ==> next == ptr && rules[..] == old(rules[..])
  {
    // read the first line
    var scanned, i := ScanFirstLine(buf, ptr);
    if scanned.None? || At(buf, i) == NUL {
      return false, ptr;
    }
    i := i + 1;
    var s := scanned.value;
    if s.needDigit || s.inAddress {
      return false, ptr;
    }

    // read the second line
    var str := i;
    i := FindLineEnd(buf, str);
    if At(buf, i) == NUL {
      return false, ptr;
    }

    // construct the rule
    rules[slot] := Rule(buf[str..i], Pack(s.ip[0], s.ip[1], s.ip[2], s.ip[3]), s.nm);
    return true, i + 1;
  }

  /** The loop `while (ch[i] != 0 && ch[i] != '\n')` over line 1 of
      `load_one_rule`: it stops at the line end `i` with the scanner state,
      or gives None where the C function returns FALSE from inside the
      loop. */
  method ScanFirstLine(buf: seq<byte>, ptr: nat) returns (r: Option<Scanner>, i: nat)
    requires ptr <= |buf|
    ensures r == Scan(Start, FirstLine(buf, ptr))
    ensures r.Some? ==> i == LineEnd(buf, ptr)
  {
    ghost var eol := LineEnd(buf, ptr);
    var s := Start;
    i := ptr;
    while At(buf, i) != NUL && At(buf, i) != LF
      invariant ptr <= i <= eol
      invariant Scan(Start, buf[ptr..i]) == Some(s)
      decreases eol - i
    {
      var t := ScanByte(s, buf[i]);
      ScanOneMore(buf, ptr, i, s);
      if t.None? {
        return None, i;
      }
      s := t.value;
      i := i + 1;
    }
    LineEndFirst(buf, ptr, i);
    r := Some(s);
  }

  /** The `switch (ch[i])` of the line-1 loop on the locals `ip`, `nm`,
      `ip_index`, `n_ip` and `n_num` (the fields of `s`); None where it
      returns FALSE. */
  method ScanByte(s: Scanner, c: byte) returns (r: Option<Scanner>)
    requires s.Valid()
    ensures r == Step(s, c)
  {
    var ip, nm, ipIndex, nIp, nNum := s.ip, s.nm, s.octet, s.inAddress, s.needDigit;
    if c == DOT {
      if nNum || ipIndex > 3 || ip[ipIndex] > 255 {
        return None;
      }
      ipIndex := ipIndex + 1;
      nNum := true;
    } else if c == SLASH {
      if ipIndex != 3 || nNum {
        return None;
      }
      nNum := true;
      nIp := false;
    } else if IsDigit(c) {
      nNum := false;
      if !nIp {
        nm := Shift(nm, c);
      } else {
        if ipIndex > 3 {
          return None;
        }
        ip := ip[ipIndex := Shift(ip[ipIndex], c)];
      }
    } else if c != CR {
      return None;
    }
    r := Some(Scanner(ip, nm, ipIndex, nIp, nNum));
  }

  /** The loop `while (ch[i] != 0 && ch[i] != '\n') i++` from `i`. */
  method FindLineEnd(buf: seq<byte>, from: nat) returns (i: nat)
    requires from <= |buf|
    ensures i == LineEnd(buf, from)
  {
    i := from;
    while At(buf, i) != NUL && At(buf, i) != LF
      invariant from <= i <= LineEnd(buf, from)
      decreases LineEnd(buf, from) - i
    {
      i := i + 1;
    }
    LineEndFirst(buf, from, i);
  }

  // ---------------------------------------------------------------------
  // How the scanner composes

  lemma ScanSnoc(s: Scanner, a: seq<byte>, c: byte)
    requires s.Valid()
    ensures Scan(s, a + [c]) == if Scan(s, a).None? then None else Step(Scan(s, a).value, c)
  {
    assert (a + [c])[..|a|] == a;
  }

  lemma {:induction false} ScanAppend(s: Scanner, a: seq<byte>, b: seq<byte>)
    requires s.Valid()
    ensures Scan(s, a + b) == if Scan(s, a).None? then None else Scan(Scan(s, a).value, b)
    decreases |b|
  {
    if b == [] {
      assert a + b == a;
    } else {
      var b' := b[..|b| - 1];
      var c := b[|b| - 1];
      assert a + b == (a + b') + [c];
      ScanAppend(s, a, b');
      ScanSnoc(s, a + b', c);
      if Scan(s, a).Some? {
        ScanSnoc(Scan(s, a).value, b', c);
        assert b' + [c] == b;
      }
    }
  }

  /** Scanning one more byte of the buffer. */
  lemma ScanNext(buf: seq<byte>, ptr: nat, i: nat)
    requires ptr <= i < |buf|
    ensures Scan(Start, buf[ptr..i + 1]) ==
      if Scan(Start, buf[ptr..i]).None? then None else Step(Scan(Start, buf[ptr..i]).value, buf[i])
  {
    assert buf[ptr..i + 1] == buf[ptr..i] + [buf[i]];
    ScanSnoc(Start, buf[ptr..i], buf[i]);
  }

  /** The step that the line-1 loop takes at offset `i`. */
  lemma ScanOneMore(buf: seq<byte>, ptr: nat, i: nat, s: Scanner)
    requires ptr <= |buf| && ptr <= i < LineEnd(buf, ptr) && Scan(Start, buf[ptr..i]) == Some(s)
    ensures Scan(Start, buf[ptr..i + 1]) == Step(s, buf[i])
    ensures Step(s, buf[i]).None? ==> Scan(Start, FirstLine(buf, ptr)) == None
  {
    ScanNext(buf, ptr, i);
    if Step(s, buf[i]).None? {
      RejectedPrefix(buf, ptr, i + 1);
    }
  }

  /** A byte the scanner refuses anywhere in line 1 makes the record fail. */
  lemma RejectedPrefix(buf: seq<byte>, ptr: nat, i: nat)
    requires ptr <= |buf| && ptr < i <= LineEnd(buf, ptr)
    requires Scan(Start, buf[ptr..i]) == None
    ensures Scan(Start, FirstLine(buf, ptr)) == None
  {
    var eol := LineEnd(buf, ptr);
    assert buf[ptr..eol] == buf[ptr..i] + buf[i..eol];
    ScanAppend(Start, buf[ptr..i], buf[i..eol]);
  }

  // ---------------------------------------------------------------------
  // The rejections of line 1

  /** A byte outside `0-9 . / \r` in line 1 makes the record fail. */
  lemma RejectsForeignByte(buf: seq<byte>, ptr: nat, k: nat)
    requires ptr <= |buf| && ptr <= k < LineEnd(buf, ptr)
    requires !(IsDigit(buf[k]) || buf[k] == DOT || buf[k] == SLASH || buf[k] == CR)
    ensures ParseRule(buf, ptr) == None
  {
    ScanNext(buf, ptr, k);
    RejectedPrefix(buf, ptr, k + 1);
  }

  /** After a prefix of line 1 the scanner needs a digit exactly when the
      prefix does not end in one, CR bytes aside. */
  lemma {:induction false} ScanNeedsDigit(a: seq<byte>)
    requires Scan(Start, a).Some?
    ensures Scan(Start, a).value.needDigit <==> !EndsInDigit(a)
    decreases |a|
  {
    if a != [] {
      var a' := a[..|a| - 1];
      assert a' + [a[|a| - 1]] == a;
      ScanSnoc(Start, a', a[|a| - 1]);
      ScanNeedsDigit(a');
    }
  }

  /** A '.' or '/' in line 1 that does not follow a digit (CR bytes aside),
      the first byte of the line included, makes the record fail. */
  lemma RejectsSeparatorWithoutDigit(buf: seq<byte>, ptr: nat, k: nat)
    requires ptr <= |buf| && ptr <= k < LineEnd(buf, ptr)
    requires buf[k] == DOT || buf[k] == SLASH
    requires !EndsInDigit(buf[ptr..k])
    ensures ParseRule(buf, ptr) == None
  {
    ScanNext(buf, ptr, k);
    if Scan(Start, buf[ptr..k]).Some? {
      ScanNeedsDigit(buf[ptr..k]);
    }
    RejectedPrefix(buf, ptr, k + 1);
  }

  /** After a prefix of line 1 the scanner's `ip_index` is the number of dots
      in it. */
  lemma {:induction false} ScanCountsDots(a: seq<byte>)
    requires Scan(Start, a).Some?
    ensures Scan(Start, a).value.octet == Count(a, DOT)
    decreases |a|
  {
    if a != [] {
      var a' := a[..|a| - 1];
      assert a' + [a[|a| - 1]] == a;
      ScanSnoc(Start, a', a[|a| - 1]);
      ScanCountsDots(a');
    }
  }

  /** A '/' in line 1 with other than three dots before it makes the record
      fail. */
  lemma RejectsSlashWithoutThreeDots(buf: seq<byte>, ptr: nat, k: nat)
    requires ptr <= |buf| && ptr <= k < LineEnd(buf, ptr)
    requires buf[k] == SLASH && Count(buf[ptr..k], DOT) != 3
    ensures ParseRule(buf, ptr) == None
  {
    ScanNext(buf, ptr, k);
    if Scan(Start, buf[ptr..k]).Some? {
      ScanCountsDots(buf[ptr..k]);
    }
    RejectedPrefix(buf, ptr, k + 1);
  }

  /** Between a prefix of the address (no '/' yet) and the scanner state:
      the fields closed by a '.' are non-empty, at most 255 and held in
      `ip`; the open field is the value being accumulated; the octets not
      reached yet are 0; a digit is needed exactly when the open field is
      empty. */
  predicate AddressState(a: seq<byte>, t: Scanner)
    requires t.Valid()
  {
    var fs := Fields(a);
    t.inAddress && t.nm == 0 && |fs| == t.octet + 1 &&
    (forall k :: 0 <= k < t.octet ==> fs[k] != [] && AllDigits(fs[k]) && t.ip[k] == DecimalValue(fs[k]) && t.ip[k] <= 255) &&
    AllDigits(fs[t.octet]) &&
    (t.octet < 4 ==> t.ip[t.octet] == DecimalValue(fs[t.octet])) &&
    (t.octet == 4 ==> fs[4] == []) &&
    (forall k :: t.octet < k < 4 ==> t.ip[k] == 0) &&
    (t.needDigit <==> fs[t.octet] == [])
  }

  lemma {:induction false} ScanAddressPrefix(a: seq<byte>)
    requires SLASH !in a && Scan(Start, a).Some?
    ensures AddressState(a, Scan(Start, a).value)
    decreases |a|
  {
    if a != [] {
      var a' := a[..|a| - 1];
      var c := a[|a| - 1];
      assert a' + [c] == a;
      assert SLASH !in a';
      ScanSnoc(Start, a', c);
      ScanAddressPrefix(a');
      AddressStep(a', Scan(Start, a').value, c);
    }
  }

  /** One step of the scanner keeps AddressState. */
  lemma AddressStep(a: seq<byte>, t: Scanner, c: byte)
    requires t.Valid() && AddressState(a, t) && c != SLASH && Step(t, c).Some?
    ensures AddressState(a + [c], Step(t, c).value)
  {
    FieldsSnoc(a, c);
    if c == DOT {
      AddressDot(a, t);
    } else if IsDigit(c) {
      AddressDigit(a, t, c);
    }
  }

  lemma AddressDot(a: seq<byte>, t: Scanner)
    requires t.Valid() && AddressState(a, t) && Step(t, DOT).Some?
    ensures AddressState(a + [DOT], Step(t, DOT).value)
  {
    FieldsSnoc(a, DOT);
  }

  lemma AddressDigit(a: seq<byte>, t: Scanner, c: byte)
    requires t.Valid() && AddressState(a, t) && IsDigit(c) && Step(t, c).Some?
    ensures AddressState(a + [c], Step(t, c).value)
  {
    var fs := Fields(a);
    var o := t.octet;
    var field := fs[o] + [c];
    FieldsSnoc(a, c);
    var fs' := Fields(a + [c]);
    assert fs' == fs[..o] + [field];
    assert forall k :: 0 <= k < o ==> fs'[k] == fs[k];
    var u := Step(t, c).value;
    assert u == t.(needDigit := false, ip := t.ip[o := Shift(t.ip[o], c)]);
    DecimalValueSnoc(fs[o], c);
    assert AllDigits(field);
  }

  /** A field of the address closed by a '.' and worth more than 255 makes
      the record fail (the value compared is the 32-bit accumulation). */
  lemma RejectsWideOctet(buf: seq<byte>, ptr: nat, k: nat)
    requires ptr <= |buf| && ptr <= k < LineEnd(buf, ptr)
    requires buf[k] == DOT && SLASH !in buf[ptr..k]
    requires Count(buf[ptr..k], DOT) <= 3
    requires DecimalValue(Fields(buf[ptr..k])[Count(buf[ptr..k], DOT)]) > 255
    ensures ParseRule(buf, ptr) == None
  {
    ScanNext(buf, ptr, k);
    if Scan(Start, buf[ptr..k]).Some? {
      ScanAddressPrefix(buf[ptr..k]);
    }
    RejectedPrefix(buf, ptr, k + 1);
  }

  /** A record takes exactly two lines of the buffer. */
  lemma ParseRuleConsumesTwoLines(buf: seq<byte>, ptr: nat)
    requires ptr <= |buf| && ParseRule(buf, ptr).Some?
    ensures Newlines(buf[ptr..ParseRule(buf, ptr).value.next]) == 2
  {
    var eol := LineEnd(buf, ptr);
    LineEndClean(buf, ptr);
    LineEndClean(buf, eol + 1);
    TwoLines(buf, ptr, eol, ParseRule(buf, ptr).value.next);
  }

  /** Two lines, each ended by LF, hold two LF bytes. */
  lemma TwoLines(buf: seq<byte>, ptr: nat, eol: nat, next: nat)
    requires ptr <= eol < next <= |buf| && eol + 1 <= next - 1
    requires NoLineEnd(buf[ptr..eol]) && buf[eol] == LF && NoLineEnd(buf[eol + 1..next - 1]) && buf[next - 1] == LF
    ensures Newlines(buf[ptr..next]) == 2
  {
    var a, b := buf[ptr..eol], buf[eol + 1..next - 1];
    SliceConcat(buf, ptr, eol, next);
    SliceConcat(buf, eol, eol + 1, next);
    SliceConcat(buf, eol + 1, next - 1, next);
    assert buf[eol..eol + 1] == [LF];
    assert buf[next - 1..next] == [LF];
    CountTwoLines(a, b);
  }

  lemma CountTwoLines(a: seq<byte>, b: seq<byte>)
    requires NoLineEnd(a) && NoLineEnd(b)
    ensures Count(a + ([LF] + (b + [LF])), LF) == 2
  {
    LFAbsent(a);
    LFAbsent(b);
    assert [LF][..0] == [];
    CountAppend(b, [LF], LF);
    CountAppend([LF], b + [LF], LF);
    CountAppend(a, [LF] + (b + [LF]), LF);
  }

  lemma LFAbsent(s: seq<byte>)
    requires NoLineEnd(s)
    ensures Count(s, LF) == 0
  {
    CountAbsent(s, LF);
  }

  /** Between the text `b` after the first '/' and the scanner state: the
      address is left alone, the netmask is the value of the digits of `b`
      (every digit counts, the '.' and '/' among them are skipped), one '.'
      at most is taken, and it re-checks the last octet against 255. */
  predicate NetmaskState(u: Scanner, b: seq<byte>, v: Scanner)
    requires u.Valid() && v.Valid()
  {
    v.ip == u.ip && !v.inAddress && v.nm == DecimalValue(Digits(b)) &&
    v.octet == 3 + Count(b, DOT) && (v.octet == 4 ==> u.ip[3] <= 255) &&
    (v.needDigit <==> !EndsInDigit(b))
  }

  lemma {:induction false} ScanNetmask(u: Scanner, b: seq<byte>)
    requires u.Valid() && !u.inAddress && u.octet == 3 && u.nm == 0 && u.needDigit
    requires Scan(u, b).Some?
    ensures NetmaskState(u, b, Scan(u, b).value)
    decreases |b|
  {
    if b != [] {
      var b' := b[..|b| - 1];
      var c := b[|b| - 1];
      assert b' + [c] == b;
      ScanSnoc(u, b', c);
      ScanNetmask(u, b');
      NetmaskStep(u, b', Scan(u, b').value, c);
    }
  }

  lemma NetmaskStep(u: Scanner, b: seq<byte>, v: Scanner, c: byte)
    requires u.Valid() && v.Valid() && NetmaskState(u, b, v) && Step(v, c).Some?
    ensures NetmaskState(u, b + [c], Step(v, c).value)
  {
    var b' := b + [c];
    assert b'[..|b'| - 1] == b;
    assert Count(b', DOT) == Count(b, DOT) + (if c == DOT then 1 else 0);
    assert Digits(b') == Digits(b) + (if IsDigit(c) then [c] else []);
    assert EndsInDigit(b') == if c == CR then EndsInDigit(b) else IsDigit(c);
    if IsDigit(c) {
      DecimalValueSnoc(Digits(b), c);
    } else {
      assert Digits(b) + [] == Digits(b);
    }
  }

  /** What a record that parses says about its first line: the line splits
      at its first '/' into an address of four non-empty decimal fields, the
      first three at most 255, and a netmask text that ends in a digit; the
      rule's address packs the four field values and its netmask is the value
      of the digits after the '/'. The text after the '/' may hold one '.',
      and then the fourth field is at most 255 too. */
  lemma ParsedRuleShape(buf: seq<byte>, ptr: nat)
    requires ptr <= |buf| && ParseRule(buf, ptr).Some?
    ensures
      var line := FirstLine(buf, ptr);
      var j := IndexOf(line, SLASH);
      var rule := ParseRule(buf, ptr).value.rule;
      j < |line| &&
      var fs := Fields(line[..j]);
      var mask := line[j + 1..];
      |fs| == 4 &&
      (forall k :: 0 <= k < 4 ==> fs[k] != [] && AllDigits(fs[k])) &&
      DecimalValue(fs[0]) <= 255 && DecimalValue(fs[1]) <= 255 && DecimalValue(fs[2]) <= 255 &&
      rule.ip == Pack(DecimalValue(fs[0]), DecimalValue(fs[1]), DecimalValue(fs[2]), DecimalValue(fs[3])) &&
      rule.netmask == DecimalValue(Digits(mask)) &&
      EndsInDigit(mask) &&
      Count(mask, DOT) <= 1 &&
      (Count(mask, DOT) == 1 ==> DecimalValue(fs[3]) <= 255)
  {
    var line := FirstLine(buf, ptr);
    var v := Scan(Start, line).value;
    AcceptedLineShape(line, v);
  }

  /** The first line of a record that parses, with `v` the scanner state at
      its end. */
  lemma AcceptedLineShape(line: seq<byte>, v: Scanner)
    requires Scan(Start, line) == Some(v) && !v.needDigit && !v.inAddress
    ensures
      var j := IndexOf(line, SLASH);
      j < |line| &&
      var fs := Fields(line[..j]);
      var mask := line[j + 1..];
      |fs| == 4 &&
      (forall k :: 0 <= k < 4 ==> fs[k] != [] && AllDigits(fs[k])) &&
      DecimalValue(fs[0]) <= 255 && DecimalValue(fs[1]) <= 255 && DecimalValue(fs[2]) <= 255 &&
      v.ip == [DecimalValue(fs[0]), DecimalValue(fs[1]), DecimalValue(fs[2]), DecimalValue(fs[3])] &&
      v.nm == DecimalValue(Digits(mask)) &&
      EndsInDigit(mask) &&
      Count(mask, DOT) <= 1 &&
      (Count(mask, DOT) == 1 ==> DecimalValue(fs[3]) <= 255)
  {
    var t, u := SplitAtSlash(line);
    var j := IndexOf(line, SLASH);
    AddressFields(line[..j], t);
  }

  /** The address text before the '/', once the scanner has read four
      fields and not yet reached the '/'. */
  lemma AddressFields(a: seq<byte>, t: Scanner)
    requires t.Valid() && AddressState(a, t) && t.octet == 3 && !t.needDigit
    ensures
      var fs := Fields(a);
      |fs| == 4 && (forall k :: 0 <= k < 4 ==> fs[k] != [] && AllDigits(fs[k])) &&
      DecimalValue(fs[0]) <= 255 && DecimalValue(fs[1]) <= 255 && DecimalValue(fs[2]) <= 255 &&
      t.ip == [DecimalValue(fs[0]), DecimalValue(fs[1]), DecimalValue(fs[2]), DecimalValue(fs[3])]
  {
    var fs := Fields(a);
    assert t.ip[3] == DecimalValue(fs[3]);
  }

  /** A first line the scanner accepts with the address finished has a '/';
      the scanner states at that '/' (before and after) relate the text on
      either side of it to the final state. */
  lemma SplitAtSlash(line: seq<byte>) returns (t: Scanner, u: Scanner)
    requires Scan(Start, line).Some? && !Scan(Start, line).value.inAddress
    ensures IndexOf(line, SLASH) < |line|
    ensures t.Valid() && AddressState(line[..IndexOf(line, SLASH)], t) && t.octet == 3 && !t.needDigit
    ensures u == t.(needDigit := true, inAddress := false) && u.Valid()
    ensures NetmaskState(u, line[IndexOf(line, SLASH) + 1..], Scan(Start, line).value)
  {
    var j := IndexOf(line, SLASH);
    if SLASH !in line {
      assert line[..j] == line;
      ScanAddressPrefix(line);
    }
    assert j < |line|;
    var a, b := line[..j], line[j + 1..];
    assert line == (a + [SLASH]) + b;
    ScanAppend(Start, a + [SLASH], b);
    ScanSnoc(Start, a, SLASH);
    ScanAddressPrefix(a);
    t := Scan(Start, a).value;
    u := Step(t, SLASH).value;
    ScanNetmask(u, b);
  }

  // ---------------------------------------------------------------------
  // Position independence, and the records the parser accepts

  /** Parsing does not depend on what precedes the record in the buffer. */
  lemma ParseRuleShift(x: seq<byte>, r: seq<byte>, p: nat)
    requires p <= |r|
    ensures ParseRule(x + r, |x| + p) ==
      if ParseRule(r, p).None? then None
      else Some(Parsed(ParseRule(r, p).value.rule, |x| + ParseRule(r, p).value.next))
  {
    ShiftedLines(x, r, p);
    ParseRuleTransfer(r, p, x + r, |x| + p, |x|);
  }

  /** The lines of a record read the same after a prefix. */
  lemma ShiftedLines(x: seq<byte>, r: seq<byte>, p: nat)
    requires p <= |r|
    ensures
      var b2, p2 := x + r, |x| + p;
      At(r, LineEnd(r, p)) == At(b2, LineEnd(b2, p2)) &&
      r[p..LineEnd(r, p)] == b2[p2..LineEnd(b2, p2)] &&
      (At(r, LineEnd(r, p)) == LF ==>
        |x| + LineEnd(r, LineEnd(r, p) + 1) == LineEnd(b2, LineEnd(b2, p2) + 1) &&
        At(r, LineEnd(r, LineEnd(r, p) + 1)) == At(b2, LineEnd(b2, LineEnd(b2, p2) + 1)) &&
        r[LineEnd(r, p) + 1..LineEnd(r, LineEnd(r, p) + 1)] == b2[LineEnd(b2, p2) + 1..LineEnd(b2, LineEnd(b2, p2) + 1)])
  {
    var buf := x + r;
    LineShift(x, r, p);
    var e := LineEnd(r, p);
    if At(r, e) == LF {
      assert e < |r|;
      LineShift(x, r, e + 1);
      assert LineEnd(buf, |x| + p) + 1 == |x| + (e + 1);
    }
  }

  /** Two records with the same lines parse alike, `d` bytes apart. */
  lemma ParseRuleTransfer(b1: seq<byte>, p1: nat, b2: seq<byte>, p2: nat, d: nat)
    requires p1 <= |b1| && p2 <= |b2|
    requires At(b1, LineEnd(b1, p1)) == At(b2, LineEnd(b2, p2))
    requires b1[p1..LineEnd(b1, p1)] == b2[p2..LineEnd(b2, p2)]
    requires At(b1, LineEnd(b1, p1)) == LF ==>
      d + LineEnd(b1, LineEnd(b1, p1) + 1) == LineEnd(b2, LineEnd(b2, p2) + 1) &&
      At(b1, LineEnd(b1, LineEnd(b1, p1) + 1)) == At(b2, LineEnd(b2, LineEnd(b2, p2) + 1)) &&
      b1[LineEnd(b1, p1) + 1..LineEnd(b1, LineEnd(b1, p1) + 1)] == b2[LineEnd(b2, p2) + 1..LineEnd(b2, LineEnd(b2, p2) + 1)]
    ensures ParseRule(b2, p2) ==
      if ParseRule(b1, p1).None? then None
      else Some(Parsed(ParseRule(b1, p1).value.rule, d + ParseRule(b1, p1).value.next))
  {}

  /** A record whose first line the scanner accepts with a finished netmask
      parses to the scanned rule and ends after its second LF. */
  lemma ParseAcceptedLine(line: seq<byte>, status: seq<byte>, rest: seq<byte>, v: Scanner)
    requires NoLineEnd(line) && NoLineEnd(status)
    requires Scan(Start, line) == Some(v) && !v.needDigit && !v.inAddress
    ensures ParseRule(line + [LF] + status + [LF] + rest, 0) ==
      Some(Parsed(Rule(status, Pack(v.ip[0], v.ip[1], v.ip[2], v.ip[3]), v.nm), |line| + |status| + 2))
  {
    var buf := line + [LF] + status + [LF] + rest;
    RecordLayout(line, status, rest);
    ParseRuleAccepts(buf, line, status, v);
  }

  /** Where the two lines of `line LF status LF rest` lie. */
  lemma RecordLayout(line: seq<byte>, status: seq<byte>, rest: seq<byte>)
    requires NoLineEnd(line) && NoLineEnd(status)
    ensures
      var buf := line + [LF] + status + [LF] + rest;
      var n := |line|;
      LineEnd(buf, 0) == n && At(buf, n) == LF && buf[0..n] == line &&
      LineEnd(buf, n + 1) == n + 1 + |status| && At(buf, n + 1 + |status|) == LF &&
      buf[n + 1..n + 1 + |status|] == status
  {
    var buf := line + [LF] + status + [LF] + rest;
    var n := |line|;
    LineEndAt(buf, 0, n);
    assert buf[0..n] == line;
    LineEndAt(buf, n + 1, n + 1 + |status|);
    assert buf[n + 1..n + 1 + |status|] == status;
  }

  /** The accepting path of ParseRule, for a record at the start of `buf`
      whose two lines are `line` and `status`. */
  lemma ParseRuleAccepts(buf: seq<byte>, line: seq<byte>, status: seq<byte>, v: Scanner)
    requires LineEnd(buf, 0) == |line| && At(buf, |line|) == LF && buf[0..|line|] == line
    requires LineEnd(buf, |line| + 1) == |line| + 1 + |status| && At(buf, |line| + 1 + |status|) == LF
    requires buf[|line| + 1..|line| + 1 + |status|] == status
    requires Scan(Start, line) == Some(v) && !v.needDigit && !v.inAddress
    ensures ParseRule(buf, 0) == Some(Parsed(Rule(status, Pack(v.ip[0], v.ip[1], v.ip[2], v.ip[3]), v.nm), |line| + |status| + 2))
  {}

  lemma NoLineEndConcat(a: seq<byte>, b: seq<byte>)
    requires NoLineEnd(a) && NoLineEnd(b)
    ensures NoLineEnd(a + b)
  {
    assert forall k :: 0 <= k < |a + b| ==> (a + b)[k] == if k < |a| then a[k] else b[k - |a|];
  }

  lemma {:induction false} ScanAddressDigits(s: Scanner, p: seq<byte>, f: seq<byte>)
    requires s.Valid() && s.inAddress && s.octet <= 3 && AllDigits(f)
    requires s.ip[s.octet] == DecimalValue(p)
    ensures Scan(s, f) == Some(s.(ip := s.ip[s.octet := DecimalValue(p + f)], needDigit := s.needDigit && f == []))
    decreases |f|
  {
    if f == [] {
      assert p + f == p;
      assert s.ip[s.octet := DecimalValue(p)] == s.ip;
    } else {
      var g, c := f[..|f| - 1], f[|f| - 1];
      assert g + [c] == f;
      ScanAddressDigits(s, p, g);
      var t := s.(ip := s.ip[s.octet := DecimalValue(p + g)], needDigit := s.needDigit && g == []);
      ScanSnoc(s, g, c);
      assert Scan(s, f) == Step(t, c);
      DecimalValueSnoc(p + g, c);
      assert p + g + [c] == p + f;
      assert t.ip[s.octet := Shift(t.ip[s.octet], c)] == s.ip[s.octet := DecimalValue(p + f)];
    }
  }

  lemma {:induction false} ScanNetmaskDigits(s: Scanner, p: seq<byte>, f: seq<byte>)
    requires s.Valid() && !s.inAddress && AllDigits(f)
    requires s.nm == DecimalValue(p)
    ensures Scan(s, f) == Some(s.(nm := DecimalValue(p + f), needDigit := s.needDigit && f == []))
    decreases |f|
  {
    if f == [] {
      assert p + f == p;
    } else {
      var g, c := f[..|f| - 1], f[|f| - 1];
      assert g + [c] == f;
      ScanNetmaskDigits(s, p, g);
      var t := s.(nm := DecimalValue(p + g), needDigit := s.needDigit && g == []);
      ScanSnoc(s, g, c);
      assert Scan(s, f) == Step(t, c);
      DecimalValueSnoc(p + g, c);
      assert p + g + [c] == p + f;
    }
  }

  lemma ScanThen(s: Scanner, a: seq<byte>, b: seq<byte>, t: Scanner)
    requires s.Valid() && Scan(s, a) == Some(t)
    ensures Scan(s, a + b) == Scan(t, b)
  {
    ScanAppend(s, a, b);
  }

  /** The digits of one address field, read into an accumulator at 0. */
  lemma OctetDigits(s: Scanner, f: seq<byte>)
    requires s.Valid() && s.inAddress && s.octet <= 3 && s.ip[s.octet] == 0 && AllDigits(f)
    ensures Scan(s, f) == Some(s.(ip := s.ip[s.octet := DecimalValue(f)], needDigit := s.needDigit && f == []))
  {
    ScanAddressDigits(s, [], f);
    assert [] + f == f;
  }

  lemma DotStep(t: Scanner)
    requires t.Valid() && !t.needDigit && t.octet <= 3 && t.ip[t.octet] <= 255
    ensures Step(t, DOT) == Some(t.(octet := t.octet + 1, needDigit := true))
  {}

  lemma SlashStep(t: Scanner)
    requires t.Valid() && !t.needDigit && t.octet == 3
    ensures Step(t, SLASH) == Some(t.(needDigit := true, inAddress := false))
  {}

  /** An octet of at most 255 and the '.' after it. */
  lemma ScanOctet(s: Scanner, f: seq<byte>)
    requires s.Valid() && s.inAddress && s.octet <= 3 && s.ip[s.octet] == 0
    requires f != [] && AllDigits(f) && DecimalValue(f) <= 255
    ensures Scan(s, f + [DOT]) == Some(s.(ip := s.ip[s.octet := DecimalValue(f)], octet := s.octet + 1, needDigit := true))
  {
    OctetDigits(s, f);
    ScanSnoc(s, f, DOT);
    DotStep(s.(ip := s.ip[s.octet := DecimalValue(f)], needDigit := false));
  }

  /** The fourth octet, not range-checked, and the '/' after it. */
  lemma ScanLastOctet(s: Scanner, f: seq<byte>)
    requires s.Valid() && s.inAddress && s.octet == 3 && s.ip[3] == 0
    requires f != [] && AllDigits(f)
    ensures Scan(s, f + [SLASH]) == Some(s.(ip := s.ip[3 := DecimalValue(f)], needDigit := true, inAddress := false))
  {
    OctetDigits(s, f);
    ScanSnoc(s, f, SLASH);
    SlashStep(s.(ip := s.ip[3 := DecimalValue(f)], needDigit := false));
  }

  /** The text `f0.f1.f2.f3/` before the netmask of a record. */
  function AddressHead(f0: seq<byte>, f1: seq<byte>, f2: seq<byte>, f3: seq<byte>): seq<byte>
  {
    f0 + [DOT] + f1 + [DOT] + f2 + [DOT] + f3 + [SLASH]
  }

  lemma AddressHeadSplit(f0: seq<byte>, f1: seq<byte>, f2: seq<byte>, f3: seq<byte>)
    ensures AddressHead(f0, f1, f2, f3) == ((f0 + [DOT]) + (f1 + [DOT]) + (f2 + [DOT])) + (f3 + [SLASH])
  {}

  lemma FillOctets(a: u32, b: u32, c: u32, d: u32)
    ensures [0, 0, 0, 0][0 := a] == [a, 0, 0, 0]
    ensures [a, 0, 0, 0][1 := b] == [a, b, 0, 0]
    ensures [a, b, 0, 0][2 := c] == [a, b, c, 0]
    ensures [a, b, c, 0][3 := d] == [a, b, c, d]
  {}

  /** The scanner state after `f0.f1.f2.f3/`: the four field values, the
      last one unchecked. */
  lemma ScanAddress(f0: seq<byte>, f1: seq<byte>, f2: seq<byte>, f3: seq<byte>)
    requires f0 != [] && f1 != [] && f2 != [] && f3 != []
    requires AllDigits(f0) && AllDigits(f1) && AllDigits(f2) && AllDigits(f3)
    requires DecimalValue(f0) <= 255 && DecimalValue(f1) <= 255 && DecimalValue(f2) <= 255
    ensures Scan(Start, AddressHead(f0, f1, f2, f3)) == Some(AfterAddress(f0, f1, f2, f3))
  {
    var d0, d1, d2, d3 := DecimalValue(f0), DecimalValue(f1), DecimalValue(f2), DecimalValue(f3);
    var s1 := Scanner([d0, 0, 0, 0], 0, 1, true, true);
    var s2 := Scanner([d0, d1, 0, 0], 0, 2, true, true);
    var s3 := Scanner([d0, d1, d2, 0], 0, 3, true, true);
    var l1 := f0 + [DOT];
    var l2 := l1 + (f1 + [DOT]);
    var l3 := l2 + (f2 + [DOT]);
    AddressHeadSplit(f0, f1, f2, f3);
    FillOctets(d0, d1, d2, d3);
    ScanOctet(Start, f0);
    ScanOctet(s1, f1);
    ScanThen(Start, l1, f1 + [DOT], s1);
    ScanOctet(s2, f2);
    ScanThen(Start, l2, f2 + [DOT], s2);
    ScanLastOctet(s3, f3);
    ScanThen(Start, l3, f3 + [SLASH], s3);
  }

  /** The first line `f0.f1.f2.f3/g` of a record in its documented form. */
  function AddressLine(f0: seq<byte>, f1: seq<byte>, f2: seq<byte>, f3: seq<byte>, g: seq<byte>): seq<byte>
  {
    AddressHead(f0, f1, f2, f3) + g
  }

  lemma AddressLineNoLineEnd(f0: seq<byte>, f1: seq<byte>, f2: seq<byte>, f3: seq<byte>, g: seq<byte>)
    requires AllDigits(f0) && AllDigits(f1) && AllDigits(f2) && AllDigits(f3)
    requires forall k :: 0 <= k < |g| ==> IsDigit(g[k]) || g[k] == DOT || g[k] == SLASH
    ensures NoLineEnd(AddressLine(f0, f1, f2, f3, g))
  {
    var line := AddressLine(f0, f1, f2, f3, g);
    assert forall k :: 0 <= k < |line| ==> IsDigit(line[k]) || line[k] == DOT || line[k] == SLASH;
  }

  /** The scanner state after the address `f0.f1.f2.f3/` of a record. */
  function AfterAddress(f0: seq<byte>, f1: seq<byte>, f2: seq<byte>, f3: seq<byte>): Scanner
  {
    Scanner([DecimalValue(f0), DecimalValue(f1), DecimalValue(f2), DecimalValue(f3)], 0, 3, false, true)
  }

  /** A record whose first line is an address followed by a netmask text
      `g` that the scanner reads as the finished netmask `nm`, parses to the
      address and `nm`. */
  lemma ParseWithNetmask(f0: seq<byte>, f1: seq<byte>, f2: seq<byte>, f3: seq<byte>, g: seq<byte>, nm: u32, o: nat, status: seq<byte>, rest: seq<byte>)
    requires f0 != [] && f1 != [] && f2 != [] && f3 != []
    requires AllDigits(f0) && AllDigits(f1) && AllDigits(f2) && AllDigits(f3)
    requires DecimalValue(f0) <= 255 && DecimalValue(f1) <= 255 && DecimalValue(f2) <= 255
    requires forall k :: 0 <= k < |g| ==> IsDigit(g[k]) || g[k] == DOT || g[k] == SLASH
    requires o <= 4 && Scan(AfterAddress(f0, f1, f2, f3), g) == Some(AfterAddress(f0, f1, f2, f3).(nm := nm, needDigit := false, octet := o))
    requires NoLineEnd(status)
    ensures
      var line := AddressLine(f0, f1, f2, f3, g);
      ParseRule(line + [LF] + status + [LF] + rest, 0) ==
        Some(Parsed(Rule(status, Pack(DecimalValue(f0), DecimalValue(f1), DecimalValue(f2), DecimalValue(f3)), nm), |line| + |status| + 2))
  {
    ScanAddress(f0, f1, f2, f3);
    ScanThen(Start, AddressHead(f0, f1, f2, f3), g, AfterAddress(f0, f1, f2, f3));
    AddressLineNoLineEnd(f0, f1, f2, f3, g);
    ParseAcceptedLine(AddressLine(f0, f1, f2, f3, g), status, rest, AfterAddress(f0, f1, f2, f3).(nm := nm, needDigit := false, octet := o));
  }

  /** A record in the documented form parses to its own fields and is
      consumed up to its second LF: the address packs the four field values,
      the last one taken modulo 2^32 without a range check, and the netmask
      is the value of the digits after the '/'. */
  lemma ParseCanonical(f0: seq<byte>, f1: seq<byte>, f2: seq<byte>, f3: seq<byte>, g: seq<byte>, status: seq<byte>, rest: seq<byte>)
    requires f0 != [] && f1 != [] && f2 != [] && f3 != [] && g != []
    requires AllDigits(f0) && AllDigits(f1) && AllDigits(f2) && AllDigits(f3) && AllDigits(g)
    requires DecimalValue(f0) <= 255 && DecimalValue(f1) <= 255 && DecimalValue(f2) <= 255
    requires NoLineEnd(status)
    ensures
      var line := AddressLine(f0, f1, f2, f3, g);
      ParseRule(line + [LF] + status + [LF] + rest, 0) ==
        Some(Parsed(Rule(status, Pack(DecimalValue(f0), DecimalValue(f1), DecimalValue(f2), DecimalValue(f3)), DecimalValue(g)), |line| + |status| + 2))
  {
    var s := AfterAddress(f0, f1, f2, f3);
    ScanNetmaskDigits(s, [], g);
    assert [] + g == g;
    ParseWithNetmask(f0, f1, f2, f3, g, DecimalValue(g), 3, status, rest);
  }

  /** The separator inside a netmask text: a second '/' leaves the state
      as it is, a '.' moves the octet index past the address. */
  lemma SeparatorStep(t: Scanner, sep: byte, o: nat)
    requires t.Valid() && !t.inAddress && !t.needDigit && t.octet == 3
    requires (sep == SLASH && o == 3) || (sep == DOT && o == 4 && t.ip[3] <= 255)
    ensures Step(t, sep) == Some(t.(needDigit := true, octet := o))
  {}

  /** A netmask text `g1 sep g2` is read as the one number `g1 g2`. */
  lemma ScanNetmaskSplit(s: Scanner, g1: seq<byte>, sep: byte, g2: seq<byte>, o: nat)
    requires s.Valid() && !s.inAddress && s.octet == 3 && s.nm == 0 && s.needDigit
    requires g1 != [] && g2 != [] && AllDigits(g1) && AllDigits(g2)
    requires (sep == SLASH && o == 3) || (sep == DOT && o == 4 && s.ip[3] <= 255)
    ensures Scan(s, g1 + [sep] + g2) == Some(s.(nm := DecimalValue(g1 + g2), needDigit := false, octet := o))
  {
    ScanNetmaskDigits(s, [], g1);
    assert [] + g1 == g1;
    var t := s.(nm := DecimalValue(g1), needDigit := false);
    ScanSnoc(s, g1, sep);
    SeparatorStep(t, sep, o);
    var u := t.(needDigit := true, octet := o);
    ScanNetmaskDigits(u, g1, g2);
    ScanThen(s, g1 + [sep], g2, u);
  }

  /** The same, for a netmask text `g` whose separator is at offset `j`. */
  lemma ScanNetmaskSplitAt(s: Scanner, g: seq<byte>, j: nat, o: nat)
    requires s.Valid() && !s.inAddress && s.octet == 3 && s.nm == 0 && s.needDigit
    requires 0 < j < |g| - 1 && AllDigits(g[..j]) && AllDigits(g[j + 1..])
    requires (g[j] == SLASH && o == 3) || (g[j] == DOT && o == 4 && s.ip[3] <= 255)
    ensures Scan(s, g) == Some(s.(nm := DecimalValue(g[..j] + g[j + 1..]), needDigit := false, octet := o))
  {
    assert g == g[..j] + [g[j]] + g[j + 1..];
    ScanNetmaskSplit(s, g[..j], g[j], g[j + 1..], o);
  }

  lemma SplitDigits(g: seq<byte>, j: nat)
    requires j < |g| && AllDigits(g[..j]) && AllDigits(g[j + 1..]) && (g[j] == DOT || g[j] == SLASH)
    ensures forall k :: 0 <= k < |g| ==> IsDigit(g[k]) || g[k] == DOT || g[k] == SLASH
  {
    assert forall k :: 0 <= k < j ==> g[k] == g[..j][k];
    assert forall k :: j < k < |g| ==> g[k] == g[j + 1..][k - j - 1];
  }

  /** The netmask text may be split by one '.' or by a second '/' (at
      offset `j`): the digits on both sides are read as one number, so
      "1.2.3.4/2.4" has netmask 24. A '.' there re-checks the last octet
      against 255. */
  lemma ParseSplitNetmask(f0: seq<byte>, f1: seq<byte>, f2: seq<byte>, f3: seq<byte>, g: seq<byte>, j: nat, status: seq<byte>, rest: seq<byte>)
    requires f0 != [] && f1 != [] && f2 != [] && f3 != []
    requires AllDigits(f0) && AllDigits(f1) && AllDigits(f2) && AllDigits(f3)
    requires DecimalValue(f0) <= 255 && DecimalValue(f1) <= 255 && DecimalValue(f2) <= 255
    requires 0 < j < |g| - 1 && AllDigits(g[..j]) && AllDigits(g[j + 1..])
    requires g[j] == SLASH || (g[j] == DOT && DecimalValue(f3) <= 255)
    requires NoLineEnd(status)
    ensures
      var line := AddressLine(f0, f1, f2, f3, g);
      ParseRule(line + [LF] + status + [LF] + rest, 0) ==
        Some(Parsed(Rule(status, Pack(DecimalValue(f0), DecimalValue(f1), DecimalValue(f2), DecimalValue(f3)), DecimalValue(g[..j] + g[j + 1..])), |line| + |status| + 2))
  {
    var o: nat := if g[j] == DOT then 4 else 3;
    ScanNetmaskSplitAt(AfterAddress(f0, f1, f2, f3), g, j, o);
    SplitDigits(g, j);
    ParseWithNetmask(f0, f1, f2, f3, g, DecimalValue(g[..j] + g[j + 1..]), o, status, rest);
  }

  /** A CR byte anywhere in the first line is skipped. */
  lemma ScanIgnoresCR(s: Scanner, a: seq<byte>, b: seq<byte>)
    requires s.Valid()
    ensures Scan(s, a + [CR] + b) == Scan(s, a + b)
  {
    ScanAppend(s, a + [CR], b);
    ScanSnoc(s, a, CR);
    ScanAppend(s, a, b);
  }

  /** The result of ParseRule for a record whose first line `line` is ended
      by LF and whose second line `status` is ended by `send`, with `next`
      the offset past that. */
  function Assemble(line: seq<byte>, status: seq<byte>, send: byte, next: nat): Option<Parsed>
  {
    match Scan(Start, line)
    case None => None
    case Some(s) =>
      if s.needDigit || s.inAddress || send == NUL then None
      else Some(Parsed(Rule(status, Pack(s.ip[0], s.ip[1], s.ip[2], s.ip[3]), s.nm), next))
  }

  /** ParseRule in terms of the record's two lines. */
  lemma ParseRuleVia(buf: seq<byte>, ptr: nat, line: seq<byte>, status: seq<byte>, send: byte, next: nat)
    requires ptr <= |buf| && At(buf, LineEnd(buf, ptr)) == LF && buf[ptr..LineEnd(buf, ptr)] == line
    requires LineEnd(buf, LineEnd(buf, ptr) + 1) + 1 == next
    requires buf[LineEnd(buf, ptr) + 1..LineEnd(buf, LineEnd(buf, ptr) + 1)] == status
    requires At(buf, LineEnd(buf, LineEnd(buf, ptr) + 1)) == send
    ensures ParseRule(buf, ptr) == Assemble(line, status, send, next)
  {}

  /** ParseRule of a record made of two lines ended by LF. */
  lemma ParseRecord(line: seq<byte>, status: seq<byte>, rest: seq<byte>)
    requires NoLineEnd(line) && NoLineEnd(status)
    ensures ParseRule(line + [LF] + status + [LF] + rest, 0) == Assemble(line, status, LF, |line| + |status| + 2)
  {
    var buf := line + [LF] + status + [LF] + rest;
    RecordLayout(line, status, rest);
    ParseRuleVia(buf, 0, line, status, LF, |line| + |status| + 2);
  }

  /** A CR anywhere in the first line of a record changes nothing but where
      the record ends; a CR in the status line is kept. */
  lemma CarriageReturnIgnored(a: seq<byte>, b: seq<byte>, status: seq<byte>, rest: seq<byte>)
    requires NoLineEnd(a) && NoLineEnd(b) && NoLineEnd(status)
    ensures
      var with, without := ParseRule(a + [CR] + b + [LF] + status + [LF] + rest, 0), ParseRule(a + b + [LF] + status + [LF] + rest, 0);
      with.Some? == without.Some? &&
      (with.Some? ==> (with.value.rule == without.value.rule && with.value.next == without.value.next + 1 &&
                       with.value.rule.status == status))
  {
    NoLineEndConcat(a, [CR]);
    NoLineEndConcat(a + [CR], b);
    NoLineEndConcat(a, b);
    ParseRecord(a + [CR] + b, status, rest);
    ParseRecord(a + b, status, rest);
    ScanIgnoresCR(Start, a, b);
  }
}
