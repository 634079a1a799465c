/** The longest-prefix selection of `set_status_all`: among the rules that
    cover the host's address, the one with the longest prefix, the first
    declared among equals; a rule with prefix length 0 is never chosen. */
module Selection {
  import opened Bytes
  import opened Rules

  /** No rule asks for a shift by a negative amount (`32 - netmask`). */
  predicate NetmasksInRange(rs: seq<Rule>)
  {
    forall k :: 0 <= k < |rs| ==> NetmaskInRange(rs[k])
  }

  /** Rule `k` can be chosen for `addr`: it covers the address and its
      prefix is longer than the initial `max_len` of 0. */
  predicate Candidate(rs: seq<Rule>, addr: u32, k: int)
    requires NetmasksInRange(rs)
  {
    0 <= k < |rs| && rs[k].netmask > 0 && Matches(addr, rs[k])
  }

  /** Rule `i` is the one chosen: a candidate whose prefix is longer than
      that of every earlier candidate and at least that of every later one. */
  predicate IsSelected(rs: seq<Rule>, addr: u32, i: int)
    requires NetmasksInRange(rs)
  {
    Candidate(rs, addr, i) &&
    (forall k :: 0 <= k < i && Candidate(rs, addr, k) ==> rs[k].netmask < rs[i].netmask) &&
    (forall k :: i < k < |rs| && Candidate(rs, addr, k) ==> rs[k].netmask <= rs[i].netmask)
  }

  /** The loop `for (i=0; i<rule_cnt; i++)` over `rules[0..cnt)`: `found`
      tells whether some rule is a candidate, and then `fit` is the selected
      one. */
  method SelectRule(rules: array<Rule>, cnt: nat, addr: u32) returns (found: bool, fit: nat)
    requires cnt <= rules.Length && NetmasksInRange(rules[..cnt])
    ensures found <==> exists k :: Candidate(rules[..cnt], addr, k)
    ensures found ==> IsSelected(rules[..cnt], addr, fit)
  {
    ghost var rs := rules[..cnt];
    var i := 0;
    var maxLen: u32 := 0;
    fit, found := 0, false;
    while i < cnt
      invariant i <= cnt
      invariant !found ==> maxLen == 0 && forall k :: 0 <= k < i ==> !Candidate(rs, addr, k)
      invariant found ==> fit < i && Candidate(rs, addr, fit) && maxLen == rs[fit].netmask
      invariant found ==> forall k :: 0 <= k < fit && Candidate(rs, addr, k) ==> rs[k].netmask < maxLen
      invariant found ==> forall k :: fit < k < i && Candidate(rs, addr, k) ==> rs[k].netmask <= maxLen
    {
      assert rules[i] == rs[i];
      if rules[i].netmask > maxLen && Matches(addr, rules[i]) {
        maxLen := rules[i].netmask;
        fit := i;
        found := true;
      }
      i := i + 1;
    }
  }

  /** At most one rule is the selected one. */
  lemma SelectionUnique(rs: seq<Rule>, addr: u32, i: int, j: int)
    requires NetmasksInRange(rs) && IsSelected(rs, addr, i) && IsSelected(rs, addr, j)
    ensures i == j
  {}

  /** Whenever some rule is a candidate, one of them is selected. */
  lemma {:induction false} SelectionExists(rs: seq<Rule>, addr: u32, c: int)
    requires NetmasksInRange(rs) && Candidate(rs, addr, c)
    ensures exists i :: IsSelected(rs, addr, i)
    decreases |rs|
  {
    var init := rs[..|rs| - 1];
    var last := |rs| - 1;
    assert NetmasksInRange(init);
    assert forall k :: Candidate(init, addr, k) <==> k < last && Candidate(rs, addr, k);
    if c == last && !exists k :: Candidate(init, addr, k) {
      assert IsSelected(rs, addr, last);
    } else {
      var c' :| Candidate(init, addr, c');
      SelectionExists(init, addr, c');
      var i :| IsSelected(init, addr, i);
      if Candidate(rs, addr, last) && rs[last].netmask > rs[i].netmask {
        assert IsSelected(rs, addr, last);
      } else {
        assert IsSelected(rs, addr, i);
      }
    }
  }

  /** A rule with prefix length 0 covers every address and is still never
      selected; when it is the only rule that covers the address, nothing
      is. */
  lemma CatchAllNeverSelected(rs: seq<Rule>, addr: u32, i: int)
    requires NetmasksInRange(rs) && 0 <= i < |rs| && rs[i].netmask == 0
    ensures Matches(addr, rs[i]) && !IsSelected(rs, addr, i)
  {}

  /** The rules 10.0.0.0/8 and 10.1.0.0/16, the second refining the first:
      the address 10.1.2.3, in both, gets the second; 10.2.0.1, in the first
      only, gets the first; and 11.1.2.3, in neither, gets nothing. */
  lemma LongestPrefixWins()
    ensures
      var rs := [Rule([72], 0x0A00_0000, 8), Rule([76], 0x0A01_0000, 16)];
      NetmasksInRange(rs) &&
      IsSelected(rs, 0x0A01_0203, 1) &&
      IsSelected(rs, 0x0A02_0001, 0) &&
      !Candidate(rs, 0x0B01_0203, 0) && !Candidate(rs, 0x0B01_0203, 1)
  {
    var p16, p24 := Pow2(16), Pow2(24);
    assert Pow2(8) == 0x100;
    assert p16 == 0x1_0000;
    assert p24 == 0x100_0000;
  }

  /** Ties go to the rule declared first: when rules `i < j` have the same
      network and prefix length and `j` covers the address, so does `i`, and
      `j` is not the one selected. */
  lemma FirstDeclaredWinsTie(rs: seq<Rule>, addr: u32, i: int, j: int)
    requires NetmasksInRange(rs) && 0 <= i < j < |rs|
    requires rs[i].ip == rs[j].ip && rs[i].netmask == rs[j].netmask && Candidate(rs, addr, j)
    ensures Candidate(rs, addr, i) && !IsSelected(rs, addr, j)
  {}

  /** A rule 0.0.0.0/0 does not act as a default: beside 192.168.1.0/24,
      the address 192.168.1.5 gets the second rule, and 8.8.8.8, which only
      the first covers, gets no rule at all. */
  lemma DefaultRuleNotApplied()
    ensures
      var rs := [Rule([68], 0, 0), Rule([72], 0xC0A8_0100, 24)];
      NetmasksInRange(rs) && IsSelected(rs, 0xC0A8_0105, 1) &&
      forall k :: !Candidate(rs, 0x0808_0808, k)
  {
    assert Pow2(8) == 0x100;
  }
}
