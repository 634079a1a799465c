/** A rule of the configuration (the C `struct Rule`): the status text to
    apply, an IPv4 address and a prefix length, both `guint32`. */
module Rules {
  import opened Bytes

  datatype Rule = Rule(status: seq<byte>, ip: u32, netmask: u32)

  /** `(ip[0]<<24) + (ip[1]<<16) + (ip[2]<<8) + ip[3]` in unsigned 32-bit
      arithmetic: an octet above 255 carries into the next one up, and what
      passes bit 31 is lost. */
  function Pack(a: u32, b: u32, c: u32, d: u32): u32
  {
    ((a as int * 0x100_0000 + b as int * 0x1_0000 + c as int * 0x100 + d as int) % TWO_32) as u32
  }

  /** Four octets pack without loss: no wrap-around. */
  lemma PackValue(a: u32, b: u32, c: u32, d: u32)
    requires a <= 255 && b <= 255 && c <= 255 && d <= 255
    ensures Pack(a, b, c, d) as int == a as int * 0x100_0000 + b as int * 0x1_0000 + c as int * 0x100 + d as int
  {}

  /** Packing four octets is big-endian and loses nothing: each octet can be
      read back from its byte of the result. */
  lemma PackOctets(a: u32, b: u32, c: u32, d: u32)
    requires a <= 255 && b <= 255 && c <= 255 && d <= 255
    ensures Pack(a, b, c, d) as int / 0x100_0000 == a as int
    ensures (Pack(a, b, c, d) as int / 0x1_0000) % 0x100 == b as int
    ensures (Pack(a, b, c, d) as int / 0x100) % 0x100 == c as int
    ensures Pack(a, b, c, d) as int % 0x100 == d as int
  {
    PackValue(a, b, c, d);
    var n := Pack(a, b, c, d) as int;
    DivideOut(a as int * 0x100 + b as int, 0x1_0000, c as int * 0x100 + d as int);
    DivideOut(a as int * 0x1_0000 + b as int * 0x100 + c as int, 0x100, d as int);
    DivideOut(a as int, 0x100, b as int);
    DivideOut(a as int * 0x100 + b as int, 0x100, c as int);
  }

  lemma DivideOut(q: int, m: int, r: int)
    requires m > 0 && 0 <= r < m
    ensures (q * m + r) / m == q && (q * m + r) % m == r
  {
    var x := q * m + r;
    var q', r' := x / m, x % m;
    assert (q - q') * m == r' - r;
    if q' < q {
      MulAtLeast(q - q', m);
    } else if q' > q {
      MulAtLeast(q' - q, m);
    }
  }

  lemma {:induction false} MulAtLeast(k: int, m: int)
    requires k >= 1 && m > 0
    ensures k * m >= m
    decreases k
  {
    if k > 1 {
      MulAtLeast(k - 1, m);
      assert k * m == (k - 1) * m + m;
    }
  }

  lemma PackInjective(a: u32, b: u32, c: u32, d: u32, a': u32, b': u32, c': u32, d': u32)
    requires a <= 255 && b <= 255 && c <= 255 && d <= 255
    requires a' <= 255 && b' <= 255 && c' <= 255 && d' <= 255
    requires Pack(a, b, c, d) == Pack(a', b', c', d')
    ensures a == a' && b == b' && c == c' && d == d'
  {
    PackOctets(a, b, c, d);
    PackOctets(a', b', c', d');
  }

  /** The last octet is not range-checked before packing, so "1.2.3.300"
      packs to the address 1.2.4.44. */
  lemma PackCarriesLastOctet()
    ensures Pack(1, 2, 3, 300) == Pack(1, 2, 4, 44)
  {}

  predicate NetmaskInRange(r: Rule) { r.netmask <= 32 }

  function Pow2(n: nat): (p: nat)
    ensures p >= 1
  {
    if n == 0 then 1 else 2 * Pow2(n - 1)
  }

  /** `((myip ^ rule.ip) & (~0 << (32 - rule.netmask))) == 0`: the address
      agrees with the rule's address on the leading `netmask` bits of their
      32, that is, both have the same quotient by 2^(32 - netmask). The C
      code never evaluates the mask for netmask 0 (where the shift would be
      by 32); a rule with netmask 0 covers every address. */
  predicate Matches(addr: u32, r: Rule)
    requires NetmaskInRange(r)
  {
    r.netmask == 0 || addr as int / Pow2(32 - r.netmask as int) == r.ip as int / Pow2(32 - r.netmask as int)
  }

  /** Prefix length 0 matches every address. */
  lemma MatchesNetmaskZero(addr: u32, r: Rule)
    requires r.netmask == 0
    ensures Matches(addr, r)
  {}

  /** Prefix length 32 matches the rule's own address and no other. */
  lemma MatchesNetmaskFull(addr: u32, r: Rule)
    requires r.netmask == 32
    ensures Matches(addr, r) <==> addr == r.ip
  {
    assert Pow2(0) == 1;
  }
}
