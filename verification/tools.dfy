/** Address predicates used to key the peer table (src/p_tools.c).
    An IPv4 address is the 32-bit `s_addr` word; an IPv6 address is sixteen
    octets compared as four 32-bit words. A peer slot stores its address in a
    C union, so the IPv4 view of a slot is its first four octets. */
module Tools {
  import opened Bytes

  type Octets16 = b: bytes | |b| == 16 witness seq(16, _ => 0)

  datatype In4 = In4(sAddr: uint32)
  datatype In6 = In6(octets: Octets16)

  /** The k-th 32-bit word `s6_addr32[k]` of an IPv6 address. Only equality
      of words is ever observed, so the byte order inside a word is
      immaterial. */
  function Word(ip: In6, k: nat): uint32
    requires k < 4
  {
    U32(ip.octets, 4 * k)
  }

  /** `p_tools_ip4zero`: a missing address (a NULL pointer) is not zero. */
  function Ip4Zero(ip: Option<In4>): (r: bool)
    ensures r <==> ip.Some? && ip.value == In4(0)
  {
    ip.Some? && ip.value.sAddr == 0
  }

  /** `p_tools_ip6zero`: every one of the four words is zero. */
  function Ip6Zero(ip: Option<In6>): bool
  {
    ip.Some? && Word(ip.value, 0) == 0 && Word(ip.value, 1) == 0
    && Word(ip.value, 2) == 0 && Word(ip.value, 3) == 0
  }

  /** `p_tools_sameip4` */
  function SameIp4(a: In4, b: In4): (r: bool)
    ensures r <==> a == b
  {
    a.sAddr == b.sAddr
  }

  /** `p_tools_sameip6`: the four words agree. */
  function SameIp6(a: In6, b: In6): bool
  {
    Word(a, 0) == Word(b, 0) && Word(a, 1) == Word(b, 1)
    && Word(a, 2) == Word(b, 2) && Word(a, 3) == Word(b, 3)
  }

  lemma WordsDetermineOctets(a: In6, b: In6)
    requires forall k :: 0 <= k < 4 ==> a.octets[4 * k..4 * k + 4] == b.octets[4 * k..4 * k + 4]
    ensures a == b
  {
    forall i | 0 <= i < 16
      ensures a.octets[i] == b.octets[i]
    {
      var k := i / 4;
      assert a.octets[4 * k..4 * k + 4][i - 4 * k] == a.octets[i];
      assert b.octets[4 * k..4 * k + 4][i - 4 * k] == b.octets[i];
    }
  }

  /** Word-wise comparison is octet equality, so the IPv6 key is exact. */
  lemma SameIp6IsEquality(a: In6, b: In6)
    ensures SameIp6(a, b) <==> a == b
  {
    if SameIp6(a, b) {
      forall k | 0 <= k < 4
        ensures a.octets[4 * k..4 * k + 4] == b.octets[4 * k..4 * k + 4]
      {
        U32Injective(a.octets, 4 * k, b.octets, 4 * k);
      }
      WordsDetermineOctets(a, b);
    }
  }

  /** The IPv6 zero test is "all sixteen octets are zero". */
  lemma Ip6ZeroIsAllZeroOctets(ip: In6)
    ensures Ip6Zero(Some(ip)) <==> ip.octets == Zeros(16)
  {
    var z := In6(Zeros(16));
    forall k | 0 <= k < 4
      ensures Word(z, k) == 0
    {
      assert z.octets[4 * k] == z.octets[4 * k + 1] == z.octets[4 * k + 2] == z.octets[4 * k + 3] == 0;
    }
    if Ip6Zero(Some(ip)) {
      assert SameIp6(ip, z);
      SameIp6IsEquality(ip, z);
    }
  }

  lemma SameIp6Symmetric(a: In6, b: In6)
    ensures SameIp6(a, b) == SameIp6(b, a)
    ensures SameIp6(a, a)
  {
  }

  /** The IPv4 view of a slot's address union: its first four octets. */
  function In4Of(store: Octets16): In4
  {
    In4(U32(store, 0))
  }

  /** The IPv4 key of a slot depends on the `s_addr` octets only: two slots
      whose unions share their first four octets compare equal as IPv4
      addresses, whatever the other twelve octets hold. */
  lemma In4KeyIsFirstFourOctets(s1: Octets16, s2: Octets16)
    ensures SameIp4(In4Of(s1), In4Of(s2)) <==> s1[..4] == s2[..4]
  {
    assert s1[0..4] == s1[..4] && s2[0..4] == s2[..4];
    if SameIp4(In4Of(s1), In4Of(s2)) {
      U32Injective(s1, 0, s2, 0);
    } else if s1[..4] == s2[..4] {
      U32Slice(s1, 0, s2, 0);
    }
  }

  /** Writing an IPv4 address into a slot's union (`memcpy` of four octets)
      keeps the other twelve octets. */
  function StoreIn4(store: Octets16, ip: In4): (r: Octets16)
    ensures In4Of(r) == ip
    ensures r[4..] == store[4..]
  {
    var r := Be32(ip.sAddr) + store[4..];
    assert r[0..4] == Be32(ip.sAddr)[0..4];
    U32Slice(r, 0, Be32(ip.sAddr), 0);
    r
  }
}
