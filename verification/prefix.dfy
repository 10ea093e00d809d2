/** The compact prefix encoding of withdrawn routes, NLRI and the MP_REACH /
    MP_UNREACH attributes (section 4.3 of RFC 4271, section 5 of RFC 4760):
    one octet of prefix length in bits, then the octets that hold those bits.
    Bits past the prefix length are cleared on read (src/p_piranha.c:716-764,
    961-975, 1087-1132). */
module Prefix {
  import opened Bytes
  import opened Tools

  datatype Prefix4 = Prefix4(plen: uint8, addr: uint32)
  datatype Prefix6 = Prefix6(plen: uint8, addr: Octets16)

  /** A decoded item and the offset just past it. */
  datatype Decoded<T> = Decoded(value: T, next: nat)

  /** Items decoded in order; `complete` is false when decoding stopped at a
      malformed item, in which case `items` holds those before it. */
  datatype ListResult<T> = ListResult(items: seq<T>, complete: bool)

  // ---------------------------------------------------------------- IPv4

  /** Octets of an IPv4 prefix after its length octet, counted as the C
      does with four tests `plen > 24`, `> 16`, `> 8`, `> 0`. */
  function Octets4(plen: uint8): (n: nat)
    ensures plen <= 32 ==> n == (plen + 7) / 8
    ensures plen > 32 ==> n == 4
  {
    (if plen > 24 then 1 else 0) + (if plen > 16 then 1 else 0)
    + (if plen > 8 then 1 else 0) + (if plen > 0 then 1 else 0)
  }

  /** The given octets left-justified in a 32-bit word. */
  function Raw4(o: bytes): uint32
    requires |o| <= 4
  {
    Pow256Values();
    MulLe(FromBe(o), Pow256(|o|) - 1, Pow256(4 - |o|));
    Pow256Add(|o|, 4 - |o|);
    FromBe(o) * Pow256(4 - |o|)
  }

  /** `prefix &= ~((1 << (32 - plen)) - 1)`, and 0 for a zero length. */
  function Mask4(x: uint32, plen: uint8): (r: uint32)
    requires plen <= 32
  {
    if plen == 0 then 0
    else ClearLowSpec(x, 32 - plen); ClearLow(x, 32 - plen)
  }

  /** The mask clears exactly the host bits: the low `32 - plen` bits are
      zero and the network bits are those of the address. */
  lemma Mask4Clears(x: uint32, plen: uint8)
    requires plen <= 32
    ensures Mask4(x, plen) % Pow2(32 - plen) == 0
    ensures Mask4(x, plen) / Pow2(32 - plen) == x / Pow2(32 - plen)
  {
    ClearLowSpec(x, 32 - plen);
    if plen == 0 {
      Pow2Values();
      DivModUnique(x, Pow2(32), 0, x);
    }
  }

  /** One IPv4 entry at b[i]; it must end by `end` and inside b. A length
      above 32 is refused: the C would shift by a negative amount. */
  function DecodePrefix4(b: bytes, i: nat, end: nat): (r: Option<Decoded<Prefix4>>)
    requires i < end
    ensures r.Some? <==> (i < |b| && b[i] <= 32 && i + 1 + Octets4(b[i]) <= end
                          && i + 1 + Octets4(b[i]) <= |b|)
    ensures r.Some? ==> r.value.next == i + 1 + Octets4(b[i]) && r.value.value.plen == b[i]
  {
    if i >= |b| then None
    else
      var plen := b[i];
      var n := Octets4(plen);
      if plen > 32 || i + 1 + n > end || i + 1 + n > |b| then None
      else Some(Decoded(Prefix4(plen, Mask4(Raw4(b[i + 1..i + 1 + n]), plen)), i + 1 + n))
  }

  /** The encoding of an IPv4 prefix: its length, then the octets the
      length covers. */
  function EncodePrefix4(p: Prefix4): (r: bytes)
    requires p.plen <= 32
    ensures |r| == 1 + Octets4(p.plen) && r[0] == p.plen
  {
    [p.plen] + Be32(p.addr)[..Octets4(p.plen)]
  }

  /** Decoding an encoded prefix yields the prefix with its host bits
      cleared, and consumes exactly the encoding. */
  lemma Prefix4RoundTrip(p: Prefix4, pre: bytes, rest: bytes)
    requires p.plen <= 32
    ensures var b := pre + EncodePrefix4(p) + rest;
      var e := |pre| + |EncodePrefix4(p)|;
      DecodePrefix4(b, |pre|, e) == Some(Decoded(Prefix4(p.plen, Mask4(p.addr, p.plen)), e))
  {
    var e := EncodePrefix4(p);
    var b := pre + e + rest;
    assert b[|pre|..|pre| + |e|] == e;
    EntryAt4(b, |pre|, |pre| + |e|, p);
  }

  /** An encoded entry found at b[i] decodes to the prefix with its host
      bits cleared, whatever follows it in the section. */
  lemma EntryAt4(b: bytes, i: nat, end: nat, p: Prefix4)
    requires p.plen <= 32
    requires i + |EncodePrefix4(p)| <= end <= |b| && b[i..i + |EncodePrefix4(p)|] == EncodePrefix4(p)
    ensures DecodePrefix4(b, i, end)
      == Some(Decoded(Prefix4(p.plen, Mask4(p.addr, p.plen)), i + |EncodePrefix4(p)|))
  {
    var e := EncodePrefix4(p);
    var n := Octets4(p.plen);
    var a := Be32(p.addr);
    assert b[i] == e[0];
    assert b[i + 1..i + 1 + n] == e[1..] == a[..n];
    Raw4OfPrefix(a, n, p.plen);
    U32IsFromBe(a);
  }

  /** Keeping the first n octets of a word and clearing the host bits gives
      the word with its host bits cleared, when the n octets cover the
      prefix. */
  lemma Raw4OfPrefix(a: bytes, n: nat, plen: uint8)
    requires |a| == 4 && n <= 4 && plen <= 32 && n == Octets4(plen)
    ensures FromBe(a) < 0x1_0000_0000
    ensures Mask4(Raw4(a[..n]), plen) == Mask4(FromBe(a), plen)
  {
    Pow256Values();
    SplitWord(a, n);
    if plen > 0 {
      DropTail(FromBe(a[..n]), FromBe(a[n..]), 8 * (4 - n), 32 - plen);
    }
  }

  /** A byte string is its first n octets shifted up, plus the rest. */
  lemma SplitAt(a: bytes, n: nat)
    requires n <= |a|
    ensures FromBe(a) == FromBe(a[..n]) * Pow2(8 * (|a| - n)) + FromBe(a[n..])
    ensures FromBe(a[n..]) < Pow2(8 * (|a| - n))
  {
    assert a == a[..n] + a[n..];
    FromBeAppend(a[..n], a[n..]);
    Pow256IsPow2(|a| - n);
  }

  lemma SplitWord(a: bytes, n: nat)
    requires |a| == 4 && n <= 4
    ensures FromBe(a) == FromBe(a[..n]) * Pow2(8 * (4 - n)) + FromBe(a[n..])
    ensures Raw4(a[..n]) == FromBe(a[..n]) * Pow2(8 * (4 - n))
    ensures FromBe(a[n..]) < Pow2(8 * (4 - n))
  {
    SplitAt(a, n);
    Pow256IsPow2(4 - n);
  }

  /** Clearing at least m low bits of hi * 2^m + lo forgets lo. */
  lemma DropTail(hi: nat, lo: nat, m: nat, k: nat)
    requires lo < Pow2(m) && m <= k
    ensures ClearLow(hi * Pow2(m), k) == ClearLow(hi * Pow2(m) + lo, k)
  {
    ClearLowShift(hi, lo, 0, m);
    assert ClearLow(hi, 0) == hi;
    ClearLowTwice(hi * Pow2(m) + lo, m, k);
  }

  /** A prefix whose host bits are clear survives the round trip intact. */
  lemma Prefix4RoundTripCanonical(p: Prefix4, rest: bytes)
    requires p.plen <= 32 && Mask4(p.addr, p.plen) == p.addr
    ensures DecodePrefix4(EncodePrefix4(p) + rest, 0, |EncodePrefix4(p)|)
      == Some(Decoded(p, |EncodePrefix4(p)|))
  {
    Prefix4RoundTrip(p, [], rest);
    assert [] + EncodePrefix4(p) + rest == EncodePrefix4(p) + rest;
  }

  /** IPv4 entries from b[i] up to exactly `end`: the withdrawn-routes
      section (which must not be overrun: the C's `wlen` would wrap) and the
      trailing NLRI. */
  function Prefixes4(b: bytes, i: nat, end: nat): (r: ListResult<Prefix4>)
    requires i <= end
    decreases end - i
  {
    if i == end then ListResult([], true)
    else
      match DecodePrefix4(b, i, end)
      case None => ListResult([], false)
      case Some(d) =>
        var rest := Prefixes4(b, d.next, end);
        ListResult([d.value] + rest.items, rest.complete)
  }

  function EncodePrefixes4(ps: seq<Prefix4>): (r: bytes)
    requires forall k :: 0 <= k < |ps| ==> ps[k].plen <= 32
  {
    if ps == [] then [] else EncodePrefix4(ps[0]) + EncodePrefixes4(ps[1..])
  }

  function Canonical4(ps: seq<Prefix4>): (r: seq<Prefix4>)
    requires forall k :: 0 <= k < |ps| ==> ps[k].plen <= 32
    ensures |r| == |ps|
    ensures forall k :: 0 <= k < |ps| ==> r[k] == Prefix4(ps[k].plen, Mask4(ps[k].addr, ps[k].plen))
  {
    if ps == [] then [] else [Prefix4(ps[0].plen, Mask4(ps[0].addr, ps[0].plen))] + Canonical4(ps[1..])
  }

  /** A run of encoded prefixes decodes completely to the same prefixes with
      host bits cleared. */
  lemma {:induction false} Prefixes4RoundTrip(ps: seq<Prefix4>, pre: bytes, rest: bytes)
    requires forall k :: 0 <= k < |ps| ==> ps[k].plen <= 32
    ensures var b := pre + EncodePrefixes4(ps) + rest;
      Prefixes4(b, |pre|, |pre| + |EncodePrefixes4(ps)|) == ListResult(Canonical4(ps), true)
  {
    var e := EncodePrefixes4(ps);
    var b := pre + e + rest;
    assert b[|pre|..|pre| + |e|] == e;
    Prefixes4Run(b, |pre|, |pre| + |e|, ps);
  }

  /** The same, for a run found anywhere in a message. */
  lemma {:induction false} Prefixes4Run(b: bytes, i: nat, end: nat, ps: seq<Prefix4>)
    requires forall k :: 0 <= k < |ps| ==> ps[k].plen <= 32
    requires i + |EncodePrefixes4(ps)| == end <= |b| && b[i..end] == EncodePrefixes4(ps)
    ensures Prefixes4(b, i, end) == ListResult(Canonical4(ps), true)
    decreases |ps|
  {
    if ps == [] {
      assert EncodePrefixes4(ps) == [];
    } else {
      var e0, tail := EncodePrefix4(ps[0]), EncodePrefixes4(ps[1..]);
      var j := i + |e0|;
      assert b[i..j] == e0 && b[j..end] == tail by {
        assert EncodePrefixes4(ps) == e0 + tail;
        assert b[i..j] == b[i..end][..|e0|];
        assert b[j..end] == b[i..end][|e0|..];
      }
      var p := Prefix4(ps[0].plen, Mask4(ps[0].addr, ps[0].plen));
      assert DecodePrefix4(b, i, end) == Some(Decoded(p, j)) by {
        EntryAt4(b, i, end, ps[0]);
      }
      assert Prefixes4(b, j, end) == ListResult(Canonical4(ps[1..]), true) by {
        Prefixes4Run(b, j, end, ps[1..]);
      }
      Prefixes4Step(b, i, end, p, j, Canonical4(ps[1..]));
      Canonical4Cons(ps);
    }
  }

  lemma Prefixes4Step(b: bytes, i: nat, end: nat, p: Prefix4, j: nat, items: seq<Prefix4>)
    requires i < end && j <= end && DecodePrefix4(b, i, end) == Some(Decoded(p, j))
    requires Prefixes4(b, j, end) == ListResult(items, true)
    ensures Prefixes4(b, i, end) == ListResult([p] + items, true)
  {
  }

  lemma Canonical4Cons(ps: seq<Prefix4>)
    requires forall k :: 0 <= k < |ps| ==> ps[k].plen <= 32
    requires ps != []
    ensures Canonical4(ps) == [Prefix4(ps[0].plen, Mask4(ps[0].addr, ps[0].plen))] + Canonical4(ps[1..])
  {
  }

  // ---------------------------------------------------------------- IPv6

  /** `plen % 8 ? plen / 8 + 1 : plen / 8` */
  function Octets6(plen: uint8): (n: nat)
    ensures n == (plen + 7) / 8
    ensures plen <= 8 * n < plen + 8
    ensures plen <= 128 ==> n <= 16
  {
    if plen % 8 != 0 then plen / 8 + 1 else plen / 8
  }

  /** The C's treatment of the copied octets (`prefix6[blen-1] &= ...`):
      the last one keeps only its leading `plen % 8` bits. */
  function MaskCovered(c: bytes, plen: uint8): (r: bytes)
    requires plen <= 128 && |c| == Octets6(plen)
    ensures |r| == |c|
  {
    if plen % 8 != 0 then
      var q := |c| - 1;
      ClearLowSpec(c[q], 8 - plen % 8);
      c[q := ClearLow(c[q], 8 - plen % 8)]
    else c
  }

  /** An octet of which only the leading `keep` bits belong to the prefix. */
  function KeepBits(x: uint8, keep: int): uint8
  {
    if keep >= 8 then x
    else if keep <= 0 then 0
    else
      ClearLowSpec(x, 8 - keep);
      ClearLow(x, 8 - keep)
  }

  /** The reference meaning of a masked IPv6 prefix, octet by octet: the
      octets wholly inside the prefix are kept, those wholly past it are
      zero, and the octet the prefix ends in keeps its leading bits. */
  function Canon6(o: Octets16, plen: uint8): Octets16
    requires plen <= 128
  {
    seq(16, j requires 0 <= j < 16 => KeepBits(o[j], plen - 8 * j))
  }

  /** One IPv6 entry at b[i], ending by `end` and inside b: the covered
      octets are copied into a zeroed 16-octet buffer and the last one is
      masked. A length above 128 is refused: the C would copy past its
      16-octet buffer. */
  function DecodePrefix6(b: bytes, i: nat, end: nat): (r: Option<Decoded<Prefix6>>)
    requires i < end
    ensures r.Some? <==> (i < |b| && b[i] <= 128 && i + 1 + Octets6(b[i]) <= end
                          && i + 1 + Octets6(b[i]) <= |b|)
    ensures r.Some? ==> r.value.next == i + 1 + Octets6(b[i]) && r.value.value.plen == b[i]
  {
    if i >= |b| then None
    else
      var plen := b[i];
      var n := Octets6(plen);
      if plen > 128 || i + 1 + n > end || i + 1 + n > |b| then None
      else
        var addr := MaskCovered(b[i + 1..i + 1 + n], plen) + Zeros(16 - n);
        Some(Decoded(Prefix6(plen, addr), i + 1 + n))
  }

  /** The address read is the canonical form of the covered octets, padded
      with zeros. */
  lemma DecodePrefix6Canon(b: bytes, i: nat, end: nat)
    requires i < end && DecodePrefix6(b, i, end).Some?
    ensures var n := Octets6(b[i]);
      DecodePrefix6(b, i, end).value.value.addr == Canon6(b[i + 1..i + 1 + n] + Zeros(16 - n), b[i])
  {
    MaskCoveredIsCanon(b[i + 1..i + 1 + Octets6(b[i])], b[i]);
  }

  /** Masking the last covered octet of a zero-padded copy gives the
      canonical form. */
  lemma MaskCoveredIsCanon(c: bytes, plen: uint8)
    requires plen <= 128 && |c| == Octets6(plen)
    ensures MaskCovered(c, plen) + Zeros(16 - |c|) == Canon6(c + Zeros(16 - |c|), plen)
  {
    var n := |c|;
    var m, o := MaskCovered(c, plen) + Zeros(16 - n), c + Zeros(16 - n);
    var r := Canon6(o, plen);
    forall j | 0 <= j < 16
      ensures m[j] == r[j]
    {
      if j < n {
        assert o[j] == c[j];
        if j == n - 1 && plen % 8 != 0 {
          assert plen - 8 * j == plen % 8;
        }
      }
    }
  }

  function EncodePrefix6(p: Prefix6): (r: bytes)
    requires p.plen <= 128
    ensures |r| == 1 + Octets6(p.plen) && r[0] == p.plen
  {
    [p.plen] + p.addr[..Octets6(p.plen)]
  }

  /** Decoding an encoded IPv6 prefix yields its canonical form and consumes
      exactly the encoding. */
  lemma Prefix6RoundTrip(p: Prefix6, pre: bytes, rest: bytes)
    requires p.plen <= 128
    ensures var b := pre + EncodePrefix6(p) + rest;
      var e := |pre| + |EncodePrefix6(p)|;
      DecodePrefix6(b, |pre|, e) == Some(Decoded(Prefix6(p.plen, Canon6(p.addr, p.plen)), e))
  {
    var e := EncodePrefix6(p);
    var b := pre + e + rest;
    assert b[|pre|..|pre| + |e|] == e;
    EntryAt6(b, |pre|, |pre| + |e|, p);
  }

  /** Only the octets a prefix covers matter to its canonical form. */
  lemma Canon6OnlyCoveredOctets(o: Octets16, plen: uint8)
    requires plen <= 128
    ensures Canon6(o[..Octets6(plen)] + Zeros(16 - Octets6(plen)), plen) == Canon6(o, plen)
  {
    var n := Octets6(plen);
    var z := o[..n] + Zeros(16 - n);
    forall j | 0 <= j < 16
      ensures Canon6(z, plen)[j] == Canon6(o, plen)[j]
    {
      if j < n {
        assert z[j] == o[j];
      }
    }
  }

  /** Canonicalising twice is canonicalising once. */
  lemma Canon6Idempotent(o: Octets16, plen: uint8)
    requires plen <= 128
    ensures Canon6(Canon6(o, plen), plen) == Canon6(o, plen)
  {
    var r := Canon6(o, plen);
    forall j | 0 <= j < 16
      ensures Canon6(r, plen)[j] == r[j]
    {
      var keep := plen - 8 * j;
      if 0 < keep < 8 {
        ClearLowTwice(o[j], 8 - keep, 8 - keep);
      }
    }
  }

  /** IPv6 entries from b[i] while i is below `end`, as in the MP_REACH and
      MP_UNREACH loops `while (i < codelen)`. */
  function Prefixes6(b: bytes, i: nat, end: nat): (r: ListResult<Prefix6>)
    decreases end - i
  {
    if i >= end then ListResult([], true)
    else
      match DecodePrefix6(b, i, end)
      case None => ListResult([], false)
      case Some(d) =>
        var rest := Prefixes6(b, d.next, end);
        ListResult([d.value] + rest.items, rest.complete)
  }

  function EncodePrefixes6(ps: seq<Prefix6>): bytes
    requires forall k :: 0 <= k < |ps| ==> ps[k].plen <= 128
  {
    if ps == [] then [] else EncodePrefix6(ps[0]) + EncodePrefixes6(ps[1..])
  }

  function Canonical6(ps: seq<Prefix6>): (r: seq<Prefix6>)
    requires forall k :: 0 <= k < |ps| ==> ps[k].plen <= 128
    ensures |r| == |ps|
    ensures forall k :: 0 <= k < |ps| ==> r[k] == Prefix6(ps[k].plen, Canon6(ps[k].addr, ps[k].plen))
  {
    if ps == [] then [] else [Prefix6(ps[0].plen, Canon6(ps[0].addr, ps[0].plen))] + Canonical6(ps[1..])
  }

  /** A run of encoded IPv6 prefixes decodes completely to their canonical
      forms. */
  lemma {:induction false} Prefixes6RoundTrip(ps: seq<Prefix6>, pre: bytes, rest: bytes)
    requires forall k :: 0 <= k < |ps| ==> ps[k].plen <= 128
    ensures var b := pre + EncodePrefixes6(ps) + rest;
      Prefixes6(b, |pre|, |pre| + |EncodePrefixes6(ps)|) == ListResult(Canonical6(ps), true)
  {
    var e := EncodePrefixes6(ps);
    var b := pre + e + rest;
    assert b[|pre|..|pre| + |e|] == e;
    Prefixes6Run(b, |pre|, |pre| + |e|, ps);
  }

  /** The same, for a run found anywhere in a message. */
  lemma {:induction false} Prefixes6Run(b: bytes, i: nat, end: nat, ps: seq<Prefix6>)
    requires forall k :: 0 <= k < |ps| ==> ps[k].plen <= 128
    requires i + |EncodePrefixes6(ps)| == end <= |b| && b[i..end] == EncodePrefixes6(ps)
    ensures Prefixes6(b, i, end) == ListResult(Canonical6(ps), true)
    decreases |ps|
  {
    if ps == [] {
      assert EncodePrefixes6(ps) == [];
    } else {
      var e0, tail := EncodePrefix6(ps[0]), EncodePrefixes6(ps[1..]);
      var j := i + |e0|;
      assert b[i..j] == e0 && b[j..end] == tail by {
        assert EncodePrefixes6(ps) == e0 + tail;
        assert b[i..j] == b[i..end][..|e0|];
        assert b[j..end] == b[i..end][|e0|..];
      }
      var p := Prefix6(ps[0].plen, Canon6(ps[0].addr, ps[0].plen));
      assert DecodePrefix6(b, i, end) == Some(Decoded(p, j)) by {
        EntryAt6(b, i, end, ps[0]);
      }
      assert Prefixes6(b, j, end) == ListResult(Canonical6(ps[1..]), true) by {
        Prefixes6Run(b, j, end, ps[1..]);
      }
      Prefixes6Step(b, i, end, p, j, Canonical6(ps[1..]));
      Canonical6Cons(ps);
    }
  }

  /** An encoded entry found at b[i] decodes to its canonical form, whatever
      follows it in the section. */
  lemma EntryAt6(b: bytes, i: nat, end: nat, p: Prefix6)
    requires p.plen <= 128
    requires i + |EncodePrefix6(p)| <= end <= |b| && b[i..i + |EncodePrefix6(p)|] == EncodePrefix6(p)
    ensures DecodePrefix6(b, i, end)
      == Some(Decoded(Prefix6(p.plen, Canon6(p.addr, p.plen)), i + |EncodePrefix6(p)|))
  {
    var e := EncodePrefix6(p);
    var n := Octets6(p.plen);
    assert b[i] == e[0];
    assert b[i + 1..i + 1 + n] == e[1..] == p.addr[..n];
    DecodePrefix6Canon(b, i, end);
    Canon6OnlyCoveredOctets(p.addr, p.plen);
  }

  lemma Prefixes6Step(b: bytes, i: nat, end: nat, p: Prefix6, j: nat, items: seq<Prefix6>)
    requires i < end && DecodePrefix6(b, i, end) == Some(Decoded(p, j))
    requires Prefixes6(b, j, end) == ListResult(items, true)
    ensures Prefixes6(b, i, end) == ListResult([p] + items, true)
  {
  }

  lemma Canonical6Cons(ps: seq<Prefix6>)
    requires forall k :: 0 <= k < |ps| ==> ps[k].plen <= 128
    requires ps != []
    ensures Canonical6(ps) == [Prefix6(ps[0].plen, Canon6(ps[0].addr, ps[0].plen))] + Canonical6(ps[1..])
  {
  }

  // ------------------------------------------------------ bit arithmetic

  lemma Pow256Add(a: nat, b: nat)
    ensures Pow256(a + b) == Pow256(a) * Pow256(b)
  {
    Pow256IsPow2(a);
    Pow256IsPow2(b);
    Pow256IsPow2(a + b);
    Pow2Add(8 * a, 8 * b);
  }

  lemma Pow2Values()
    ensures Pow2(32) == 0x1_0000_0000
  {
    Pow256IsPow2(4);
    Pow256Values();
  }

  /** Clearing k + m low bits of A * 2^m + B (with B below 2^m) clears k low
      bits of A and drops B. */
  lemma ClearLowShift(a: nat, b: nat, k: nat, m: nat)
    requires b < Pow2(m)
    ensures ClearLow(a * Pow2(m) + b, k + m) == ClearLow(a, k) * Pow2(m)
  {
    Pow2Add(k, m);
    ShiftCore(a, b, Pow2(k), Pow2(m));
  }

  lemma ShiftCore(a: nat, b: nat, pk: nat, pm: nat)
    requires pk > 0 && pm > 0 && b < pm
    ensures (a * pm + b) - (a * pm + b) % (pk * pm) == (a - a % pk) * pm
  {
    var qa, ra := a / pk, a % pk;
    assert a == qa * pk + ra;
    MulLe(ra, pk - 1, pm);
    Regroup(qa, pk, ra, pm, b);
    DivModUnique(a * pm + b, pk * pm, qa, ra * pm + b);
    assert (a - ra) * pm == (qa * pk) * pm;
  }

  lemma Regroup(q: int, p: int, r: int, m: int, b: int)
    ensures (q * p + r) * m + b == q * (p * m) + (r * m + b)
    ensures (q * p) * m == q * (p * m)
    ensures (p - 1) * m == p * m - m
  {
  }
}
