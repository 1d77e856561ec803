/**
 IPv4 prefixes. The bit tests of the program's network types are modelled as it
 performs them, as right shifts of 32-bit addresses, and each is related to the
 set of addresses the prefix denotes.
 */
module Prefix {

  const ADDRESS_SPACE := 0x1_0000_0000

  type Addr = a: int | 0 <= a < ADDRESS_SPACE

  type PrefixLen = b: int | 0 <= b <= 32

  /** A prefix may carry host bits, as the subnet of an interface does. */
  datatype Prefix = Prefix(addr: Addr, bits: PrefixLen)

  function Pow2(k: nat): (r: nat)
    ensures r >= 1
  {
    if k == 0 then 1 else 2 * Pow2(k - 1)
  }

  /** `a >> k`. */
  function Shr(a: nat, k: nat): nat {
    if k == 0 then a else Shr(a / 2, k - 1)
  }

  function HostBits(p: Prefix): nat {
    32 - p.bits
  }

  function Size(p: Prefix): nat {
    Pow2(HostBits(p))
  }

  /** The first address of the network, that is, the address with the host bits cleared. */
  function Base(p: Prefix): nat {
    Shr(p.addr, HostBits(p)) * Size(p)
  }

  /** The set of addresses a prefix denotes. */
  ghost predicate In(a: Addr, p: Prefix) {
    Base(p) <= a < Base(p) + Size(p)
  }

  ghost predicate Subset(p: Prefix, q: Prefix) {
    forall a: Addr :: In(a, p) ==> In(a, q)
  }

  ghost predicate Disjoint(p: Prefix, q: Prefix) {
    forall a: Addr :: !(In(a, p) && In(a, q))
  }

  // ----- the program's own tests -----

  /** `Prefix.Contains` and `IPNet.Contains`: the network bits agree. */
  predicate Contains(p: Prefix, a: Addr) {
    Shr(a, HostBits(p)) == Shr(p.addr, HostBits(p))
  }

  /** `Prefix.Masked`. */
  function Masked(p: Prefix): (r: Prefix)
    ensures r.bits == p.bits
  {
    BaseInRange(p);
    Prefix(Base(p), p.bits)
  }

  predicate IsMasked(p: Prefix) {
    p.addr == Base(p)
  }

  /** `Prefix.Overlaps`: the addresses agree on the shorter of the two lengths. */
  predicate Overlaps(p: Prefix, q: Prefix) {
    var h := 32 - if p.bits <= q.bits then p.bits else q.bits;
    Shr(p.addr, h) == Shr(q.addr, h)
  }

  // ----- shifts -----

  lemma {:induction false} ShrInterval(a: nat, k: nat)
    ensures Shr(a, k) * Pow2(k) <= a < Shr(a, k) * Pow2(k) + Pow2(k)
  {
    if k > 0 {
      ShrInterval(a / 2, k - 1);
      DoubledInterval(a, Shr(a / 2, k - 1), Pow2(k - 1));
    }
  }

  lemma DoubledInterval(a: nat, q: nat, m: nat)
    requires q * m <= a / 2 < q * m + m
    ensures q * (2 * m) <= a < q * (2 * m) + 2 * m
  {
    TwiceProduct(q, m);
  }

  lemma TwiceProduct(q: nat, m: nat)
    ensures q * (2 * m) == 2 * (q * m)
  {
  }

  lemma {:induction false} ShrUnique(a: nat, k: nat, q: nat)
    requires q * Pow2(k) <= a < q * Pow2(k) + Pow2(k)
    ensures Shr(a, k) == q
  {
    ShrInterval(a, k);
    var m, r := Pow2(k), Shr(a, k);
    if r < q {
      MulStep(r, q, m);
    } else if q < r {
      MulStep(q, r, m);
    }
  }

  lemma MulStep(x: nat, y: nat, m: nat)
    requires x < y
    ensures x * m + m <= y * m
  {
    var d := y - x - 1;
    assert y * m == x * m + m + d * m;
  }

  lemma {:induction false} ShrShr(a: nat, i: nat, j: nat)
    ensures Shr(Shr(a, i), j) == Shr(a, i + j)
  {
    if i > 0 {
      ShrShr(a / 2, i - 1, j);
    }
  }

  lemma {:induction false} Pow2Add(i: nat, j: nat)
    ensures Pow2(i + j) == Pow2(i) * Pow2(j)
  {
    if i > 0 {
      Pow2Add(i - 1, j);
      assert 2 * (Pow2(i - 1) * Pow2(j)) == (2 * Pow2(i - 1)) * Pow2(j);
    }
  }

  lemma Pow2At32()
    ensures Pow2(32) == ADDRESS_SPACE
  {
    Pow2Add(16, 16);
    Pow2Add(8, 8);
    assert Pow2(4) == 16;
    Pow2Add(4, 4);
  }

  // ----- denotation -----

  lemma BaseInRange(p: Prefix)
    ensures 0 <= Base(p) <= p.addr
    ensures Base(p) + Size(p) <= ADDRESS_SPACE
  {
    var h := HostBits(p);
    ShrInterval(p.addr, h);
    ShrInterval(p.addr, 32);
    Pow2At32();
    Pow2Add(h, p.bits);
    // The network number fits in the prefix length.
    ShrShr(p.addr, h, p.bits);
    ShrInterval(Shr(p.addr, h), p.bits);
    var q := Shr(p.addr, h);
    assert Shr(p.addr, 32) == 0 by { ShrUnique(p.addr, 32, 0); }
    assert q < Pow2(p.bits);
    MulStep(q, Pow2(p.bits), Pow2(h));
    assert Pow2(p.bits) * Pow2(h) == Pow2(h) * Pow2(p.bits);
  }

  /** The shift test decides membership, host bits in the prefix or not. */
  lemma ContainsIsMembership(p: Prefix, a: Addr)
    ensures Contains(p, a) <==> In(a, p)
  {
    var h := HostBits(p);
    ShrInterval(a, h);
    if In(a, p) {
      ShrUnique(a, h, Shr(p.addr, h));
    }
  }

  lemma MaskedDenotesTheSame(p: Prefix)
    ensures IsMasked(Masked(p)) && Base(Masked(p)) == Base(p)
    ensures forall a: Addr :: In(a, Masked(p)) <==> In(a, p)
  {
    BaseInRange(p);
    ShrUnique(Base(p), HostBits(p), Shr(p.addr, HostBits(p)));
  }

  lemma Nonempty(p: Prefix)
    ensures In(p.addr, p)
    ensures 0 <= Base(p) < ADDRESS_SPACE && In(Base(p), p)
  {
    ShrInterval(p.addr, HostBits(p));
    BaseInRange(p);
  }

  /** Two prefixes nest or are disjoint: there is no partial overlap. */
  lemma NestedOrDisjoint(p: Prefix, q: Prefix)
    requires q.bits <= p.bits
    ensures Contains(q, p.addr) ==> Subset(p, q)
    ensures !Contains(q, p.addr) ==> Disjoint(p, q)
  {
    var hp, hq := HostBits(p), HostBits(q);
    forall a: Addr | In(a, p)
      ensures Contains(q, a) <==> Contains(q, p.addr)
    {
      ContainsIsMembership(p, a);
      ShrShr(a, hp, hq - hp);
      ShrShr(p.addr, hp, hq - hp);
    }
    forall a: Addr
      ensures Contains(q, a) <==> In(a, q)
    {
      ContainsIsMembership(q, a);
    }
  }

  lemma SubsetNeedsLength(p: Prefix, q: Prefix)
    requires Subset(p, q)
    ensures q.bits <= p.bits
  {
    Nonempty(p);
    BaseInRange(p);
    var last := Base(p) + Size(p) - 1;
    assert In(last, p) && In(last, q) && In(Base(p), q);
    if p.bits < q.bits {
      Pow2Add(HostBits(p) - HostBits(q), HostBits(q));
      Pow2AtLeastTwo(HostBits(p) - HostBits(q));
      MulStep(1, Pow2(HostBits(p) - HostBits(q)), Pow2(HostBits(q)));
    }
  }

  lemma {:induction false} Pow2AtLeastTwo(k: nat)
    requires k > 0
    ensures Pow2(k) >= 2
  {
    assert Pow2(k - 1) >= 1;
  }

  /** `Overlaps` decides whether the two address sets intersect. */
  lemma OverlapsIsIntersection(p: Prefix, q: Prefix)
    ensures Overlaps(p, q) <==> !Disjoint(p, q)
    ensures Overlaps(p, q) <==> exists a: Addr :: In(a, p) && In(a, q)
  {
    Nonempty(p);
    Nonempty(q);
    if q.bits <= p.bits {
      NestedOrDisjoint(p, q);
    } else {
      NestedOrDisjoint(q, p);
    }
  }

  /** Containment with the length test decides the subset relation exactly. */
  lemma WithinIsSubset(p: Prefix, q: Prefix)
    ensures Contains(q, p.addr) && q.bits <= p.bits <==> Subset(p, q)
  {
    Nonempty(p);
    ContainsIsMembership(q, p.addr);
    if q.bits <= p.bits {
      NestedOrDisjoint(p, q);
    }
    if Subset(p, q) {
      SubsetNeedsLength(p, q);
    }
  }
}
