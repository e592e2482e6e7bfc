/**
 IP addresses and prefixes as Go's `net/netip` represents them: a family plus an
 integer of 32 or 128 bits, an IPv6 address possibly carrying a zone.
 */
module Addresses {
  import opened Numbers

  function Pow2(n: nat): (p: nat)
    ensures p > 0
  {
    if n == 0 then 1 else 2 * Pow2(n - 1)
  }

  datatype Addr = V4(bits: nat) | V6(bits: nat, zone: string) {
    function Width(): nat { if V4? then 32 else 128 }
    predicate Valid() { bits < Pow2(Width()) }
    predicate Zoned() { V6? && zone != "" }
  }

  datatype Prefix = Prefix(addr: Addr, len: nat) {
    /** What `netip.ParsePrefix` returns: the length fits, and zones are refused. */
    predicate Valid() { addr.Valid() && len <= addr.Width() && !addr.Zoned() }
  }

  type IpAddr = a: Addr | a.Valid() witness V4(0)
  type IpPrefix = p: Prefix | p.Valid() witness Prefix(V4(0), 0)

  const MAPPED_TAG := 0xffff

  predicate IsMapped(a: Addr) {
    a.V6? && a.bits / 0x1_0000_0000 == MAPPED_TAG
  }

  /** An IPv4-mapped IPv6 address becomes the IPv4 address it wraps. */
  function Unmap(a: IpAddr): (r: IpAddr)
    ensures !IsMapped(r)
  {
    if IsMapped(a) then Pow2Of32(); V4(a.bits % 0x1_0000_0000) else a
  }

  /** The 16 bytes of an address as a number, an IPv4 address in its IPv6-mapped form. */
  function As16(a: Addr): nat { if a.V4? then 0xffff_0000_0000 + a.bits else a.bits }

  /** Two spellings of one address: the same 16 bytes, and outside IPv4 the same zone. */
  predicate SameAddress(a: Addr, b: Addr) {
    As16(a) == As16(b) && (a.V6? && b.V6? && !IsMapped(a) ==> a.zone == b.zone)
  }

  /** Unmapping keeps the address, and unifies all its spellings. */
  lemma UnmapIff(a: IpAddr, b: IpAddr)
    ensures SameAddress(a, Unmap(a)) && (Unmap(a).V4? <==> a.V4? || IsMapped(a))
    ensures Unmap(a) == Unmap(b) <==> SameAddress(a, b)
  {
    Pow2Of32();
    As16Parts(a);
    As16Parts(b);
  }

  lemma As16Parts(a: IpAddr)
    ensures As16(a) / 0x1_0000_0000 == MAPPED_TAG <==> a.V4? || IsMapped(a)
    ensures a.V4? || IsMapped(a) ==> As16(a) == 0xffff_0000_0000 + Unmap(a).bits && Unmap(a).V4?
  {
    Pow2Of32();
  }

  /** Membership as `Prefix.Contains` computes it, by discarding the host bits. */
  predicate Contains(p: IpPrefix, ip: IpAddr) {
    && !ip.Zoned()
    && p.addr.V4? == ip.V4?
    && ip.bits / Pow2(ip.Width() - p.len) == p.addr.bits / Pow2(ip.Width() - p.len)
  }

  /** `Prefix.Masked`: the host bits of the address are cleared. */
  function Masked(p: IpPrefix): (r: IpPrefix)
    ensures r.len == p.len && r.addr.V4? == p.addr.V4?
  {
    var size := Pow2(p.addr.Width() - p.len);
    MaskingShrinks(p.addr.bits, size);
    Prefix(p.addr.(bits := p.addr.bits / size * size), p.len)
  }

  lemma MaskingShrinks(x: nat, size: nat)
    requires size > 0
    ensures 0 <= x / size * size <= x
    ensures (x / size * size) / size == x / size
  {
    assert x == x / size * size + x % size;
    DivisionUnique(x / size * size, size, x / size, 0);
  }

  /** Masking a prefix never changes which addresses it contains. */
  lemma MaskedContainsTheSame(p: IpPrefix, ip: IpAddr)
    ensures Contains(Masked(p), ip) == Contains(p, ip)
  {
    MaskingShrinks(p.addr.bits, Pow2(p.addr.Width() - p.len));
  }

  /** Two prefixes of one length have the same masked form exactly when they are the same network. */
  lemma MaskedIsCanonical(p: IpPrefix, q: IpPrefix)
    requires p.len == q.len
    ensures Masked(p) == Masked(q) <==> Contains(p, q.addr)
  {
    if p.addr.V4? == q.addr.V4? {
      var size := Pow2(p.addr.Width() - p.len);
      MaskingShrinks(p.addr.bits, size);
      MaskingShrinks(q.addr.bits, size);
    }
  }

  // ---- Membership said bit by bit, with no masking and no division of the whole address ----

  function Bit(x: nat, k: nat): nat { x / Pow2(k) % 2 }

  /** The address and the prefix are of one family and agree on the `len` leading bits. */
  ghost predicate SharesLeadingBits(p: IpPrefix, ip: IpAddr) {
    && !ip.Zoned()
    && p.addr.V4? == ip.V4?
    && forall k: nat :: ip.Width() - p.len <= k < ip.Width() ==> Bit(ip.bits, k) == Bit(p.addr.bits, k)
  }

  lemma HalveQuotient(x: nat, k: nat)
    ensures x / Pow2(k) == 2 * (x / Pow2(k + 1)) + Bit(x, k)
  {
    var h, m := DivMod(x, Pow2(k + 1));
    HalveFrom(x, Pow2(k), h, m);
  }

  lemma DivMod(x: nat, d: nat) returns (h: nat, m: nat)
    requires d > 0
    ensures h == x / d && x == h * d + m && m < d
  {
    h, m := x / d, x % d;
  }

  lemma HalveFrom(x: nat, p: nat, h: nat, m: nat)
    requires p > 0 && m < 2 * p && x == h * (2 * p) + m
    ensures x / p == 2 * h + x / p % 2
  {
    var q, r := if m < p then 2 * h else 2 * h + 1, if m < p then m else m - p;
    assert x == q * p + r by { assert (2 * h) * p == h * (2 * p); }
    DivisionUnique(x, p, q, r);
  }

  lemma {:induction false} SameQuotientIffSameBits(x: nat, y: nat, k: nat, width: nat)
    requires k <= width && x < Pow2(width) && y < Pow2(width)
    ensures x / Pow2(k) == y / Pow2(k) <==> forall i: nat :: k <= i < width ==> Bit(x, i) == Bit(y, i)
    decreases width - k
  {
    if k == width {
      DivisionUnique(x, Pow2(k), 0, x);
      DivisionUnique(y, Pow2(k), 0, y);
    } else {
      HalveQuotient(x, k);
      HalveQuotient(y, k);
      SameQuotientIffSameBits(x, y, k + 1, width);
    }
  }

  /** `Contains` is exactly agreement on the leading bits. */
  lemma ContainsIsSharedBits(p: IpPrefix, ip: IpAddr)
    ensures Contains(p, ip) <==> SharesLeadingBits(p, ip)
  {
    if p.addr.V4? == ip.V4? {
      SameQuotientIffSameBits(ip.bits, p.addr.bits, ip.Width() - p.len, ip.Width());
    }
  }

  lemma {:induction false} Pow2Divides(j: nat, k: nat)
    requires j <= k
    ensures Pow2(k) == Pow2(j) * Pow2(k - j)
  {
    if j > 0 { Pow2Divides(j - 1, k - 1); }
  }

  lemma {:induction false} CoarserQuotient(x: nat, y: nat, j: nat, k: nat)
    requires j <= k && x / Pow2(j) == y / Pow2(j)
    ensures x / Pow2(k) == y / Pow2(k)
    decreases k - j
  {
    if j < k {
      HalveQuotient(x, j);
      HalveQuotient(y, j);
      CoarserQuotient(x, y, j + 1, k);
    }
  }

  // ---- Sources are unmapped before they are looked up, prefixes are not ----

  /** `::ffff:0:0`, the first IPv4-mapped address. */
  function MappedBase(): (a: IpAddr)
    ensures IsMapped(a)
  {
    Pow2Of32();
    Pow2Divides(32, 64);
    Pow2Divides(64, 128);
    V6(MAPPED_TAG * 0x1_0000_0000, "")
  }

  /** The prefix, cut to at most 96 bits, holds the base of the mapped range. */
  predicate MeetsMapped(p: IpPrefix) {
    Contains(Prefix(p.addr, if p.len < 96 then p.len else 96), MappedBase())
  }

  lemma MeetsMappedIff(p: IpPrefix)
    ensures MeetsMapped(p) <==> exists ip: IpAddr :: IsMapped(ip) && Contains(p, ip)
  {
    Pow2Of32();
    if MeetsMapped(p) {
      assert IsMapped(MappedBase()) && IsMapped(p.addr) == (p.addr.bits / Pow2(32) == MAPPED_TAG);
      assert Contains(p, if p.len < 96 then MappedBase() else p.addr);
    }
    if ip: IpAddr :| IsMapped(ip) && Contains(p, ip) {
      var k := if p.len < 96 then 128 - p.len else 32;
      CoarserQuotient(ip.bits, p.addr.bits, 128 - p.len, k);
      CoarserQuotient(ip.bits, MappedBase().bits, 32, k);
    }
  }

  /** Unmapping loses no source the prefix contains as written, exactly when the prefix avoids the mapped range. */
  lemma UnmappingLosesNothingIff(p: IpPrefix)
    ensures (forall ip: IpAddr :: Contains(p, ip) ==> Contains(p, Unmap(ip))) <==> !MeetsMapped(p)
  {
    MeetsMappedIff(p);
    if ip: IpAddr :| IsMapped(ip) && Contains(p, ip) {
      assert !Contains(p, Unmap(ip));
    }
  }

  /** A prefix covers no source at all exactly when it was written inside the IPv4-mapped range. */
  lemma CoversNothingIff(p: IpPrefix)
    ensures (forall ip: IpAddr :: !Contains(p, Unmap(ip))) <==> p.len >= 96 && IsMapped(p.addr)
  {
    Pow2Of32();
    if p.len >= 96 && IsMapped(p.addr) {
      forall ip: IpAddr ensures !Contains(p, Unmap(ip)) {
        var src := Unmap(ip);
        if Contains(p, src) {
          CoarserQuotient(src.bits, p.addr.bits, 128 - p.len, 32);
        }
      }
    } else if IsMapped(p.addr) {
      var other := BelowMapped(p);
      assert Unmap(other) == other;
    } else {
      assert Unmap(p.addr) == p.addr && Contains(p, p.addr);
    }
  }

  /** The neighbour one /96 below a mapped address shares every prefix shorter than 96 bits. */
  lemma BelowMapped(p: IpPrefix) returns (ip: IpAddr)
    requires p.len < 96 && IsMapped(p.addr)
    ensures !IsMapped(ip) && Contains(p, ip)
  {
    Pow2Of32();
    var bits := p.addr.bits - Pow2(32);
    DivisionUnique(bits, Pow2(32), MAPPED_TAG - 1, p.addr.bits % Pow2(32));
    HalveQuotient(bits, 32);
    HalveQuotient(p.addr.bits, 32);
    assert bits / Pow2(33) == p.addr.bits / Pow2(33);
    CoarserQuotient(bits, p.addr.bits, 33, 128 - p.len);
    ip := V6(bits, "");
  }

  lemma Pow2Of32()
    ensures Pow2(32) == 0x1_0000_0000
  {
    assert Pow2(8) == 256;
    Pow2Divides(8, 16);
    Pow2Divides(16, 32);
  }
}
