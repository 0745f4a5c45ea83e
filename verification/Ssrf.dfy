/**
 Which addresses a fetch may contact (src/ssrf.rs): the IPv4 and IPv6 classifiers. An address text that
 parses as neither is refused, so an address is `None` or a parsed literal here.
 */
module Ssrf {
  import opened Wrappers
  import opened Bits
  import opened Nat64

  datatype IpAddr = V4(v4: Ipv4) | V6(segments: Segments)

  function IsPublicIpv4(addr: Ipv4, allowLoopback: bool): bool {
    var Ipv4(a, b, c, _) := addr;
    if a == 0 then false
    else if a == 127 then allowLoopback
    else if a == 10 then false
    else if a == 172 && 16 <= b <= 31 then false
    else if a == 192 && b == 168 then false
    else if a == 169 && b == 254 then false
    else if a == 100 && 64 <= b <= 127 then false
    else if 224 <= a <= 239 then false
    else if a >= 240 then false
    else if a == 192 && b == 0 && c == 2 then false
    else if a == 198 && (b == 18 || b == 19) then false
    else if a == 198 && b == 51 && c == 100 then false
    else if a == 203 && b == 0 && c == 113 then false
    else true
  }

  /** The IPv4 address in two neighbouring segments. */
  function V4At(s: Segments, i: nat): Ipv4
    requires i < 7
  {
    Ipv4(HighOctet(s[i]), LowOctet(s[i]), HighOctet(s[i + 1]), LowOctet(s[i + 1]))
  }

  predicate IsLocalhost(s: Segments) {
    s == [0, 0, 0, 0, 0, 0, 0, 1]
  }

  predicate IsUnspecified(s: Segments) {
    s == [0, 0, 0, 0, 0, 0, 0, 0]
  }

  function ToIpv4Mapped(s: Segments): Option<Ipv4> {
    if s[0] == 0 && s[1] == 0 && s[2] == 0 && s[3] == 0 && s[4] == 0 && s[5] == 0xffff then Some(V4At(s, 6)) else None
  }

  predicate IsV4Compatible(s: Segments) {
    s[0] == 0 && s[1] == 0 && s[2] == 0 && s[3] == 0 && s[4] == 0 && s[5] == 0
  }

  function WellKnownEmbeddedV4(s: Segments): Option<Ipv4> {
    if s[0] == 0x0064 && s[1] == 0xff9b && s[2] == 0 && s[3] == 0 && s[4] == 0 && s[5] == 0 then Some(V4At(s, 6))
        else None
  }

  predicate IsLinkLocal(s: Segments) {
    And(s[0], 0xffc0) == 0xfe80
  }

  predicate IsUniqueLocal(s: Segments) {
    And(s[0], 0xfe00) == 0xfc00
  }

  predicate IsMulticast(s: Segments) {
    And(s[0], 0xff00) == 0xff00
  }

  function IsPublicIpv6(s: Segments, allowLoopback: bool, policy: Policy): bool {
    if IsLocalhost(s) then allowLoopback
    else if IsUnspecified(s) then false
    else if ToIpv4Mapped(s).Some? then IsPublicIpv4(ToIpv4Mapped(s).value, allowLoopback)
    else if IsV4Compatible(s) then IsPublicIpv4(V4At(s, 6), allowLoopback)
    else if IsLinkLocal(s) then false
    else if IsUniqueLocal(s) then false
    else if IsMulticast(s) then false
    else if s[0] == 0x2002 then IsPublicIpv4(V4At(s, 1), allowLoopback)
    else if WellKnownEmbeddedV4(s).Some? then IsPublicIpv4(WellKnownEmbeddedV4(s).value, allowLoopback)
    else
      match PolicyEmbeddedV4(policy, s)
      case Some(v4) => if !IsPublicIpv4(v4, allowLoopback) then false else true
      case None => true
  }

  function IsPublicAddress(address: Option<IpAddr>, allowLoopback: bool, policy: Policy): bool {
    match address
    case None => false
    case Some(V4(v4)) => IsPublicIpv4(v4, allowLoopback)
    case Some(V6(s)) => IsPublicIpv6(s, allowLoopback, policy)
  }

  function IsLoopbackAddress(address: Option<IpAddr>): bool {
    match address
    case None => false
    case Some(V4(v4)) => v4.a == 127
    case Some(V6(s)) => IsLocalhost(s) || (ToIpv4Mapped(s).Some? && ToIpv4Mapped(s).value.a == 127)
  }

  // ---------------------------------------------------------------------------------------------
  // IPv4: the table of ranges that are not public
  // ---------------------------------------------------------------------------------------------

  datatype Range = Range(first: Ipv4, last: Ipv4)

  predicate InRange(v4: Ipv4, r: Range) {
    V4Value(r.first) <= V4Value(v4) <= V4Value(r.last)
  }

  const LOOPBACK_V4: Range := Range(Ipv4(127, 0, 0, 0), Ipv4(127, 255, 255, 255))

  /** The special-purpose ranges, one by one: none of them is reachable as a public host. */
  predicate IsSpecialPurpose(v4: Ipv4) {
    || InRange(v4, Range(Ipv4(0, 0, 0, 0), Ipv4(0, 255, 255, 255)))
    || InRange(v4, Range(Ipv4(10, 0, 0, 0), Ipv4(10, 255, 255, 255)))
    || InRange(v4, Range(Ipv4(100, 64, 0, 0), Ipv4(100, 127, 255, 255)))
    || InRange(v4, Range(Ipv4(169, 254, 0, 0), Ipv4(169, 254, 255, 255)))
    || InRange(v4, Range(Ipv4(172, 16, 0, 0), Ipv4(172, 31, 255, 255)))
    || InRange(v4, Range(Ipv4(192, 0, 2, 0), Ipv4(192, 0, 2, 255)))
    || InRange(v4, Range(Ipv4(192, 168, 0, 0), Ipv4(192, 168, 255, 255)))
    || InRange(v4, Range(Ipv4(198, 18, 0, 0), Ipv4(198, 19, 255, 255)))
    || InRange(v4, Range(Ipv4(198, 51, 100, 0), Ipv4(198, 51, 100, 255)))
    || InRange(v4, Range(Ipv4(203, 0, 113, 0), Ipv4(203, 0, 113, 255)))
    || InRange(v4, Range(Ipv4(224, 0, 0, 0), Ipv4(255, 255, 255, 255)))
  }

  lemma OneOctetRange(v4: Ipv4, a: Octet, a': Octet)
    ensures InRange(v4, Range(Ipv4(a, 0, 0, 0), Ipv4(a', 255, 255, 255))) <==> a <= v4.a <= a'
  {}

  lemma TwoOctetRange(v4: Ipv4, a: Octet, b: Octet, b': Octet)
    ensures InRange(v4, Range(Ipv4(a, b, 0, 0), Ipv4(a, b', 255, 255))) <==> v4.a == a && b <= v4.b <= b'
  {}

  lemma ThreeOctetRange(v4: Ipv4, a: Octet, b: Octet, c: Octet)
    ensures InRange(v4, Range(Ipv4(a, b, c, 0), Ipv4(a, b, c, 255))) <==> v4.a == a && v4.b == b && v4.c == c
  {}

  /** An IPv4 address is public exactly when no special range holds it, loopback being as configured. */
  lemma PublicIpv4Iff(v4: Ipv4, allowLoopback: bool)
    ensures IsPublicIpv4(v4, allowLoopback) <==>
              (InRange(v4, LOOPBACK_V4) ==> allowLoopback) && !IsSpecialPurpose(v4)
  {
    OneOctetRange(v4, 127, 127);
    OneOctetRange(v4, 0, 0);
    OneOctetRange(v4, 10, 10);
    OneOctetRange(v4, 224, 255);
    TwoOctetRange(v4, 100, 64, 127);
    TwoOctetRange(v4, 169, 254, 254);
    TwoOctetRange(v4, 172, 16, 31);
    TwoOctetRange(v4, 192, 168, 168);
    TwoOctetRange(v4, 198, 18, 19);
    ThreeOctetRange(v4, 192, 0, 2);
    ThreeOctetRange(v4, 198, 51, 100);
    ThreeOctetRange(v4, 203, 0, 113);
  }

  lemma LoopbackV4Iff(v4: Ipv4)
    ensures IsLoopbackAddress(Some(V4(v4))) <==> InRange(v4, LOOPBACK_V4)
  {
    OneOctetRange(v4, 127, 127);
  }

  // ---------------------------------------------------------------------------------------------
  // IPv6: the mask tests as prefixes
  // ---------------------------------------------------------------------------------------------

  lemma HighMaskValues()
    ensures HighMask(10) == 0xffc0 && HighMask(7) == 0xfe00 && HighMask(8) == 0xff00
  {
    assert Pow2(6) == 64 && Pow2(9) == 512 && Pow2(8) == 256;
    HighMaskIs(10, 64);
    HighMaskIs(7, 512);
    HighMaskIs(8, 256);
  }

  lemma HighMaskIs(keep: nat, low: nat)
    requires 0 < keep < 16 && low == Pow2(16 - keep) <= 0x8000
    ensures HighMask(keep) == 0x1_0000 - low
  {
    assert Shl(0xFFFF, 16 - keep) == 0xFFFF * low by { ShlIsTimes(0xFFFF, 16 - keep); }
    LowHalf(low);
  }

  lemma LowHalf(low: nat)
    requires 0 < low <= 0x8000
    ensures And(0xFFFF * low, 0xFFFF) == 0x1_0000 - low
  {
    SixteenBits();
    Shl16(low - 1);
    AndOnes(0xFFFF * low, low - 1, 0x1_0000 - low, 16);
  }

  lemma Shl16(x: nat)
    ensures Shl(x, 16) == 0x1_0000 * x
  {
    ShlIsTimes(x, 16);
    SixteenBits();
  }

  lemma KeptBitsDecide(x: Word, m: nat, keep: nat, value: nat, pattern: Word)
    requires 0 < keep < 16 && m < 0x1_0000
    requires ToBits(m, 16) == KeepTop(ToBits(x, 16), keep)
    requires ToBits(pattern, 16) == ToBits(value, keep) + Zeros(16 - keep)
    ensures m == pattern <==> ToBits(x, 16)[..keep] == ToBits(value, keep)
  {
    PaddedEqualIff(ToBits(x, 16)[..keep], ToBits(value, keep), 16 - keep);
    if ToBits(m, 16) == ToBits(pattern, 16) {
      SixteenBits();
      ToBitsInjective(m, pattern, 16);
    }
  }

  /** Masking the first segment and comparing is comparing the address's first `keep` bits. */
  lemma FirstSegmentTest(s: Segments, keep: nat, mask: Word, value: nat, pattern: Word)
    requires 0 < keep < 16 && mask == HighMask(keep) && pattern == Shl(value, 16 - keep)
    ensures And(s[0], mask) == pattern <==> AddrBits(s)[..keep] == ToBits(value, keep)
  {
    assert AddrBits(s)[..keep] == ToBits(s[0], 16)[..keep] by {
      FirstBits(s, keep);
    }
    assert ToBits(And(s[0], mask), 16) == KeepTop(ToBits(s[0], 16), keep) && And(s[0], mask) < 0x1_0000 by {
      MaskedWordBits(s[0], keep);
    }
    assert ToBits(pattern, 16) == ToBits(value, keep) + Zeros(16 - keep) by {
      ShlBits(value, 16 - keep, 16);
    }
    KeptBitsDecide(s[0], And(s[0], mask), keep, value, pattern);
  }

  lemma FirstBits(s: Segments, keep: nat)
    requires 0 < keep < 16
    ensures AddrBits(s)[..keep] == ToBits(s[0], 16)[..keep]
  {
    WordAt(s, 0);
    assert AddrBits(s)[..keep] == AddrBits(s)[0..16][..keep];
  }

  lemma PaddedEqualIff(a: Bits, b: Bits, n: nat)
    requires |a| == |b|
    ensures a + Zeros(n) == b + Zeros(n) <==> a == b
  {
    assert (a + Zeros(n))[..|a|] == a && (b + Zeros(n))[..|b|] == b;
  }

  /** fe80::/10, fc00::/7 and ff00::/8, each recognised by exactly its leading bits. */
  lemma ScopedPrefixes(s: Segments)
    ensures IsLinkLocal(s) <==> AddrBits(s)[..10] == ToBits(0x3fa, 10)
    ensures IsUniqueLocal(s) <==> AddrBits(s)[..7] == ToBits(0x7e, 7)
    ensures IsMulticast(s) <==> AddrBits(s)[..8] == ToBits(0xff, 8)
  {
    HighMaskValues();
    assert Shl(0x3fa, 6) == 0xfe80 && Shl(0x7e, 9) == 0xfc00 && Shl(0xff, 8) == 0xff00;
    FirstSegmentTest(s, 10, 0xffc0, 0x3fa, 0xfe80);
    FirstSegmentTest(s, 7, 0xfe00, 0x7e, 0xfc00);
    FirstSegmentTest(s, 8, 0xff00, 0xff, 0xff00);
  }

  predicate SameSegments(s: Segments, t: Segments, n: nat)
    requires n <= 8
  {
    forall k :: 0 <= k < n ==> s[k] == t[k]
  }

  /** The first six segments are the first 96 bits. */
  lemma SixSegments(s: Segments, t: Segments)
    ensures SameSegments(s, t, 6) <==> AddrBits(s)[..96] == AddrBits(t)[..96]
  {
    if SameSegments(s, t, 6) {
      assert SameOctets(s, t, 12);
      SameTopOctets(s, t, 12);
    }
    if AddrBits(s)[..96] == AddrBits(t)[..96] {
      forall k | 0 <= k < 6
        ensures s[k] == t[k]
      {
        SegmentAgrees(s, t, k);
      }
    }
  }

  lemma SegmentAgrees(s: Segments, t: Segments, k: nat)
    requires k < 6 && AddrBits(s)[..96] == AddrBits(t)[..96]
    ensures s[k] == t[k]
  {
    assert ToBits(s[k], 16) == AddrBits(s)[..96][16 * k..16 * k + 16] by { SegmentInPrefix(s, k); }
    assert ToBits(t[k], 16) == AddrBits(t)[..96][16 * k..16 * k + 16] by { SegmentInPrefix(t, k); }
    SixteenBits();
    ToBitsInjective(s[k], t[k], 16);
  }

  lemma SegmentInPrefix(s: Segments, k: nat)
    requires k < 6
    ensures AddrBits(s)[..96][16 * k..16 * k + 16] == ToBits(s[k], 16)
  {
    WordAt(s, k);
    SliceOfPrefix(AddrBits(s), 96, 16 * k, 16 * k + 16);
  }

  lemma SliceOfPrefix(b: Bits, n: nat, i: nat, j: nat)
    requires i <= j <= n <= |b|
    ensures b[..n][i..j] == b[i..j]
  {}

  lemma SliceOfSlice(b: Bits, lo: nat, hi: nat, i: nat, j: nat)
    requires lo <= hi <= |b| && i <= j <= hi - lo
    ensures b[lo..hi][i..j] == b[lo + i..lo + j]
  {
    var l, r := b[lo..hi][i..j], b[lo + i..lo + j];
    assert |l| == |r| && forall k :: 0 <= k < |l| ==> l[k] == r[k];
  }

  const WELL_KNOWN: Segments := [0x64, 0xff9b, 0, 0, 0, 0, 0, 0]

  lemma WellKnownSegments(s: Segments)
    ensures WellKnownEmbeddedV4(s) == if SameSegments(s, WELL_KNOWN, 6) then Some(Decoded(s, 96)) else None
  {}

  /** The special case for 64:ff9b::/96 reads what the general decoder reads under that prefix. */
  lemma WellKnownIsNsp(s: Segments)
    ensures WellKnownEmbeddedV4(s) == NspEmbeddedV4(NewNsp(WELL_KNOWN, 96).value, s)
  {
    NspIsSegments(WELL_KNOWN, s);
    WellKnownSegments(s);
  }

  /** A prefix of length 96 compares six segments and reads the last two. */
  lemma NspIsSegments(prefix: Segments, s: Segments)
    ensures NspEmbeddedV4(NewNsp(prefix, 96).value, s) == if SameSegments(s, prefix, 6) then Some(Decoded(s, 96))
                else None
  {
    SixSegments(s, prefix);
    MaskedEqualIff(s, prefix, 96);
  }

  // ---------------------------------------------------------------------------------------------
  // Addresses that carry an IPv4 address, told by their bits
  // ---------------------------------------------------------------------------------------------

  /** Four octets of the address, from the given one on, are those of the IPv4 address. */
  predicate HoldsV4At(s: Segments, first: nat, v4: Ipv4)
    requires first <= 12
  {
    && AddrOctet(s, first) == v4.a && AddrOctet(s, first + 1) == v4.b
    && AddrOctet(s, first + 2) == v4.c && AddrOctet(s, first + 3) == v4.d
  }

  /** A segment whose bits are those of a word is that word. */
  lemma SegmentIs(s: Segments, k: nat, w: Word)
    requires k < 8 && AddrBits(s)[16 * k..16 * k + 16] == ToBits(w, 16)
    ensures s[k] == w
  {
    WordAt(s, k);
    SixteenBits();
    ToBitsInjective(s[k], w, 16);
  }

  lemma ZeroSegment(s: Segments, k: nat, zeros: nat)
    requires k < 8 && 16 * k + 16 <= zeros <= 128 && AddrBits(s)[..zeros] == Zeros(zeros)
    ensures s[k] == 0
  {
    ZeroBits(16);
    SliceOfPrefix(AddrBits(s), zeros, 16 * k, 16 * k + 16);
    assert Zeros(zeros)[16 * k..16 * k + 16] == Zeros(16);
    SegmentIs(s, k, 0);
  }

  lemma ZeroSegments(s: Segments, n: nat)
    requires n <= 8 && AddrBits(s)[..16 * n] == Zeros(16 * n)
    ensures forall k :: 0 <= k < n ==> s[k] == 0
  {
    forall k | 0 <= k < n
      ensures s[k] == 0
    {
      ZeroSegment(s, k, 16 * n);
    }
  }

  lemma OnesSegment(s: Segments, k: nat)
    requires k < 8 && AddrBits(s)[16 * k..16 * k + 16] == Ones(16)
    ensures s[k] == 0xffff
  {
    SixteenBits();
    OnesBits(16, 16);
    SegmentIs(s, k, 0xffff);
  }

  /** What these addresses have in common: the verdict on them is that on the IPv4 address they carry. */
  ghost predicate StandsFor(s: Segments, v4: Ipv4) {
    forall allowLoopback: bool, policy: Policy ::
      IsPublicAddress(Some(V6(s)), allowLoopback, policy) == IsPublicAddress(Some(V4(v4)), allowLoopback, policy)
  }

  /** IPv4-mapped, ::ffff:0:0/96: eighty zeros, sixteen ones, the IPv4 address. */
  lemma MappedStandsForV4(s: Segments, v4: Ipv4)
    requires AddrBits(s)[..80] == Zeros(80) && AddrBits(s)[80..96] == Ones(16) && HoldsV4At(s, 12, v4)
    ensures StandsFor(s, v4)
    ensures IsLoopbackAddress(Some(V6(s))) == IsLoopbackAddress(Some(V4(v4)))
  {
    ZeroSegments(s, 5);
    OnesSegment(s, 5);
    assert ToIpv4Mapped(s) == Some(v4);
  }

  /** IPv4-compatible, ::/96: ninety-six zeros and the IPv4 address, but for `::1`, which is loopback itself. */
  lemma CompatibleStandsForV4(s: Segments, v4: Ipv4)
    requires AddrBits(s)[..96] == Zeros(96) && HoldsV4At(s, 12, v4)
    ensures V4Value(v4) != 1 ==> StandsFor(s, v4)
    ensures V4Value(v4) == 1 ==> forall allowLoopback: bool, policy: Policy ::
                                   IsPublicAddress(Some(V6(s)), allowLoopback, policy) == allowLoopback
    ensures IsLoopbackAddress(Some(V6(s))) <==> V4Value(v4) == 1
  {
    ZeroSegments(s, 6);
    LastSegments(s, v4);
    hide *;
    CompatibleIsJudged(s, v4);
  }

  lemma CompatibleIsJudged(s: Segments, v4: Ipv4)
    requires IsV4Compatible(s) && V4At(s, 6) == v4
    requires IsLocalhost(s) <==> V4Value(v4) == 1
    requires IsUnspecified(s) <==> V4Value(v4) == 0
    ensures V4Value(v4) != 1 ==> StandsFor(s, v4)
    ensures V4Value(v4) == 1 ==> forall allowLoopback: bool, policy: Policy ::
                                   IsPublicAddress(Some(V6(s)), allowLoopback, policy) == allowLoopback
    ensures IsLoopbackAddress(Some(V6(s))) <==> V4Value(v4) == 1
  {
    hide V4At, HoldsV4At, PolicyEmbeddedV4, And;
    assert V4Value(v4) == 0 ==> v4.a == 0;
  }

  lemma LastSegments(s: Segments, v4: Ipv4)
    requires HoldsV4At(s, 12, v4)
    requires forall k :: 0 <= k < 6 ==> s[k] == 0
    ensures V4At(s, 6) == v4 && IsV4Compatible(s)
    ensures IsLocalhost(s) <==> V4Value(v4) == 1
    ensures IsUnspecified(s) <==> V4Value(v4) == 0
  {
    var hi: int, lo: int := s[6], s[7];
    assert V4Value(v4) == 0x1_0000 * hi + lo;
  }

  /** 6to4, 2002::/16 (RFC 3056): the IPv4 address follows the first sixteen bits. */
  lemma SixToFourStandsForV4(s: Segments, v4: Ipv4)
    requires AddrBits(s)[..16] == ToBits(0x2002, 16) && HoldsV4At(s, 2, v4)
    ensures StandsFor(s, v4)
    ensures !IsLoopbackAddress(Some(V6(s)))
  {
    assert AddrBits(s)[16 * 0..16 * 0 + 16] == AddrBits(s)[..16];
    SegmentIs(s, 0, 0x2002);
    SmallIsNotScoped(s);
    assert V4At(s, 1) == v4;
  }

  lemma WellKnownWords(s: Segments)
    requires AddrBits(s)[..32] == ToBits(0x64, 16) + ToBits(0xff9b, 16) && AddrBits(s)[32..96] == Zeros(64)
    ensures s[0] == 0x64 && s[1] == 0xff9b && forall k :: 2 <= k < 6 ==> s[k] == 0
  {
    hide ToBits, AddrBits;
    var b := AddrBits(s);
    assert b[16 * 0..16 * 0 + 16] == b[..32][..16] == ToBits(0x64, 16);
    assert b[16 * 1..16 * 1 + 16] == b[..32][16..] == ToBits(0xff9b, 16);
    SegmentIs(s, 0, 0x64);
    SegmentIs(s, 1, 0xff9b);
    forall k | 2 <= k < 6
      ensures s[k] == 0
    {
      ZeroBits(16);
      var j := 16 * (k - 2);
      SliceOfSlice(b, 32, 96, j, j + 16);
      assert 32 + j == 16 * k;
      assert Zeros(64)[j..j + 16] == Zeros(16);
      SegmentIs(s, k, 0);
    }
  }

  /** The well-known NAT64 prefix, 64:ff9b::/96 (RFC 6052, section 2.1). */
  lemma WellKnownStandsForV4(s: Segments, v4: Ipv4)
    requires AddrBits(s)[..32] == ToBits(0x64, 16) + ToBits(0xff9b, 16) && AddrBits(s)[32..96] == Zeros(64)
    requires HoldsV4At(s, 12, v4)
    ensures StandsFor(s, v4)
    ensures !IsLoopbackAddress(Some(V6(s)))
  {
    WellKnownWords(s);
    SmallIsNotScoped(s);
    assert V4At(s, 6) == v4;
    hide *;
    WellKnownIsJudged(s, v4);
  }

  lemma WellKnownIsJudged(s: Segments, v4: Ipv4)
    requires s[0] == 0x64 && s[1] == 0xff9b && (forall k :: 2 <= k < 6 ==> s[k] == 0) && !IsScoped(s) &&
                V4At(s, 6) == v4
    ensures StandsFor(s, v4)
    ensures !IsLoopbackAddress(Some(V6(s)))
  {
    hide V4At, PolicyEmbeddedV4, And, IsPublicIpv4;
    assert WellKnownEmbeddedV4(s) == Some(v4);
  }

  lemma SmallIsNotScoped(s: Segments)
    requires s[0] < 0xf000
    ensures !IsScoped(s)
  {
    AndIsSmaller(s[0], 0xffc0);
    AndIsSmaller(s[0], 0xfe00);
    AndIsSmaller(s[0], 0xff00);
  }

  predicate IsScoped(s: Segments) {
    IsLinkLocal(s) || IsUniqueLocal(s) || IsMulticast(s)
  }

  /** Link-local, unique local and multicast addresses are refused, whatever is allowed or configured. */
  lemma ScopedIsRefused(s: Segments, allowLoopback: bool, policy: Policy)
    requires AddrBits(s)[..10] == ToBits(0x3fa, 10) || AddrBits(s)[..7] == ToBits(0x7e, 7) || AddrBits(s)[..8] ==
                ToBits(0xff, 8)
    ensures !IsPublicAddress(Some(V6(s)), allowLoopback, policy)
  {
    ScopedPrefixes(s);
    if s[0] < 0xf000 {
      SmallIsNotScoped(s);
    }
  }

  // ---------------------------------------------------------------------------------------------
  // What `allow_loopback` widens
  // ---------------------------------------------------------------------------------------------

  /** The IPv4 address that stands behind an address: itself, or the one a transition form carries. */
  function EffectiveV4(address: IpAddr, policy: Policy): Option<Ipv4> {
    match address
    case V4(v4) => Some(v4)
    case V6(s) =>
      if ToIpv4Mapped(s).Some? || IsV4Compatible(s) || WellKnownEmbeddedV4(s).Some? then Some(V4At(s, 6))
      else if IsScoped(s) then None
      else if s[0] == 0x2002 then Some(V4At(s, 1))
      else PolicyEmbeddedV4(policy, s)
  }

  /** An IPv6 address is judged by the IPv4 address behind it; without one, only scoped ranges are refused. */
  lemma JudgedByEffectiveV4(s: Segments, allowLoopback: bool, policy: Policy)
    requires !IsLocalhost(s)
    ensures
      var v4 := EffectiveV4(V6(s), policy);
      IsPublicIpv6(s, allowLoopback, policy) <==> if v4.Some? then IsPublicIpv4(v4.value, allowLoopback)
          else !IsScoped(s)
  {
    if s[0] < 0xf000 {
      SmallIsNotScoped(s);
    }
  }

  lemma LoopbackWidensV4(v4: Ipv4)
    ensures IsPublicIpv4(v4, false) ==> IsPublicIpv4(v4, true)
    ensures IsPublicIpv4(v4, true) && !IsPublicIpv4(v4, false) <==> InRange(v4, LOOPBACK_V4)
  {
    OneOctetRange(v4, 127, 127);
  }

  /** `allow_loopback` widens one class only: `::1` and whatever stands for an IPv4 address in 127/8. */
  lemma LoopbackWidening(address: IpAddr, policy: Policy)
    ensures IsPublicAddress(Some(address), false, policy) ==> IsPublicAddress(Some(address), true, policy)
    ensures
      IsPublicAddress(Some(address), true, policy) && !IsPublicAddress(Some(address), false, policy) <==>
      (address.V6? && IsLocalhost(address.segments))
      || (EffectiveV4(address, policy).Some? && InRange(EffectiveV4(address, policy).value, LOOPBACK_V4))
  {
    if EffectiveV4(address, policy).Some? {
      LoopbackWidensV4(EffectiveV4(address, policy).value);
    }
    if address.V6? && !IsLocalhost(address.segments) {
      JudgedByEffectiveV4(address.segments, false, policy);
      JudgedByEffectiveV4(address.segments, true, policy);
    }
  }

  /** What the loopback test recognises is accepted with `allow_loopback`, and only with it. */
  lemma LoopbackNeedsPermission(address: Option<IpAddr>, allowLoopback: bool, policy: Policy)
    requires IsLoopbackAddress(address)
    ensures IsPublicAddress(address, allowLoopback, policy) <==> allowLoopback
  {}

  // ---------------------------------------------------------------------------------------------
  // What the policy can change
  // ---------------------------------------------------------------------------------------------

  /** Is the policy asked about an address at all? */
  predicate IsLeftToPolicy(s: Segments) {
    && !IsLocalhost(s) && !IsUnspecified(s) && ToIpv4Mapped(s).None? && !IsV4Compatible(s)
    && !IsScoped(s) && s[0] != 0x2002 && WellKnownEmbeddedV4(s).None?
  }

  /** Where it is asked, what it decodes decides; elsewhere no policy makes a difference. */
  lemma DecidedByPolicy(s: Segments, allowLoopback: bool, policy: Policy)
    ensures IsPublicIpv6(s, allowLoopback, policy) <==>
            if IsLeftToPolicy(s) then PolicyEmbeddedV4(policy, s).Some? ==>
                IsPublicIpv4(PolicyEmbeddedV4(policy, s).value, allowLoopback)
            else IsPublicIpv6(s, allowLoopback, [])
  {}

  /** A policy counts only through what it decodes, and decoding something never helps. */
  lemma OnlyDecodingCounts(s: Segments, allowLoopback: bool, p: Policy, q: Policy)
    requires PolicyEmbeddedV4(p, s) == PolicyEmbeddedV4(q, s) || PolicyEmbeddedV4(q, s).None?
    ensures IsPublicIpv6(s, allowLoopback, p) ==> IsPublicIpv6(s, allowLoopback, q)
  {}

  /** Appending prefixes only ever refuses more; so every policy refuses at least what the strict one does. */
  lemma AppendingOnlyRefuses(address: Option<IpAddr>, allowLoopback: bool, p: Policy, q: Policy)
    requires IsPublicAddress(address, allowLoopback, p + q)
    ensures IsPublicAddress(address, allowLoopback, p)
    ensures IsPublicAddress(address, allowLoopback, [])
  {
    if address.Some? && address.value.V6? {
      var s := address.value.segments;
      AppendKeepsDecoding(p, q, s);
      OnlyDecodingCounts(s, allowLoopback, p + q, p);
      OnlyDecodingCounts(s, allowLoopback, p, []);
    }
  }

  lemma FirstSegments(s: Segments, t: Segments, n: nat)
    requires 4 <= n <= 16 && SameOctets(s, t, n)
    ensures s[0] == t[0] && s[1] == t[1]
    ensures n == 12 ==> SameSegments(s, t, 6)
  {
    LeadingSegments(s, t, 2);
    if n == 12 {
      LeadingSegments(s, t, 6);
    }
  }

  lemma LeadingSegments(s: Segments, t: Segments, n: nat)
    requires n <= 8 && SameOctets(s, t, 2 * n)
    ensures SameSegments(s, t, n)
  {
    forall k | 0 <= k < n
      ensures s[k] == t[k]
    {
      assert AddrOctet(s, 2 * k) == AddrOctet(t, 2 * k) && AddrOctet(s, 2 * k + 1) == AddrOctet(t, 2 * k + 1);
    }
  }

  // ---------------------------------------------------------------------------------------------
  // When the order of a policy matters
  // ---------------------------------------------------------------------------------------------

  const EIGHTS: Ipv4 := Ipv4(8, 8, 8, 8)
  const TENS: Ipv4 := Ipv4(10, 10, 10, 10)

  /** Read off a prefix: some address under it is left to the policy. */
  predicate ReachesPolicy(p: Nsp) {
    !IsScoped(p.masked) && p.masked[0] != 0x2002 && (p.prefixLen == 96 ==> IsLeftToPolicy(p.masked))
  }

  lemma ReachesPolicyIff(p: Nsp)
    ensures ReachesPolicy(p) <==> exists s: Segments :: NspEmbeddedV4(p, s).Some? && IsLeftToPolicy(s)
  {
    hide And, Embed, AddrOctet, Masked;
    forall s: Segments | NspEmbeddedV4(p, s).Some? && IsLeftToPolicy(s)
      ensures ReachesPolicy(p)
    {
      MatchesIff(p, s);
      assert SameOctets(s, p.masked, p.prefixLen / 8);
      FirstSegments(s, p.masked, p.prefixLen / 8);
      if p.prefixLen == 96 {
        SixSegmentsDecide(p.masked, s);
      }
    }
    if ReachesPolicy(p) {
      var s := Embed(p.masked, p.prefixLen, EIGHTS);
      EmbeddedIsLeftToPolicy(p, EIGHTS);
      EmbedPrefixOctets(p.masked, p.prefixLen, EIGHTS);
      MatchesIff(p, s);
    }
  }

  lemma EmbeddedIsLeftToPolicy(p: Nsp, v4: Ipv4)
    requires ReachesPolicy(p) && (v4 == EIGHTS || v4 == TENS)
    ensures IsLeftToPolicy(Embed(p.masked, p.prefixLen, v4))
  {
    hide Embed, And, AddrOctet;
    var s := Embed(p.masked, p.prefixLen, v4);
    EmbedPrefixOctets(p.masked, p.prefixLen, v4);
    FirstSegments(s, p.masked, p.prefixLen / 8);
    if p.prefixLen == 96 {
      SixSegmentsDecide(s, p.masked);
    } else {
      EmbedOctet(p.masked, p.prefixLen, v4, V4Octets(p.prefixLen)[0]);
      NoGapNoTransition(s, V4Octets(p.prefixLen)[0]);
    }
  }

  lemma SixSegmentsDecide(s: Segments, t: Segments)
    requires SameSegments(s, t, 6)
    ensures IsLeftToPolicy(t) ==> IsLeftToPolicy(s)
  {
    hide And;
  }

  /** A non-zero octet from the fifth to the tenth rules out every form that fixes the first 96 bits. */
  lemma NoGapNoTransition(s: Segments, i: nat)
    requires 4 <= i < 10 && AddrOctet(s, i) != 0
    ensures !IsLocalhost(s) && !IsUnspecified(s) && ToIpv4Mapped(s).None? && !IsV4Compatible(s) &&
                WellKnownEmbeddedV4(s).None?
  {
    assert s[i / 2] != 0 && 2 <= i / 2 <= 4;
  }

  lemma EightsArePublic()
    ensures IsPublicIpv4(EIGHTS, false) && !IsPublicIpv4(TENS, false)
  {}

  /** Alike but for eights where the other has tens, and beginning alike. */
  predicate Alike(v4: Ipv4, w4: Ipv4) {
    && v4.a == w4.a
    && (v4.b == w4.b || (v4.b == 8 && w4.b == 10))
    && (v4.c == w4.c || (v4.c == 8 && w4.c == 10))
    && (v4.d == w4.d || (v4.d == 8 && w4.d == 10))
  }

  lemma AlikeIsJudgedAlike(v4: Ipv4, w4: Ipv4, allowLoopback: bool)
    requires Alike(v4, w4)
    ensures IsPublicIpv4(v4, allowLoopback) == IsPublicIpv4(w4, allowLoopback)
  {}

  /** What a shorter prefix reads as its IPv4 octets, a longer one has in its prefix or among its own. */
  lemma PositionsNest(a: nat, b: nat, j: nat)
    requires IsEmbeddingLength(a) && IsEmbeddingLength(b) && a < b && j < 4
    ensures V4Octets(a)[0] < b / 8
    ensures
      var i, t := V4Octets(a)[j], V4Octets(b);
      i < b / 8 || i == t[0] || i == t[1] || i == t[2] || i == t[3]
  {}

  lemma OctetAlike(prefix: Segments, a: nat, b: nat, j: nat)
    requires IsEmbeddingLength(a) && IsEmbeddingLength(b) && a < b && j < 4
    ensures
      var i := V4Octets(a)[j];
      var x, y := AddrOctet(Embed(prefix, b, EIGHTS), i), AddrOctet(Embed(prefix, b, TENS), i);
      x == y || (j > 0 && x == 8 && y == 10)
  {
    PositionsNest(a, b, j);
    EmbedOctet(prefix, b, EIGHTS, V4Octets(a)[j]);
    EmbedOctet(prefix, b, TENS, V4Octets(a)[j]);
  }

  /** Read with a shorter prefix, an embedding of eights is public exactly if the same embedding of tens is. */
  lemma EightsReadLikeTens(prefix: Segments, a: nat, b: nat)
    requires IsEmbeddingLength(a) && IsEmbeddingLength(b) && a < b
    ensures IsPublicIpv4(Decoded(Embed(prefix, b, EIGHTS), a), false) ==
                IsPublicIpv4(Decoded(Embed(prefix, b, TENS), a), false)
  {
    var e, t := Decoded(Embed(prefix, b, EIGHTS), a), Decoded(Embed(prefix, b, TENS), a);
    assert Alike(e, t) by {
      OctetAlike(prefix, a, b, 0);
      OctetAlike(prefix, a, b, 1);
      OctetAlike(prefix, a, b, 2);
      OctetAlike(prefix, a, b, 3);
    }
    AlikeIsJudgedAlike(e, t, false);
  }

  /**
   Two framings always disagree somewhere: whatever the longer prefix, some address under it embeds an
   acceptable IPv4 address as the one length reads it and a refused one as the other does.
   */
  lemma FramingsDisagree(prefix: Segments, a: nat, b: nat) returns (v4: Ipv4)
    requires IsEmbeddingLength(a) && IsEmbeddingLength(b) && a < b
    ensures v4 == EIGHTS || v4 == TENS
    ensures
      var s := Embed(prefix, b, v4);
      IsPublicIpv4(Decoded(s, a), false) != IsPublicIpv4(Decoded(s, b), false)
  {
    hide Embed, Decoded, IsPublicIpv4;
    EightsArePublic();
    EightsReadLikeTens(prefix, a, b);
    DecodeOfEmbed(prefix, b, EIGHTS);
    DecodeOfEmbed(prefix, b, TENS);
    v4 := if IsPublicIpv4(Decoded(Embed(prefix, b, EIGHTS), a), false) then TENS else EIGHTS;
  }

  function Longer(p: Nsp, q: Nsp): Nsp {
    if p.prefixLen <= q.prefixLen then q else p
  }

  /** Read off two prefixes: they are different, overlap, and do so where the policy is asked. */
  predicate Conflict(p: Nsp, q: Nsp) {
    p != q && Overlap(p, q) && ReachesPolicy(Longer(p, q))
  }

  /** Of two prefixes in conflict, one accepts an address left to the policy that the other refuses. */
  lemma ConflictWitness(p: Nsp, q: Nsp) returns (s: Segments)
    requires Conflict(p, q)
    ensures IsLeftToPolicy(s)
    ensures NspEmbeddedV4(p, s) == Some(Decoded(s, p.prefixLen)) && NspEmbeddedV4(q, s) == Some(Decoded(s, q.prefixLen))
    ensures IsPublicIpv4(Decoded(s, p.prefixLen), false) != IsPublicIpv4(Decoded(s, q.prefixLen), false)
  {
    hide Embed, Decoded, IsPublicIpv4, IsLeftToPolicy, IsScoped, AddrBits, Masked, NspEmbeddedV4;
    if p.prefixLen == q.prefixLen {
      SameLengthOverlap(p, q);
    }
    var longer := Longer(p, q);
    var v4 := FramingsDisagree(longer.masked, Shorter(p, q), longer.prefixLen);
    s := Embed(longer.masked, longer.prefixLen, v4);
    EmbeddedIsLeftToPolicy(longer, v4);
    EmbedPrefixOctets(longer.masked, longer.prefixLen, v4);
    OverlapIsSameOctets(p, q);
    MatchesIff(p, s);
    MatchesIff(q, s);
  }

  /** Without a conflict, prefixes that both match an address left to the policy read it alike. */
  lemma NoConflictReadsAlike(p: Nsp, q: Nsp, s: Segments)
    requires !Conflict(p, q) && IsLeftToPolicy(s)
    requires NspEmbeddedV4(p, s).Some? && NspEmbeddedV4(q, s).Some?
    ensures NspEmbeddedV4(p, s) == NspEmbeddedV4(q, s)
  {
    OverlapIff(p, q);
    ReachesPolicyIff(Longer(p, q));
  }

  ghost predicate SameVerdicts(p: Policy, q: Policy) {
    forall address: Option<IpAddr>, allowLoopback: bool ::
      IsPublicAddress(address, allowLoopback, p) == IsPublicAddress(address, allowLoopback, q)
  }

  ghost predicate AnyOrderWillDo(policy: Policy) {
    forall q: Policy :: multiset(q) == multiset(policy) ==> SameVerdicts(policy, q)
  }

  predicate ConflictFree(policy: Policy) {
    forall i, k :: 0 <= i < k < |policy| ==> !Conflict(policy[i], policy[k])
  }

  lemma ConflictFreeOrder(p: Policy, q: Policy, address: Option<IpAddr>, allowLoopback: bool)
    requires ConflictFree(p) && multiset(p) == multiset(q)
    ensures IsPublicAddress(address, allowLoopback, p) == IsPublicAddress(address, allowLoopback, q)
  {
    if address.Some? && address.value.V6? {
      var s := address.value.segments;
      if IsLeftToPolicy(s) {
        forall i, k | 0 <= i < k < |p| && NspEmbeddedV4(p[i], s).Some? && NspEmbeddedV4(p[k], s).Some?
          ensures NspEmbeddedV4(p[i], s) == NspEmbeddedV4(p[k], s)
        {
          NoConflictReadsAlike(p[i], p[k], s);
        }
        FindMapPermuted(p, q, nsp => NspEmbeddedV4(nsp, s));
      }
      DecidedByPolicy(s, allowLoopback, p);
      DecidedByPolicy(s, allowLoopback, q);
    }
  }

  lemma HeadDecides(p: Nsp, rest: Policy, s: Segments)
    requires IsLeftToPolicy(s) && NspEmbeddedV4(p, s).Some?
    ensures IsPublicIpv6(s, false, [p] + rest) == IsPublicIpv4(NspEmbeddedV4(p, s).value, false)
  {
    hide IsLeftToPolicy, IsPublicIpv4, IsPublicIpv6, NspEmbeddedV4;
    AppendKeepsDecoding([p], rest, s);
    assert PolicyEmbeddedV4([p], s) == NspEmbeddedV4(p, s);
    DecidedByPolicy(s, false, [p] + rest);
  }

  /** Two prefixes in conflict at the front: whichever comes first decides, and they decide differently. */
  lemma PrependingCanAccept(p: Nsp, q: Nsp, rest: Policy)
    requires Conflict(p, q)
    ensures !SameVerdicts([p, q] + rest, [q, p] + rest)
  {
    hide Conflict, IsLeftToPolicy, IsPublicIpv4, IsPublicIpv6, NspEmbeddedV4, Decoded;
    var s := ConflictWitness(p, q);
    HeadDecides(p, [q] + rest, s);
    HeadDecides(q, [p] + rest, s);
    assert [p, q] + rest == [p] + ([q] + rest) && [q, p] + rest == [q] + ([p] + rest);
    assert IsPublicAddress(Some(V6(s)), false, [p, q] + rest) != IsPublicAddress(Some(V6(s)), false, [q, p] + rest);
  }

  /**
   The order of a policy is irrelevant if and only if no two different prefixes of it agree up to the
   shorter one's length while the longer one covers addresses that are left to the policy.
   */
  lemma PolicyOrderIff(policy: Policy)
    ensures AnyOrderWillDo(policy) <==> ConflictFree(policy)
  {
    if ConflictFree(policy) {
      forall q: Policy, address: Option<IpAddr>, allowLoopback: bool | multiset(q) == multiset(policy)
        ensures IsPublicAddress(address, allowLoopback, policy) == IsPublicAddress(address, allowLoopback, q)
      {
        ConflictFreeOrder(policy, q, address, allowLoopback);
      }
    } else {
      var i, k :| 0 <= i < k < |policy| && Conflict(policy[i], policy[k]);
      SwappingConflictMatters(policy, i, k);
    }
  }

  lemma SwappingConflictMatters(policy: Policy, i: nat, k: nat)
    requires i < k < |policy| && Conflict(policy[i], policy[k])
    ensures !AnyOrderWillDo(policy)
  {
    hide Conflict, IsPublicAddress;
    var rest := policy[..i] + policy[i + 1..k] + policy[k + 1..];
    FrontedIsPermutation(policy, i, k, rest);
    PrependingCanAccept(policy[i], policy[k], rest);
    var one, other := [policy[i], policy[k]] + rest, [policy[k], policy[i]] + rest;
    assert SameVerdicts(policy, one) && SameVerdicts(policy, other) ==> SameVerdicts(one, other);
  }

  // ---------------------------------------------------------------------------------------------
  // What configuring a prefix achieves
  // ---------------------------------------------------------------------------------------------

  /** In a policy without conflicts, a prefix that matches an address left to the policy decides it. */
  lemma MatchDecidesVerdict(policy: Policy, i: nat, s: Segments, allowLoopback: bool)
    requires ConflictFree(policy) && i < |policy| && NspEmbeddedV4(policy[i], s).Some? && IsLeftToPolicy(s)
    ensures IsPublicIpv6(s, allowLoopback, policy) == IsPublicIpv4(NspEmbeddedV4(policy[i], s).value, allowLoopback)
  {
    hide IsLeftToPolicy, IsPublicIpv4, IsPublicIpv6, NspEmbeddedV4, Conflict;
    var k := FindMapIsFirst(policy, nsp => NspEmbeddedV4(nsp, s));
    if k < i {
      NoConflictReadsAlike(policy[k], policy[i], s);
    }
    assert PolicyEmbeddedV4(policy, s) == NspEmbeddedV4(policy[i], s);
    DecidedByPolicy(s, allowLoopback, policy);
  }

  /**
   A configured prefix closes its hole, wherever it stands in a policy without conflicts: an address that
   embeds an IPv4 address under it is accepted exactly if that IPv4 address is. Where an earlier rule
   decides before the policy is asked, the verdict is that of the strict policy.
   */
  lemma ConfiguredPrefixIsHonoured(policy: Policy, i: nat, v4: Ipv4, allowLoopback: bool)
    requires ConflictFree(policy) && i < |policy|
    ensures
      var s := Embed(policy[i].masked, policy[i].prefixLen, v4);
      IsPublicAddress(Some(V6(s)), allowLoopback, policy) <==>
      if IsLeftToPolicy(s) then IsPublicIpv4(v4, allowLoopback) else IsPublicAddress(Some(V6(s)), allowLoopback, [])
  {
    hide IsLeftToPolicy, IsPublicIpv4, IsPublicIpv6, Embed, Conflict;
    var nsp := policy[i];
    var s := Embed(nsp.masked, nsp.prefixLen, v4);
    assert NspEmbeddedV4(nsp, s) == Some(v4) by {
      EmbedPrefixOctets(nsp.masked, nsp.prefixLen, v4);
      MatchesIff(nsp, s);
      DecodeOfEmbed(nsp.masked, nsp.prefixLen, v4);
    }
    if IsLeftToPolicy(s) {
      MatchDecidesVerdict(policy, i, s, allowLoopback);
    } else {
      DecidedByPolicy(s, allowLoopback, policy);
    }
  }

  /** The prefix 64:ff9b:1::/48, next to the well-known one, is always honoured. */
  lemma LocalUsePrefixIsHonoured(policy: Policy, i: nat, v4: Ipv4, allowLoopback: bool)
    requires ConflictFree(policy) && i < |policy| && Ok(policy[i]) == NewNsp([0x64, 0xff9b, 1, 0, 0, 0, 0, 0], 48)
    ensures IsPublicAddress(Some(V6(Embed(policy[i].masked, 48, v4))), allowLoopback, policy) <==>
                IsPublicIpv4(v4, allowLoopback)
  {
    hide Embed, And, IsPublicIpv4, IsPublicIpv6, ConflictFree;
    var s := Embed(policy[i].masked, 48, v4);
    ConfiguredPrefixIsHonoured(policy, i, v4, allowLoopback);
    LocalUseSegments(policy[i], v4);
    SmallIsNotScoped(s);
    assert IsLeftToPolicy(s);
  }

  lemma LocalUseSegments(nsp: Nsp, v4: Ipv4)
    requires Ok(nsp) == NewNsp([0x64, 0xff9b, 1, 0, 0, 0, 0, 0], 48)
    ensures Embed(nsp.masked, 48, v4)[0] == 0x64 && Embed(nsp.masked, 48, v4)[2] == 1
  {
    hide Embed, Masked, AddrBits;
    var prefix: Segments := [0x64, 0xff9b, 1, 0, 0, 0, 0, 0];
    assert SameOctets(nsp.masked, prefix, 6) by {
      MaskIsIdempotent(prefix, 48);
      MaskedEqualIff(nsp.masked, prefix, 48);
      SameOctetsIff(nsp.masked, prefix, 6);
    }
    LeadingSegments(nsp.masked, prefix, 3);
    EmbedPrefixOctets(nsp.masked, 48, v4);
    LeadingSegments(Embed(nsp.masked, 48, v4), nsp.masked, 3);
  }
}
