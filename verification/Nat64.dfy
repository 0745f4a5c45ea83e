/**
 IPv6 addresses as eight 16-bit segments, and the decoding of the IPv4 address a NAT64 prefix embeds
 (src/ssrf.rs; RFC 6052, section 2.2). The two bit loops of the source are the methods `MaskSegments`
 and `DecodeEmbeddedV4`; their specifications speak of the 128 bits and of the 16 octets.
 */
module Nat64 {
  import opened Wrappers
  import opened Bits

  type Word = x: nat | x < 0x1_0000
  type Octet = x: nat | x < 0x100
  type Segments = s: seq<Word> | |s| == 8 witness [0, 0, 0, 0, 0, 0, 0, 0]

  datatype Ipv4 = Ipv4(a: Octet, b: Octet, c: Octet, d: Octet)

  // ---------------------------------------------------------------------------------------------
  // The bits of an address
  // ---------------------------------------------------------------------------------------------

  function WordBits(words: seq<Word>): (b: Bits)
    ensures |b| == 16 * |words|
  {
    if words == [] then [] else WordBits(words[..|words| - 1]) + ToBits(words[|words| - 1], 16)
  }

  function AddrBits(s: Segments): (b: Bits)
    ensures |b| == 128
  {
    WordBits(s)
  }

  /** The first `len` bits of a string, the rest cleared. */
  function KeepTop(b: Bits, len: nat): (r: Bits)
    ensures |r| == |b|
  {
    if len >= |b| then b else b[..len] + Zeros(|b| - len)
  }

  lemma SixteenBits()
    ensures Pow2(16) == 0x1_0000 && Pow2(8) == 0x100
  {
    assert Pow2(4) == 16;
    assert Pow2(8) == 256;
    assert Pow2(12) == 4096;
  }

  lemma {:induction false} WordAt(words: seq<Word>, i: nat)
    requires i < |words|
    ensures WordBits(words)[16 * i..16 * i + 16] == ToBits(words[i], 16)
  {
    var n := |words| - 1;
    assert WordBits(words) == WordBits(words[..n]) + ToBits(words[n], 16);
    if i < n {
      WordAt(words[..n], i);
      assert WordBits(words)[16 * i..16 * i + 16] == WordBits(words[..n])[16 * i..16 * i + 16];
    }
  }

  lemma AddrBitsInjective(s: Segments, t: Segments)
    requires AddrBits(s) == AddrBits(t)
    ensures s == t
  {
    forall i | 0 <= i < 8
      ensures s[i] == t[i]
    {
      WordAt(s, i);
      WordAt(t, i);
      SixteenBits();
      ToBitsInjective(s[i], t[i], 16);
    }
  }

  /** The words with the given bits. */
  function WordsFrom(b: Bits): (words: seq<Word>)
    requires |b| % 16 == 0
    ensures |words| == |b| / 16 && WordBits(words) == b
  {
    if b == [] then []
    else
      var n := |b| - 16;
      var front, last := WordsFrom(b[..n]), WordFrom(b[n..]);
      assert (front + [last])[..|front|] == front;
      assert b == b[..n] + b[n..];
      front + [last]
  }

  function WordFrom(b: Bits): (w: Word)
    requires |b| == 16
    ensures ToBits(w, 16) == b
  {
    ToFromBits(b);
    SixteenBits();
    FromBits(b)
  }

  // ---------------------------------------------------------------------------------------------
  // Masking
  // ---------------------------------------------------------------------------------------------

  /** The segments of the address whose bits below the prefix are cleared. */
  function Masked(s: Segments, prefixLen: nat): (m: Segments)
    ensures AddrBits(m) == KeepTop(AddrBits(s), prefixLen)
  {
    WordsFrom(KeepTop(AddrBits(s), prefixLen))
  }

  lemma KeepTopAppend(a: Bits, b: Bits, len: nat)
    ensures KeepTop(a + b, len) == KeepTop(a, len) + KeepTop(b, if len >= |a| then len - |a| else 0)
  {
    var l, r := KeepTop(a + b, len), KeepTop(a, len) + KeepTop(b, if len >= |a| then len - |a| else 0);
    assert |l| == |r|;
    forall i | 0 <= i < |l|
      ensures l[i] == r[i]
    {}
  }

  lemma {:induction false} OnesBits(k: nat, n: nat)
    requires n <= k
    ensures ToBits(Pow2(k) - 1, n) == Ones(n)
  {
    if n == 0 {
    } else {
      var x, half := Pow2(k) - 1, Pow2(k - 1) - 1;
      assert x == 2 * half + 1;
      assert x / 2 == half && x % 2 == 1;
      OnesBits(k - 1, n - 1);
      assert Ones(n) == Ones(n - 1) + [true];
    }
  }

  lemma {:induction false} ShlBits(x: nat, k: nat, n: nat)
    requires k <= n
    ensures ToBits(Shl(x, k), n) == ToBits(x, n - k) + Zeros(k)
  {
    if k == 0 {
    } else {
      ShlBits(x, k - 1, n - 1);
      assert Shl(x, k) / 2 == Shl(x, k - 1);
      assert Zeros(k) == Zeros(k - 1) + [false];
    }
  }

  /** `(!0u16) << (16 - keep)`: the shift of a 16-bit word drops what leaves it at the top. */
  function HighMask(keep: nat): (mask: Word)
    requires 0 < keep < 16
  {
    AndIsSmaller(Shl(0xFFFF, 16 - keep), 0xFFFF);
    And(Shl(0xFFFF, 16 - keep), 0xFFFF)
  }

  lemma HighMaskBits(keep: nat)
    requires 0 < keep < 16
    ensures ToBits(HighMask(keep), 16) == Ones(keep) + Zeros(16 - keep)
  {
    var shifted := Shl(0xFFFF, 16 - keep);
    SixteenBits();
    ShlBits(0xFFFF, 16 - keep, 16);
    OnesBits(16, 16);
    OnesBits(16, keep);
    AndBits(shifted, 0xFFFF, 16);
    var l, r := ToBits(HighMask(keep), 16), Ones(keep) + Zeros(16 - keep);
    assert forall i :: 0 <= i < 16 ==> l[i] == r[i];
  }

  lemma MaskedWordBits(x: Word, keep: nat)
    requires 0 < keep < 16
    ensures ToBits(And(x, HighMask(keep)), 16) == KeepTop(ToBits(x, 16), keep)
    ensures And(x, HighMask(keep)) < 0x1_0000
  {
    AndIsSmaller(x, HighMask(keep));
    HighMaskBits(keep);
    AndBits(x, HighMask(keep), 16);
    var l, r := ToBits(And(x, HighMask(keep)), 16), KeepTop(ToBits(x, 16), keep);
    assert forall i :: 0 <= i < 16 ==> l[i] == r[i];
    assert l == r;
  }

  /** The masking loop, in place: exactly the bits below the prefix are cleared. */
  method MaskSegments(segments: array<Word>, prefixLen: nat)
    requires segments.Length == 8 && prefixLen < 0x100
    modifies segments
    ensures segments[..] == Masked(old(segments[..]), prefixLen)
  {
    ghost var was := segments[..];
    var bitsRemaining: int := prefixLen;
    for i := 0 to 8
      invariant bitsRemaining == if prefixLen >= 16 * i then prefixLen - 16 * i else 0
      invariant forall k :: i <= k < 8 ==> segments[k] == was[k]
      invariant WordBits(segments[..i]) == KeepTop(WordBits(was[..i]), prefixLen)
    {
      ghost var done := segments[..i];
      ghost var x := segments[i];
      assert x == was[i];
      if bitsRemaining >= 16 {
        bitsRemaining := bitsRemaining - 16;
        assert KeepTop(ToBits(x, 16), prefixLen - 16 * i) == ToBits(segments[i], 16);
      } else if bitsRemaining <= 0 {
        segments[i] := 0;
        ZeroBits(16);
        assert KeepTop(ToBits(x, 16), 0) == Zeros(16);
      } else {
        var keep := bitsRemaining;
        var mask := HighMask(keep);
        MaskedWordBits(segments[i], keep);
        segments[i] := And(segments[i], mask);
        bitsRemaining := 0;
      }
      assert segments[..i + 1][..i] == done;
      assert was[..i + 1][..i] == was[..i];
      KeepTopAppend(WordBits(was[..i]), ToBits(x, 16), prefixLen);
    }
    assert segments[..8] == segments[..] && was[..8] == was;
    AddrBitsInjective(segments[..], Masked(was, prefixLen));
  }

  lemma MaskIsIdempotent(s: Segments, prefixLen: nat)
    ensures Masked(Masked(s, prefixLen), prefixLen) == Masked(s, prefixLen)
  {
    var b := AddrBits(s);
    assert KeepTop(KeepTop(b, prefixLen), prefixLen) == KeepTop(b, prefixLen);
    AddrBitsInjective(Masked(Masked(s, prefixLen), prefixLen), Masked(s, prefixLen));
  }

  /** Masked addresses are equal exactly when the addresses agree on the prefix. */
  lemma MaskedEqualIff(s: Segments, t: Segments, prefixLen: nat)
    requires prefixLen <= 128
    ensures Masked(s, prefixLen) == Masked(t, prefixLen) <==> AddrBits(s)[..prefixLen] == AddrBits(t)[..prefixLen]
  {
    var b, c := AddrBits(s), AddrBits(t);
    assert KeepTop(b, prefixLen)[..prefixLen] == b[..prefixLen];
    assert KeepTop(c, prefixLen)[..prefixLen] == c[..prefixLen];
    if b[..prefixLen] == c[..prefixLen] {
      assert KeepTop(b, prefixLen) == KeepTop(c, prefixLen);
      AddrBitsInjective(Masked(s, prefixLen), Masked(t, prefixLen));
    }
  }

  // ---------------------------------------------------------------------------------------------
  // Octets
  // ---------------------------------------------------------------------------------------------

  function HighOctet(w: Word): Octet {
    w / 0x100
  }

  function LowOctet(w: Word): Octet {
    w % 0x100
  }

  /** The source's `seg >> 8` and `seg & 0xff`. */
  lemma OctetsByShiftAndMask(w: Word)
    ensures HighOctet(w) == Shr(w, 8) && LowOctet(w) == And(w, 0xFF)
  {
    Shr8(w);
    AndFF(w);
  }

  lemma Shl8(x: nat)
    ensures Shl(x, 8) == 0x100 * x
  {
    assert Shl(x, 8) == 2 * Shl(x, 7) == 4 * Shl(x, 6) == 8 * Shl(x, 5) == 16 * Shl(x, 4);
    assert Shl(x, 4) == 2 * Shl(x, 3) == 4 * Shl(x, 2) == 8 * Shl(x, 1) == 16 * x;
  }

  lemma Shr8(x: nat)
    ensures Shr(x, 8) == x / 0x100
  {
    assert Shr(x, 8) == Shr(x / 2, 7) == Shr(x / 4, 6) == Shr(x / 8, 5) == Shr(x / 16, 4);
    assert Shr(x / 16, 4) == Shr(x / 32, 3) == Shr(x / 64, 2) == Shr(x / 128, 1) == x / 256;
  }

  /** Adding a multiple of 2^n leaves the low n bits alone. */
  lemma {:induction false} LowBitsKept(x: nat, q: nat, n: nat)
    ensures ToBits(x + Shl(q, n), n) == ToBits(x, n)
  {
    if n == 0 {
    } else {
      assert (x + Shl(q, n)) / 2 == x / 2 + Shl(q, n - 1);
      LowBitsKept(x / 2, q, n - 1);
    }
  }

  /** Masking with n ones keeps the low n bits. */
  lemma AndOnes(x: nat, q: nat, r: nat, n: nat)
    requires r < Pow2(n) && x == r + Shl(q, n)
    ensures And(x, Pow2(n) - 1) == r
  {
    var y := And(x, Pow2(n) - 1);
    OnesBits(n, n);
    AndBits(x, Pow2(n) - 1, n);
    assert ToBits(y, n) == ToBits(x, n);
    LowBitsKept(r, q, n);
    AndIsSmaller(x, Pow2(n) - 1);
    ToBitsInjective(y, r, n);
  }

  lemma AndFF(x: nat)
    ensures And(x, 0xFF) == x % 0x100
  {
    Shl8(x / 0x100);
    SixteenBits();
    AndOnes(x, x / 0x100, x % 0x100, 8);
  }

  /** The i-th octet of an address, in network order. */
  function AddrOctet(s: Segments, i: nat): Octet
    requires i < 16
  {
    if i % 2 == 0 then HighOctet(s[i / 2]) else LowOctet(s[i / 2])
  }

  lemma {:induction false} ToBitsSplit(x: nat, n: nat, m: nat)
    ensures ToBits(x, n + m) == ToBits(Shr(x, m), n) + ToBits(x, m)
  {
    if m == 0 {
    } else {
      ToBitsSplit(x / 2, n, m - 1);
    }
  }

  lemma WordOctets(w: Word)
    ensures ToBits(w, 16) == ToBits(HighOctet(w), 8) + ToBits(LowOctet(w), 8)
  {
    ToBitsSplit(w, 8, 8);
    Shr8(w);
    Shl8(w / 0x100);
    LowBitsKept(w % 0x100, w / 0x100, 8);
  }

  /** Octet i of an address is its bits 8i to 8i+7. */
  lemma OctetBits(s: Segments, i: nat)
    requires i < 16
    ensures AddrBits(s)[8 * i..8 * i + 8] == ToBits(AddrOctet(s, i), 8)
  {
    var q := i / 2;
    WordAt(s, q);
    WordOctets(s[q]);
    HalfOfSlice(AddrBits(s), q, ToBits(HighOctet(s[q]), 8), ToBits(LowOctet(s[q]), 8));
    if i % 2 == 0 {
      assert 8 * i == 16 * q;
    } else {
      assert 8 * i == 16 * q + 8;
    }
  }

  lemma HalfOfSlice(b: Bits, q: nat, hi: Bits, lo: Bits)
    requires 16 * q + 16 <= |b| && |hi| == |lo| == 8
    requires b[16 * q..16 * q + 16] == hi + lo
    ensures b[16 * q..16 * q + 8] == hi && b[16 * q + 8..16 * q + 16] == lo
  {
    var w := b[16 * q..16 * q + 16];
    assert w[..8] == hi && w[8..] == lo;
    assert b[16 * q..16 * q + 8] == w[..8] && b[16 * q + 8..16 * q + 16] == w[8..];
  }

  function WordOf(hi: Octet, lo: Octet): Word {
    hi * 0x100 + lo
  }

  /** The address with the given octets. */
  function FromOctets(o: seq<Octet>): (s: Segments)
    requires |o| == 16
    ensures forall i :: 0 <= i < 16 ==> AddrOctet(s, i) == o[i]
  {
    seq(8, k requires 0 <= k < 8 => WordOf(o[2 * k], o[2 * k + 1]))
  }

  lemma OctetsInjective(s: Segments, t: Segments)
    requires forall i :: 0 <= i < 16 ==> AddrOctet(s, i) == AddrOctet(t, i)
    ensures s == t
  {
    forall k | 0 <= k < 8
      ensures s[k] == t[k]
    {
      assert AddrOctet(s, 2 * k) == AddrOctet(t, 2 * k) && AddrOctet(s, 2 * k + 1) == AddrOctet(t, 2 * k + 1);
    }
  }

  // ---------------------------------------------------------------------------------------------
  // The embedded IPv4 address
  // ---------------------------------------------------------------------------------------------

  predicate IsEmbeddingLength(len: nat) {
    len == 32 || len == 40 || len == 48 || len == 56 || len == 64 || len == 96
  }

  /** RFC 6052, section 2.2: the octets of the address that hold the four octets of the IPv4 address. */
  function V4Octets(len: nat): seq<nat>
    requires IsEmbeddingLength(len)
  {
    if len == 32 then [4, 5, 6, 7]
    else if len == 40 then [5, 6, 7, 9]
    else if len == 48 then [6, 7, 9, 10]
    else if len == 56 then [7, 9, 10, 11]
    else if len == 64 then [9, 10, 11, 12]
    else [12, 13, 14, 15]
  }

  function Decoded(s: Segments, len: nat): Ipv4
    requires IsEmbeddingLength(len)
  {
    var t := V4Octets(len);
    Ipv4(AddrOctet(s, t[0]), AddrOctet(s, t[1]), AddrOctet(s, t[2]), AddrOctet(s, t[3]))
  }

  /** The bits of the address that hold the k-th bit of the IPv4 address: octet 8 is jumped over. */
  function V4Bit(len: nat, k: nat): nat {
    if len + k < 64 || len >= 72 then len + k else len + k + 8
  }

  function Gathered(b: Bits, len: nat, n: nat): (g: Bits)
    requires |b| == 128 && IsEmbeddingLength(len) && n <= 32
    ensures |g| == n
  {
    seq(n, k requires 0 <= k < n => b[V4Bit(len, k)])
  }

  function V4Value(v4: Ipv4): nat {
    ((v4.a * 0x100 + v4.b) * 0x100 + v4.c) * 0x100 + v4.d
  }

  /** `Ipv4Addr::from(u32)` */
  function V4From(x: nat): Ipv4
    requires x < 0x1_0000_0000
  {
    Ipv4(x / 0x100 / 0x100 / 0x100, x / 0x100 / 0x100 % 0x100, x / 0x100 % 0x100, x % 0x100)
  }

  lemma V4FromValue(v4: Ipv4)
    ensures V4Value(v4) < 0x1_0000_0000 && V4From(V4Value(v4)) == v4
  {
    var ab := v4.a * 0x100 + v4.b;
    var abc := ab * 0x100 + v4.c;
    assert V4Value(v4) / 0x100 == abc && V4Value(v4) % 0x100 == v4.d;
    assert abc / 0x100 == ab && abc % 0x100 == v4.c;
    assert ab / 0x100 == v4.a && ab % 0x100 == v4.b;
  }

  lemma FourOctets(a: Octet, b: Octet, c: Octet, d: Octet)
    ensures
      FromBits(ToBits(a, 8) + ToBits(b, 8) + ToBits(c, 8) + ToBits(d, 8)) == V4Value(Ipv4(a, b, c, d))
  {
    SixteenBits();
    FromToBits(a, 8);
    FromToBits(b, 8);
    FromToBits(c, 8);
    FromToBits(d, 8);
    FromBitsAppend(ToBits(a, 8), ToBits(b, 8));
    FromBitsAppend(ToBits(a, 8) + ToBits(b, 8), ToBits(c, 8));
    FromBitsAppend(ToBits(a, 8) + ToBits(b, 8) + ToBits(c, 8), ToBits(d, 8));
    Shl8(a);
    Shl8(0x100 * a + b);
    Shl8(0x100 * (0x100 * a + b) + c);
  }

  lemma V4BitInOctet(len: nat, j: nat, i: nat)
    requires IsEmbeddingLength(len) && j < 4 && i < 8
    ensures V4Bit(len, 8 * j + i) == 8 * V4Octets(len)[j] + i
  {}

  lemma GatheredOctet(s: Segments, len: nat, j: nat)
    requires IsEmbeddingLength(len) && j < 4
    ensures Gathered(AddrBits(s), len, 32)[8 * j..8 * j + 8] == ToBits(AddrOctet(s, V4Octets(len)[j]), 8)
  {
    var b, o := AddrBits(s), V4Octets(len)[j];
    var g := Gathered(b, len, 32);
    var l, r := g[8 * j..8 * j + 8], b[8 * o..8 * o + 8];
    forall i | 0 <= i < 8
      ensures l[i] == r[i]
    {
      V4BitInOctet(len, j, i);
      assert l[i] == g[8 * j + i] == b[V4Bit(len, 8 * j + i)];
    }
    assert l == r;
    OctetBits(s, o);
  }

  /** The gathered bits are the octets of the RFC's table. */
  lemma GatheredIsTable(s: Segments, len: nat)
    requires IsEmbeddingLength(len)
    ensures FromBits(Gathered(AddrBits(s), len, 32)) == V4Value(Decoded(s, len))
  {
    var g := Gathered(AddrBits(s), len, 32);
    var v4 := Decoded(s, len);
    assert g[0..8] == ToBits(v4.a, 8) by { GatheredOctet(s, len, 0); }
    assert g[8..16] == ToBits(v4.b, 8) by { GatheredOctet(s, len, 1); }
    assert g[16..24] == ToBits(v4.c, 8) by { GatheredOctet(s, len, 2); }
    assert g[24..32] == ToBits(v4.d, 8) by { GatheredOctet(s, len, 3); }
    assert g == g[0..8] + g[8..16] + g[16..24] + g[24..32];
    FourOctets(v4.a, v4.b, v4.c, v4.d);
  }

  lemma GatheredDecodes(s: Segments, len: nat, acc: nat)
    requires IsEmbeddingLength(len) && acc == FromBits(Gathered(AddrBits(s), len, 32))
    ensures acc < 0x1_0000_0000 && V4From(acc) == Decoded(s, len)
  {
    GatheredIsTable(s, len);
    V4FromValue(Decoded(s, len));
  }

  /** The 128-bit word: the segments shifted into place and or-ed from left to right. */
  function Assembled(s: Segments): nat {
    Or(Or(Or(Or(Or(Or(Or(Shl(s[0], 112), Shl(s[1], 96)), Shl(s[2], 80)), Shl(s[3], 64)),
                Shl(s[4], 48)), Shl(s[5], 32)), Shl(s[6], 16)), s[7])
  }

  lemma JoinNext(s: Segments, i: nat)
    requires 0 < i < 8
    ensures Or(Shl(FromBits(WordBits(s[..i])), 128 - 16 * i), Shl(s[i], 112 - 16 * i))
         == Shl(FromBits(WordBits(s[..i + 1])), 112 - 16 * i)
  {
    SixteenBits();
    FromToBits(s[i], 16);
    assert s[..i + 1][..i] == s[..i];
    OrJoins(WordBits(s[..i]), ToBits(s[i], 16), 112 - 16 * i);
  }

  lemma AssembledIsBits(s: Segments)
    ensures Assembled(s) == FromBits(AddrBits(s))
  {
    SixteenBits();
    FromToBits(s[0], 16);
    assert WordBits(s[..1]) == ToBits(s[0], 16) by {
      assert s[..1][..0] == [];
      assert WordBits([]) == [];
    }
    JoinNext(s, 1);
    JoinNext(s, 2);
    JoinNext(s, 3);
    JoinNext(s, 4);
    JoinNext(s, 5);
    JoinNext(s, 6);
    JoinNext(s, 7);
    assert s[..8] == s;
  }

  method Assemble(s: Segments) returns (bits: nat)
    ensures bits == FromBits(AddrBits(s))
  {
    AssembledIsBits(s);
    bits := Assembled(s);
  }

  /** `(bits >> (127 - pos)) & 1` */
  lemma BitAt(b: Bits, pos: nat)
    requires pos < |b|
    ensures And(Shr(FromBits(b), |b| - 1 - pos), 1) == if b[pos] then 1 else 0
  {
    AndOne(Shr(FromBits(b), |b| - 1 - pos));
    ShrBit(b, |b| - 1 - pos);
  }

  /** `(v4 << 1) | bit` */
  lemma PushBit(g: Bits, x: bool)
    ensures Or(Shl(FromBits(g), 1), if x then 1 else 0) == FromBits(g + [x])
  {
    assert Pow2(1) == 2;
    OrShifted(FromBits(g), 1, if x then 1 else 0);
    assert Shl(FromBits(g), 1) == 2 * Shl(FromBits(g), 0) == 2 * FromBits(g);
    assert (g + [x])[..|g|] == g;
  }

  lemma GatherNext(b: Bits, len: nat, n: nat)
    requires |b| == 128 && IsEmbeddingLength(len) && n < 32
    ensures Gathered(b, len, n + 1) == Gathered(b, len, n) + [b[V4Bit(len, n)]]
  {}

  /** The extraction loop: 32 bits from the prefix on, jumping over bits 64 to 71, never past bit 127. */
  method DecodeEmbeddedV4(segments: Segments, prefixLen: nat) returns (v4: Ipv4)
    requires IsEmbeddingLength(prefixLen)
    ensures v4 == Decoded(segments, prefixLen)
  {
    var bits := Assemble(segments);
    ghost var b := AddrBits(segments);
    var acc: nat, taken: nat, pos: nat := 0, 0, prefixLen;
    while taken < 32
      invariant taken <= 32
      invariant pos == V4Bit(prefixLen, taken) || (pos == 64 == prefixLen + taken)
      invariant acc == FromBits(Gathered(b, prefixLen, taken))
      decreases 32 - taken, if pos == 64 then 1 else 0
    {
      if 64 <= pos < 72 {
        pos := 72;
        continue;
      }
      assert pos <= 127;
      var bit := And(Shr(bits, 127 - pos), 1);
      assert Or(Shl(acc, 1), bit) == FromBits(Gathered(b, prefixLen, taken + 1)) by {
        BitAt(b, pos);
        PushBit(Gathered(b, prefixLen, taken), b[pos]);
        GatherNext(b, prefixLen, taken);
      }
      acc := Or(Shl(acc, 1), bit);
      taken := taken + 1;
      pos := pos + 1;
    }
    GatheredDecodes(segments, prefixLen, acc);
    v4 := V4From(acc);
  }

  /** The address that embeds `v4` under a prefix: octet 8 and what follows the IPv4 octets are zero. */
  function Embed(prefix: Segments, len: nat, v4: Ipv4): Segments
    requires IsEmbeddingLength(len)
  {
    var t := V4Octets(len);
    FromOctets(seq(16, i requires 0 <= i < 16 =>
      if i < len / 8 then AddrOctet(prefix, i)
      else if i == t[0] then v4.a
      else if i == t[1] then v4.b
      else if i == t[2] then v4.c
      else if i == t[3] then v4.d
      else 0))
  }

  /** The octets of an embedding address, one by one. */
  lemma EmbedOctet(prefix: Segments, len: nat, v4: Ipv4, i: nat)
    requires IsEmbeddingLength(len) && i < 16
    ensures
      var t := V4Octets(len);
      AddrOctet(Embed(prefix, len, v4), i) ==
      if i < len / 8 then AddrOctet(prefix, i)
      else if i == t[0] then v4.a
      else if i == t[1] then v4.b
      else if i == t[2] then v4.c
      else if i == t[3] then v4.d
      else 0
  {}

  /** The address with its u-octet and suffix zeroed: only the prefix and the IPv4 octets remain. */
  function WithoutSuffix(s: Segments, len: nat): Segments
    requires IsEmbeddingLength(len)
  {
    var t := V4Octets(len);
    FromOctets(seq(16, i requires 0 <= i < 16 =>
      if i < len / 8 || i == t[0] || i == t[1] || i == t[2] || i == t[3] then AddrOctet(s, i) else 0))
  }

  lemma DecodeOfEmbed(prefix: Segments, len: nat, v4: Ipv4)
    requires IsEmbeddingLength(len)
    ensures Decoded(Embed(prefix, len, v4), len) == v4
  {}

  lemma EmbedOfDecode(s: Segments, len: nat)
    requires IsEmbeddingLength(len)
    ensures Embed(s, len, Decoded(s, len)) == WithoutSuffix(s, len)
  {
    OctetsInjective(Embed(s, len, Decoded(s, len)), WithoutSuffix(s, len));
  }

  predicate SameOctets(s: Segments, t: Segments, n: nat)
    requires n <= 16
  {
    forall i :: 0 <= i < n ==> AddrOctet(s, i) == AddrOctet(t, i)
  }

  lemma {:induction false} SameTopOctets(s: Segments, t: Segments, n: nat)
    requires n <= 16 && SameOctets(s, t, n)
    ensures AddrBits(s)[..8 * n] == AddrBits(t)[..8 * n]
  {
    if n == 0 {
    } else {
      SameTopOctets(s, t, n - 1);
      OctetBits(s, n - 1);
      OctetBits(t, n - 1);
      var m := 8 * (n - 1);
      assert AddrBits(s)[..8 * n] == AddrBits(s)[..m] + AddrBits(s)[m..m + 8];
      assert AddrBits(t)[..8 * n] == AddrBits(t)[..m] + AddrBits(t)[m..m + 8];
    }
  }

  // ---------------------------------------------------------------------------------------------
  // Network-specific prefixes and the policy list
  // ---------------------------------------------------------------------------------------------

  datatype Prefix = Prefix(masked: Segments, prefixLen: nat)

  /** A configured prefix: its length is one the RFC defines, and nothing is set below it. */
  type Nsp = p: Prefix | IsEmbeddingLength(p.prefixLen) && IsMasked(p) witness ZeroPrefix()

  ghost predicate IsMasked(p: Prefix) {
    Masked(p.masked, p.prefixLen) == p.masked
  }

  function ZeroPrefix(): (p: Prefix)
    ensures p.prefixLen == 32 && IsMasked(p)
  {
    var zero: Segments := [0, 0, 0, 0, 0, 0, 0, 0];
    MaskIsIdempotent(zero, 32);
    Prefix(Masked(zero, 32), 32)
  }

  datatype NspError = BadLength

  function NewNsp(prefix: Segments, prefixLen: nat): Result<Nsp, NspError> {
    MaskIsIdempotent(prefix, prefixLen);
    if IsEmbeddingLength(prefixLen) then Ok(Prefix(Masked(prefix, prefixLen), prefixLen)) else Err(BadLength)
  }

  function NspEmbeddedV4(nsp: Nsp, s: Segments): Option<Ipv4> {
    if Masked(s, nsp.prefixLen) != nsp.masked then None else Some(Decoded(s, nsp.prefixLen))
  }

  /**
   A prefix is built from exactly the lengths of the RFC, and matches exactly the addresses that agree with it
   on its bits.
   */
  lemma NspMatchesIff(prefix: Segments, len: nat, s: Segments)
    ensures NewNsp(prefix, len).Ok? <==> len in {32, 40, 48, 56, 64, 96}
    ensures NewNsp(prefix, len).Ok? ==>
              var nsp := NewNsp(prefix, len).value;
              NspEmbeddedV4(nsp, s).Some? <==> AddrBits(s)[..len] == AddrBits(prefix)[..len]
  {
    if IsEmbeddingLength(len) {
      MaskedEqualIff(s, prefix, len);
    }
  }

  /** Two prefixes are the same one exactly when their lengths and their top bits agree. */
  lemma NspEqualIff(p: Segments, len: nat, q: Segments, len': nat)
    requires IsEmbeddingLength(len) && IsEmbeddingLength(len')
    ensures NewNsp(p, len) == NewNsp(q, len') <==> len == len' && AddrBits(p)[..len] == AddrBits(q)[..len]
  {
    if len == len' {
      MaskedEqualIff(p, q, len);
    }
  }

  lemma EmbedPrefixOctets(prefix: Segments, len: nat, v4: Ipv4)
    requires IsEmbeddingLength(len)
    ensures SameOctets(Embed(prefix, len, v4), prefix, len / 8)
  {}

  lemma EmbedKeepsPrefix(prefix: Segments, len: nat, v4: Ipv4)
    requires IsEmbeddingLength(len)
    ensures AddrBits(Embed(prefix, len, v4))[..len] == AddrBits(prefix)[..len]
  {
    assert len == 8 * (len / 8) && len / 8 <= 16;
    EmbedPrefixOctets(prefix, len, v4);
    SameTopOctets(Embed(prefix, len, v4), prefix, len / 8);
  }

  lemma NspReads(prefix: Segments, len: nat, s: Segments)
    requires IsEmbeddingLength(len) && AddrBits(s)[..len] == AddrBits(prefix)[..len]
    ensures NspEmbeddedV4(NewNsp(prefix, len).value, s) == Some(Decoded(s, len))
  {
    MaskedEqualIff(s, prefix, len);
  }

  /** An address built under a prefix is recognised and read back by that prefix, at every length. */
  lemma NspRoundTrip(prefix: Segments, len: nat, v4: Ipv4)
    requires IsEmbeddingLength(len)
    ensures NspEmbeddedV4(NewNsp(prefix, len).value, Embed(prefix, len, v4)) == Some(v4)
  {
    DecodeOfEmbed(prefix, len, v4);
    EmbedKeepsPrefix(prefix, len, v4);
    NspReads(prefix, len, Embed(prefix, len, v4));
  }

  type Policy = seq<Nsp>

  /** The first matching prefix decides. */
  function PolicyEmbeddedV4(policy: Policy, s: Segments): Option<Ipv4> {
    FindMap(policy, nsp => NspEmbeddedV4(nsp, s))
  }

  /** What a policy decodes is settled before anything appended to it is asked. */
  lemma AppendKeepsDecoding(p: Policy, q: Policy, s: Segments)
    ensures PolicyEmbeddedV4(p, s).Some? ==> PolicyEmbeddedV4(p + q, s) == PolicyEmbeddedV4(p, s)
    ensures PolicyEmbeddedV4(p, s).None? ==> PolicyEmbeddedV4(p + q, s) == PolicyEmbeddedV4(q, s)
  {
    FindMapAppend(p, q, nsp => NspEmbeddedV4(nsp, s));
  }

  /** Agreeing in the first n octets is agreeing in the first 8n bits. */
  lemma SameOctetsIff(s: Segments, t: Segments, n: nat)
    requires n <= 16
    ensures SameOctets(s, t, n) <==> AddrBits(s)[..8 * n] == AddrBits(t)[..8 * n]
  {
    if SameOctets(s, t, n) {
      SameTopOctets(s, t, n);
    } else if AddrBits(s)[..8 * n] == AddrBits(t)[..8 * n] {
      OctetsOfTop(s, t, n);
    }
  }

  /** A prefix matches the addresses that share its octets. */
  lemma MatchesIff(p: Nsp, s: Segments)
    ensures NspEmbeddedV4(p, s) == if SameOctets(s, p.masked, p.prefixLen / 8) then Some(Decoded(s, p.prefixLen))
                else None
  {
    var n := p.prefixLen / 8;
    assert p.prefixLen == 8 * n && n <= 16;
    MaskedEqualIff(s, p.masked, 8 * n);
    SameOctetsIff(s, p.masked, n);
  }

  lemma OctetsOfTop(s: Segments, t: Segments, n: nat)
    requires n <= 16 && AddrBits(s)[..8 * n] == AddrBits(t)[..8 * n]
    ensures SameOctets(s, t, n)
  {
    forall i | 0 <= i < n
      ensures AddrOctet(s, i) == AddrOctet(t, i)
    {
      OctetInTop(s, n, i);
      OctetInTop(t, n, i);
      SixteenBits();
      ToBitsInjective(AddrOctet(s, i), AddrOctet(t, i), 8);
    }
  }

  lemma OctetInTop(s: Segments, n: nat, i: nat)
    requires i < n <= 16
    ensures AddrBits(s)[..8 * n][8 * i..8 * i + 8] == ToBits(AddrOctet(s, i), 8)
  {
    OctetBits(s, i);
    assert AddrBits(s)[..8 * n][8 * i..8 * i + 8] == AddrBits(s)[8 * i..8 * i + 8];
  }

  function Shorter(p: Nsp, q: Nsp): nat {
    if p.prefixLen <= q.prefixLen then p.prefixLen else q.prefixLen
  }

  /** Two prefixes overlap when their bits agree up to the length of the shorter one. */
  predicate Overlap(p: Nsp, q: Nsp) {
    AddrBits(p.masked)[..Shorter(p, q)] == AddrBits(q.masked)[..Shorter(p, q)]
  }

  lemma OverlapIsSameOctets(p: Nsp, q: Nsp)
    ensures Overlap(p, q) <==> SameOctets(p.masked, q.masked, Shorter(p, q) / 8)
  {
    var n := Shorter(p, q) / 8;
    assert Shorter(p, q) == 8 * n && n <= 16;
    SameOctetsIff(p.masked, q.masked, n);
  }

  /** That is: some address falls under both. */
  lemma OverlapIff(p: Nsp, q: Nsp)
    ensures Overlap(p, q) <==> exists s: Segments :: NspEmbeddedV4(p, s).Some? && NspEmbeddedV4(q, s).Some?
  {
    OverlapIsSameOctets(p, q);
    var longer := if p.prefixLen <= q.prefixLen then q else p;
    MatchesIff(p, longer.masked);
    MatchesIff(q, longer.masked);
    forall s: Segments | NspEmbeddedV4(p, s).Some? && NspEmbeddedV4(q, s).Some?
      ensures Overlap(p, q)
    {
      MatchesIff(p, s);
      MatchesIff(q, s);
    }
  }

  /** Overlapping prefixes of one length are one prefix. */
  lemma SameLengthOverlap(p: Nsp, q: Nsp)
    requires p.prefixLen == q.prefixLen && Overlap(p, q)
    ensures p == q
  {
    MaskedEqualIff(p.masked, q.masked, p.prefixLen);
  }

  predicate NonOverlapping(policy: Policy) {
    forall i, k :: 0 <= i < k < |policy| ==> !Overlap(policy[i], policy[k])
  }

  lemma AtMostOneMatches(policy: Policy, s: Segments, i: nat, k: nat)
    requires NonOverlapping(policy) && i < |policy| && k < |policy|
    requires NspEmbeddedV4(policy[i], s).Some? && NspEmbeddedV4(policy[k], s).Some?
    ensures i == k
  {
    if i < k {
      OverlapIff(policy[i], policy[k]);
    } else if k < i {
      OverlapIff(policy[k], policy[i]);
    }
  }

  /** The order of prefixes that do not overlap is irrelevant. */
  lemma OrderIsIrrelevant(p: Policy, q: Policy, s: Segments)
    requires NonOverlapping(p) && multiset(p) == multiset(q)
    ensures PolicyEmbeddedV4(p, s) == PolicyEmbeddedV4(q, s)
  {
    forall i, k | 0 <= i < k < |p| && NspEmbeddedV4(p[i], s).Some?
      ensures NspEmbeddedV4(p[k], s).None?
    {
      if NspEmbeddedV4(p[k], s).Some? {
        AtMostOneMatches(p, s, i, k);
      }
    }
    FindMapPermuted(p, q, nsp => NspEmbeddedV4(nsp, s));
  }

  /** A policy whose prefixes do not overlap decodes by whichever of them matches, wherever it is listed. */
  lemma MatchDecides(policy: Policy, s: Segments, i: nat)
    requires NonOverlapping(policy) && i < |policy| && NspEmbeddedV4(policy[i], s).Some?
    ensures PolicyEmbeddedV4(policy, s) == NspEmbeddedV4(policy[i], s)
  {
    var k := FindMapIsFirst(policy, nsp => NspEmbeddedV4(nsp, s));
    AtMostOneMatches(policy, s, i, k);
  }
}
