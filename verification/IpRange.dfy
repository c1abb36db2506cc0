/** Address enumeration of services/discovery/iprange.go: big-endian increment and CIDR blocks. */
module IpRange {
  import opened Bytes
  import opened Powers

  /** The number a big-endian byte string stands for. */
  function Value(s: Bytes): nat {
    if s == [] then 0 else Value(s[..|s| - 1]) * 256 + s[|s| - 1]
  }

  function Inc(s: Bytes): (r: Bytes)
    ensures |r| == |s|
  {
    if s == [] then []
    else
      var n := |s| - 1;
      if s[n] < 255 then s[..n] + [s[n] + 1] else Inc(s[..n]) + [0]
  }

  /** The successor increments the last byte that is not 255 and clears those behind it; j is its place, or -1. */
  lemma {:induction false} IncByPlace(s: Bytes, t: Bytes, j: int)
    requires |s| == |t| && -1 <= j < |s|
    requires forall k :: 0 <= k < j ==> t[k] == s[k]
    requires j >= 0 ==> s[j] < 255 && t[j] == s[j] + 1
    requires forall k :: j < k < |s| ==> s[k] == 255 && t[k] == 0
    ensures t == Inc(s)
  {
    var n := |s| - 1;
    if n >= 0 && j < n {
      IncByPlace(s[..n], t[..n], j);
      assert t == t[..n] + [0];
    } else if n >= 0 {
      assert t == s[..n] + [s[n] + 1];
    }
  }

  method IncIP(ip: array<Byte>)
    modifies ip
    ensures ip[..] == Inc(old(ip[..]))
  {
    hide Inc;
    var j := ip.Length - 1;
    ghost var was := ip[..];
    while j >= 0
      invariant -1 <= j < ip.Length
      invariant forall k :: 0 <= k <= j ==> ip[k] == was[k]
      invariant forall k :: j < k < ip.Length ==> was[k] == 255 && ip[k] == 0
    {
      ip[j] := if ip[j] == 255 then 0 else ip[j] + 1;
      if ip[j] > 0 {
        break;
      }
      j := j - 1;
    }
    IncByPlace(was, ip[..], j);
  }

  lemma {:induction false} ValueBound(s: Bytes)
    ensures Value(s) < Pow2(8 * |s|)
  {
    if s != [] {
      var n := |s| - 1;
      ValueBound(s[..n]);
      ByteMore(n);
      hide Pow2;
    }
  }

  lemma {:induction false} IncValue(s: Bytes)
    ensures Value(Inc(s)) == if Value(s) + 1 == Pow2(8 * |s|) then 0 else Value(s) + 1
  {
    if s != [] {
      var n := |s| - 1;
      var head, next := s[..n], Inc(s);
      assert next == if s[n] < 255 then head + [s[n] + 1] else Inc(head) + [0];
      assert s == head + [s[n]];
      hide Value, Inc, Pow2;
      IncValue(head);
      ValueBound(head);
      ByteMore(n);
      ValueSnoc(head, s[n]);
      if s[n] < 255 {
        ValueSnoc(head, s[n] + 1);
      } else {
        ValueSnoc(Inc(head), 0);
      }
    }
  }

  lemma ValueSnoc(s: Bytes, b: Byte)
    ensures Value(s + [b]) == Value(s) * 256 + b
  {
    assert (s + [b])[..|s|] == s;
  }

  lemma ByteMore(n: nat)
    ensures Pow2(8 * (n + 1)) == Pow2(8 * n) * 256
  {
    Pow2Add(8 * n, 8);
    assert Pow2(8) == 256;
  }

  lemma ModSmall(x: nat, m: nat)
    requires x < m
    ensures x % m == x
  {
  }

  lemma ModSelf(m: nat)
    requires m > 0
    ensures m % m == 0
  {
  }

  /** The increment is +1 modulo 256^n. */
  lemma IncIsPlusOne(s: Bytes)
    ensures Value(Inc(s)) == (Value(s) + 1) % Pow2(8 * |s|)
  {
    hide Value, Inc, Pow2;
    IncValue(s);
    ValueBound(s);
    if Value(s) + 1 == Pow2(8 * |s|) {
      ModSelf(Pow2(8 * |s|));
    } else {
      ModSmall(Value(s) + 1, Pow2(8 * |s|));
    }
  }

  // ----- Masks -----

  /** Bitwise and. */
  function And(x: nat, y: nat): (r: nat)
    ensures r <= x
  {
    if x == 0 || y == 0 then 0 else 2 * And(x / 2, y / 2) + (x % 2) * (y % 2)
  }

  /** A byte whose k leading bits are ones. */
  function MaskByte(k: nat): Byte
    requires k <= 8
  {
    Pow2Of8(k);
    256 - Pow2(8 - k)
  }

  lemma Pow2Of8(k: nat)
    requires k <= 8
    ensures 1 <= Pow2(8 - k) <= 256 && Pow2(8) == 256
  {
    Pow2Monotone(8 - k, 8);
    assert Pow2(8) == 256;
  }

  /** Of p leading ones, those that fall into byte i. */
  function OnesIn(p: nat, i: nat): (k: nat)
    ensures k <= 8
  {
    if p <= 8 * i then 0 else if p >= 8 * i + 8 then 8 else p - 8 * i
  }

  function CidrMask(p: nat, n: nat): (m: Bytes)
    ensures |m| == n
    ensures forall i :: 0 <= i < n ==> m[i] == MaskByte(OnesIn(p, i))
  {
    if n == 0 then [] else CidrMask(p, n - 1) + [MaskByte(OnesIn(p, n - 1))]
  }

  function Masked(ip: Bytes, mask: Bytes): (r: Bytes)
    requires |ip| == |mask|
    ensures |r| == |ip|
  {
    if ip == [] then []
    else
      var n := |ip| - 1;
      Masked(ip[..n], mask[..n]) + [And(ip[n], mask[n])]
  }

  lemma AndStep(x: nat, y: nat, b: nat)
    requires b < 2
    ensures And(x, 2 * y + b) == 2 * And(x / 2, y) + (x % 2) * b
  {
    assert (2 * y + b) / 2 == y && (2 * y + b) % 2 == b;
  }

  /** The largest multiple of m that is at most v. */
  function RoundDown(v: nat, m: nat): (r: nat)
    requires m > 0
    ensures r <= v < r + m
  {
    v - v % m
  }

  lemma Pow2Step(w: nat)
    requires w > 0
    ensures Pow2(w) == 2 * Pow2(w - 1) && Pow2(0) == 1
  {
  }

  /** Clearing the low bits: and with a run of ones above the lowest j bits. */
  lemma {:induction false} AndHigh(x: nat, w: nat, j: nat)
    requires x < Pow2(w) && j <= w
    ensures Pow2(j) <= Pow2(w) && And(x, Pow2(w) - Pow2(j)) == RoundDown(x, Pow2(j))
  {
    hide And, Pow2, RoundDown;
    Pow2Monotone(j, w);
    if j == w {
      RoundUnique(x, Pow2(w), 0);
      AndZero(x);
    } else {
      Pow2Step(w);
      Half(x, Pow2(w - 1));
      if j == 0 {
        AndHigh(x / 2, w - 1, 0);
        AllOnes(x, Pow2(w - 1));
        RoundToOne(x);
        RoundToOne(x / 2);
      } else {
        Pow2Step(j);
        AndHigh(x / 2, w - 1, j - 1);
        ZeroBelow(x, Pow2(w - 1) - Pow2(j - 1));
        RoundTwice(x, Pow2(j - 1));
      }
    }
  }

  lemma Half(x: nat, half: nat)
    requires x < 2 * half
    ensures x / 2 < half
  {
  }

  lemma AllOnes(x: nat, half: nat)
    requires half > 0 && And(x / 2, half - 1) == x / 2
    ensures And(x, 2 * half - 1) == x
  {
    hide And;
    AndStep(x, half - 1, 1);
  }

  lemma ZeroBelow(x: nat, y: nat)
    ensures And(x, 2 * y) == 2 * And(x / 2, y)
  {
    hide And;
    AndStep(x, y, 0);
  }

  lemma RoundTwice(x: nat, m: nat)
    requires m > 0
    ensures RoundDown(x, 2 * m) == 2 * RoundDown(x / 2, m)
  {
    ModTwice(x, m);
  }

  lemma AndZero(x: nat)
    ensures And(x, 0) == 0
  {
  }

  lemma ModTwice(x: nat, m: nat)
    requires m > 0
    ensures x % (2 * m) == 2 * (x / 2 % m) + x % 2
  {
    var q, r := x / 2 / m, x / 2 % m;
    assert x == 2 * (q * m + r) + x % 2;
    ModUnique(x, 2 * m, q, 2 * r + x % 2);
  }

  lemma MaskByteClears(x: Byte, k: nat)
    requires k <= 8
    ensures And(x, MaskByte(k)) == RoundDown(x, Pow2(8 - k))
  {
    hide And, Pow2;
    Pow2Of8(k);
    AndHigh(x, 8, 8 - k);
  }

  lemma RoundToOne(x: nat)
    ensures RoundDown(x, Pow2(0)) == x
  {
    assert Pow2(0) == 1;
  }

  lemma {:induction false} FullMask(ip: Bytes, p: nat)
    requires p >= 8 * |ip|
    ensures Masked(ip, CidrMask(p, |ip|)) == ip
  {
    hide And, MaskByte, RoundDown, CidrMask, Pow2;
    if ip != [] {
      var n := |ip| - 1;
      FullMask(ip[..n], p);
      assert CidrMask(p, n + 1)[..n] == CidrMask(p, n) && CidrMask(p, n + 1)[n] == MaskByte(8);
      MaskByteClears(ip[n], 8);
      RoundToOne(ip[n]);
      assert ip == ip[..n] + [ip[n]];
    }
  }

  /** Masking rounds the address down to a multiple of the block size. */
  lemma {:induction false} MaskedValue(ip: Bytes, p: nat)
    requires p <= 8 * |ip|
    ensures Value(Masked(ip, CidrMask(p, |ip|))) == RoundDown(Value(ip), Pow2(8 * |ip| - p))
  {
    hide *;
    if ip == [] {
      MaskedNothing(ip);
    } else if p <= 8 * (|ip| - 1) {
      MaskedValue(ip[..|ip| - 1], p);
      MaskedCoarse(ip, p);
    } else {
      MaskedFine(ip, p);
    }
  }

  lemma MaskedNothing(ip: Bytes)
    requires ip == []
    ensures Value(Masked(ip, CidrMask(0, |ip|))) == RoundDown(Value(ip), Pow2(0))
  {
    assert Pow2(0) == 1;
  }

  lemma LastByte(ip: Bytes, p: nat)
    requires ip != []
    ensures Value(ip) == Value(ip[..|ip| - 1]) * 256 + ip[|ip| - 1]
    ensures p <= 8 * (|ip| - 1) ==> OnesIn(p, |ip| - 1) == 0
    ensures 8 * (|ip| - 1) < p <= 8 * |ip| ==> OnesIn(p, |ip| - 1) == p - 8 * (|ip| - 1)
  {
  }

  lemma MaskedCoarse(ip: Bytes, p: nat)
    requires ip != [] && p <= 8 * (|ip| - 1)
    requires Value(Masked(ip[..|ip| - 1], CidrMask(p, |ip| - 1)))
          == RoundDown(Value(ip[..|ip| - 1]), Pow2(8 * (|ip| - 1) - p))
    ensures Value(Masked(ip, CidrMask(p, |ip|))) == RoundDown(Value(ip), Pow2(8 * |ip| - p))
  {
    hide *;
    var n := |ip| - 1;
    LastByte(ip, p);
    MaskedLast(ip, p);
    MaskByteClears(ip[n], 0);
    BlockSize(8 * n - p, 8);
    assert 8 * n - p + 8 == 8 * |ip| - p;
    CoarseRound(Value(ip[..n]), ip[n], Pow2(8 * n - p));
  }

  lemma MaskedFine(ip: Bytes, p: nat)
    requires ip != [] && 8 * (|ip| - 1) < p <= 8 * |ip|
    ensures Value(Masked(ip, CidrMask(p, |ip|))) == RoundDown(Value(ip), Pow2(8 * |ip| - p))
  {
    hide *;
    var n := |ip| - 1;
    var j := 8 * |ip| - p;
    LastByte(ip, p);
    MaskedLast(ip, p);
    MaskByteClears(ip[n], 8 - j);
    FullMask(ip[..n], p);
    BlockSize(j, 8 - j);
    FineRound(Value(ip[..n]), ip[n], Pow2(j), Pow2(8 - j));
  }

  lemma BlockSize(a: nat, b: nat)
    ensures b == 8 ==> Pow2(a + b) == Pow2(a) * 256 && Pow2(b) == 256
    ensures a + b == 8 ==> Pow2(a) * Pow2(b) == 256
  {
    Pow2Add(a, b);
    Pow2Of8(0);
  }

  /** The value of a masked address: its upper bytes masked, and its last byte. */
  lemma MaskedLast(ip: Bytes, p: nat)
    requires ip != []
    ensures var n := |ip| - 1;
            Value(Masked(ip, CidrMask(p, n + 1)))
              == Value(Masked(ip[..n], CidrMask(p, n))) * 256 + And(ip[n], MaskByte(OnesIn(p, n)))
  {
    hide And, MaskByte, OnesIn;
    var n := |ip| - 1;
    var upper, last := Masked(ip[..n], CidrMask(p, n)), And(ip[n], MaskByte(OnesIn(p, n)));
    assert CidrMask(p, n + 1)[..n] == CidrMask(p, n);
    assert Masked(ip, CidrMask(p, n + 1)) == upper + [last];
    assert (upper + [last])[..n] == upper;
  }

  lemma RoundUnique(x: nat, m: nat, q: nat)
    requires m > 0 && q * m <= x < q * m + m
    ensures RoundDown(x, m) == q * m
  {
    ModUnique(x, m, q, x - q * m);
  }

  /** Blocks of whole lower bytes: the low byte is cleared. */
  lemma CoarseRound(v: nat, x: nat, m: nat)
    requires m > 0 && x < 256
    ensures RoundDown(v * 256 + x, m * 256) == RoundDown(v, m) * 256 + RoundDown(x, 256)
  {
    var q := v / m;
    assert RoundDown(v, m) == q * m;
    RoundUnique(x, 256, 0);
    assert q * (m * 256) == q * m * 256;
    RoundUnique(v * 256 + x, m * 256, q);
  }

  /** Blocks inside the low byte: the upper bytes stay. */
  lemma FineRound(v: nat, x: nat, m: nat, k: nat)
    requires m > 0 && m * k == 256
    ensures RoundDown(v * 256 + x, m) == v * 256 + RoundDown(x, m)
  {
    var q := x / m;
    assert RoundDown(x, m) == q * m;
    assert (v * k + q) * m == v * (m * k) + q * m;
    RoundUnique(v * 256 + x, m, v * k + q);
  }

  lemma {:induction false} ValueInjective(a: Bytes, b: Bytes)
    requires |a| == |b| && Value(a) == Value(b)
    ensures a == b
  {
    if a != [] {
      var n := |a| - 1;
      ValueInjective(a[..n], b[..n]);
      assert a == a[..n] + [a[n]] && b == b[..n] + [b[n]];
    }
  }

  // ----- Blocks -----

  /** The comparison of IPNet.Contains, for an address of the network's length. */
  predicate Contains(net: Bytes, mask: Bytes, ip: Bytes)
    requires |net| == |mask| == |ip|
  {
    forall i :: 0 <= i < |ip| ==> And(net[i], mask[i]) == And(ip[i], mask[i])
  }

  lemma {:induction false} MaskedBytes(ip: Bytes, mask: Bytes, i: nat)
    requires |ip| == |mask| && i < |ip|
    ensures Masked(ip, mask)[i] == And(ip[i], mask[i])
  {
    hide And;
    var n := |ip| - 1;
    if i < n {
      MaskedBytes(ip[..n], mask[..n], i);
    }
  }

  lemma ContainsIsSameMasked(net: Bytes, mask: Bytes, ip: Bytes)
    requires |net| == |mask| == |ip|
    ensures Contains(net, mask, ip) <==> Masked(net, mask) == Masked(ip, mask)
  {
    hide And;
    forall i | 0 <= i < |ip|
      ensures Masked(net, mask)[i] == And(net[i], mask[i]) && Masked(ip, mask)[i] == And(ip[i], mask[i])
    {
      MaskedBytes(net, mask, i);
      MaskedBytes(ip, mask, i);
    }
  }

  /** First address of the block, as a number. */
  function First(net: Bytes, p: nat): nat
    requires p <= 8 * |net|
  {
    RoundDown(Value(net), Pow2(8 * |net| - p))
  }

  lemma SameBlock(a: nat, b: nat, m: nat)
    requires m > 0
    ensures RoundDown(a, m) == RoundDown(b, m) <==> RoundDown(a, m) <= b < RoundDown(a, m) + m
  {
    var q := a / m;
    assert RoundDown(a, m) == q * m;
    if q * m <= b < q * m + m {
      RoundUnique(b, m, q);
    }
  }

  /** The block of a prefix is a run of 2^(8n - p) consecutive addresses. */
  lemma ContainsIsBlock(net: Bytes, p: nat, ip: Bytes)
    requires |net| == |ip| && p <= 8 * |net|
    ensures Contains(net, CidrMask(p, |net|), ip)
       <==> First(net, p) <= Value(ip) < First(net, p) + Pow2(8 * |net| - p)
  {
    hide Contains, CidrMask, Masked, Value, RoundDown, Pow2;
    var mask := CidrMask(p, |net|);
    ContainsIsSameMasked(net, mask, ip);
    MaskedValue(net, p);
    MaskedValue(ip, p);
    if Value(Masked(net, mask)) == Value(Masked(ip, mask)) {
      ValueInjective(Masked(net, mask), Masked(ip, mask));
    }
    SameBlock(Value(net), Value(ip), Pow2(8 * |net| - p));
  }

  // ----- IPv4-mapped addresses -----

  const MAPPED: Bytes := [0, 0, 0, 0, 0, 0, 0, 0, 0, 0, 255, 255, 0, 0, 0, 0]

  const ZEROS: Bytes := [0, 0, 0, 0, 0, 0, 0, 0, 0, 0, 0, 0, 0, 0, 0, 0]

  /** To4 gives an IPv4 address: four bytes, or sixteen that begin like MAPPED. */
  predicate Is4(ip: Bytes) {
    |ip| == 4 || (|ip| == 16 && ip[..12] == MAPPED[..12])
  }

  /** In bytes: an address of sixteen is mapped if it begins with ten zeros and twice 255. */
  lemma Is4Bytes(ip: Bytes)
    requires |ip| == 16
    ensures Is4(ip) <==> (forall i :: 0 <= i < 10 ==> ip[i] == 0) && ip[10] == 255 && ip[11] == 255
  {
    var x, y := ip[..12], MAPPED[..12];
    assert forall i :: 0 <= i < 12 ==> x[i] == ip[i] && y[i] == MAPPED[i];
    if (forall i :: 0 <= i < 10 ==> ip[i] == 0) && ip[10] == 255 && ip[11] == 255 {
      assert forall i :: 0 <= i < 12 ==> x[i] == y[i];
    }
  }

  /** The last n bytes. */
  function Low(ip: Bytes, n: nat): (r: Bytes)
    requires n <= |ip|
    ensures |r| == n
  {
    ip[|ip| - n..]
  }

  /** IPNet.Contains: network and address are converted to IPv4 where possible, and have to agree in length. */
  predicate NetContains(net: Bytes, p: nat, ip: Bytes)
    requires |net| == |ip| && |net| in {4, 16}
  {
    var n := if Is4(net) then 4 else |net|;
    Is4(net) == Is4(ip) && Contains(Low(net, n), Low(CidrMask(p, |net|), n), Low(ip, n))
  }

  lemma AndOnes(x: Byte)
    ensures And(x, 255) == x
  {
    MaskByteClears(x, 8);
    assert MaskByte(8) == 255 && Pow2(0) == 1;
    RoundToOne(x);
  }

  /** A prefix of at least 96 bits fixes the first twelve bytes. */
  lemma LongPrefix(net: Bytes, p: nat, ip: Bytes)
    requires |net| == |ip| == 16 && p >= 96
    ensures Contains(net, CidrMask(p, 16), ip) ==> net[..12] == ip[..12]
    ensures net[..12] == ip[..12] ==>
              (Contains(net, CidrMask(p, 16), ip) <==> Contains(Low(net, 4), Low(CidrMask(p, 16), 4), Low(ip, 4)))
  {
    var mask := CidrMask(p, 16);
    hide And, CidrMask;
    forall i | 0 <= i < 12 ensures And(net[i], mask[i]) == net[i] && And(ip[i], mask[i]) == ip[i] {
      assert mask[i] == MaskByte(8) == 255;
      AndOnes(net[i]);
      AndOnes(ip[i]);
    }
    if Contains(net, mask, ip) {
      forall i | 0 <= i < 12 ensures net[..12][i] == ip[..12][i] {
        assert And(net[i], mask[i]) == And(ip[i], mask[i]);
      }
    }
    if net[..12] == ip[..12] {
      forall i | 0 <= i < 12 ensures net[i] == ip[i] {
        assert net[..12][i] == ip[..12][i];
      }
      LowBytes(net, mask, ip);
    }
  }

  lemma LowBytes(net: Bytes, mask: Bytes, ip: Bytes)
    requires |net| == |ip| == |mask| == 16 && forall i :: 0 <= i < 12 ==> And(net[i], mask[i]) == And(ip[i], mask[i])
    ensures Contains(net, mask, ip) <==> Contains(Low(net, 4), Low(mask, 4), Low(ip, 4))
  {
    hide And;
    if Contains(Low(net, 4), Low(mask, 4), Low(ip, 4)) {
      forall i | 0 <= i < 16 ensures And(net[i], mask[i]) == And(ip[i], mask[i]) {
        if i >= 12 {
          var x, m, y := Low(net, 4), Low(mask, 4), Low(ip, 4);
          assert And(x[i - 12], m[i - 12]) == And(y[i - 12], m[i - 12]);
        }
      }
    }
  }

  function Size(net: Bytes, p: nat): nat
    requires p <= 8 * |net|
  {
    Pow2(8 * |net| - p)
  }

  ghost predicate InBlock(net: Bytes, p: nat, ip: Bytes)
    requires p <= 8 * |net|
  {
    First(net, p) <= Value(ip) < First(net, p) + Size(net, p)
  }

  /** The IPv4-mapped addresses are a block of their own. */
  lemma MappedBlock(ip: Bytes)
    requires |ip| == 16
    ensures Is4(ip) <==> InBlock(MAPPED, 96, ip)
  {
    hide Value, First, Contains;
    ContainsIsBlock(MAPPED, 96, ip);
    LongPrefix(MAPPED, 96, ip);
    if Is4(ip) {
      NoBitsLeft(Low(MAPPED, 4), Low(CidrMask(96, 16), 4), Low(ip, 4));
    }
  }

  lemma NoBitsLeft(net: Bytes, mask: Bytes, ip: Bytes)
    requires |net| == |mask| == |ip| == 4 && mask == Low(CidrMask(96, 16), 4)
    ensures Contains(net, mask, ip)
  {
    hide And, CidrMask;
    forall i | 0 <= i < 4 ensures And(net[i], mask[i]) == And(ip[i], mask[i]) {
      NoOnes(96, 12 + i);
      AndZero(net[i]);
      AndZero(ip[i]);
    }
  }

  lemma AndEven(x: nat, y: nat)
    requires y % 2 == 0
    ensures And(x, y) % 2 == 0
  {
  }

  /** A shorter prefix clears a bit that mapped addresses have. */
  lemma StartNotMapped(net: Bytes, p: nat)
    requires |net| == 16 && p < 96
    ensures !Is4(Masked(net, CidrMask(p, 16)))
  {
    hide *;
    EvenMaskByte(p);
    EvenByte(net, CidrMask(p, 16));
    NotMapped(Masked(net, CidrMask(p, 16)));
  }

  lemma EvenMaskByte(p: nat)
    requires p < 96
    ensures CidrMask(p, 16)[11] % 2 == 0
  {
    hide CidrMask;
    var k := OnesIn(p, 11);
    assert CidrMask(p, 16)[11] == MaskByte(k) && Pow2(8 - k) == 2 * Pow2(7 - k);
  }

  lemma EvenByte(net: Bytes, mask: Bytes)
    requires |net| == |mask| == 16 && mask[11] % 2 == 0
    ensures Masked(net, mask)[11] % 2 == 0
  {
    hide And, Masked;
    MaskedBytes(net, mask, 11);
    AndEven(net[11], mask[11]);
  }

  lemma NotMapped(ip: Bytes)
    requires |ip| == 16 && ip[11] % 2 == 0
    ensures !Is4(ip)
  {
    assert ip[..12][11] == ip[11] && MAPPED[..12][11] == 255;
  }

  // ----- Enumeration -----

  /** The number at which the loop ends: the end of the block, or the mapped addresses if it meets them. */
  function Ends(net: Bytes, p: nat): nat
    requires |net| in {4, 16} && p <= 8 * |net|
  {
    var first, end, mapped := First(net, p), First(net, p) + Size(net, p), First(MAPPED, 96);
    if |net| == 4 || (Is4(net) && p >= 96) then end
    else if Is4(net) then first
    else if first < mapped < end then mapped
    else end
  }

  /** The loop condition, on a network that is not an IPv4 one given with fewer than 96 bits. */
  lemma NetContainsIs(net: Bytes, p: nat, ip: Bytes)
    requires |net| == |ip| && |net| in {4, 16} && p <= 8 * |net|
    ensures |net| == 4 || (Is4(net) && p >= 96) ==> (NetContains(net, p, ip) <==> InBlock(net, p, ip))
    ensures |net| == 16 && !Is4(net) ==> (NetContains(net, p, ip) <==> InBlock(net, p, ip) && !Is4(ip))
  {
    ContainsIsBlock(net, p, ip);
    hide Contains, Value, First, CidrMask;
    if |net| == 4 || !Is4(net) {
      assert Low(net, |net|) == net && Low(ip, |net|) == ip && Low(CidrMask(p, |net|), |net|) == CidrMask(p, |net|);
    } else if p >= 96 {
      LongPrefix(net, p, ip);
    }
  }

  /** Where the enumeration starts. */
  lemma StartOf(net: Bytes, p: nat)
    requires |net| in {4, 16} && p <= 8 * |net|
    ensures var start := Masked(net, CidrMask(p, |net|));
            && Value(start) == First(net, p)
            && (|net| == 16 && p < 96 ==> !Is4(start))
            && (|net| == 16 && p >= 96 ==> (Is4(start) <==> Is4(net)))
            && (|net| == 4 ==> Is4(start))
  {
    var start := Masked(net, CidrMask(p, |net|));
    MaskedValue(net, p);
    if |net| == 16 && p < 96 {
      StartNotMapped(net, p);
    } else if |net| == 16 {
      var mask := CidrMask(p, |net|);
      hide And, Masked, CidrMask, Value;
      forall i | 0 <= i < 12 ensures start[..12][i] == net[..12][i] {
        assert mask[i] == MaskByte(8) == 255;
        AndOnes(net[i]);
        MaskedBytes(net, mask, i);
      }
    }
  }

  /** From the first address of the block on, the loop condition holds exactly up to the end. */
  lemma ContainedUntilEnd(net: Bytes, p: nat, ip: Bytes)
    requires |net| == |ip| && |net| in {4, 16} && p <= 8 * |net| && First(net, p) <= Value(ip) <= Ends(net, p)
    ensures NetContains(net, p, ip) <==> Value(ip) < Ends(net, p)
  {
    NetContainsIs(net, p, ip);
    StartOf(net, p);
    hide NetContains, Value, First, CidrMask, Masked, Pow2, Is4;
    if |net| == 16 && Is4(net) && p < 96 {
      ValueInjective(ip, Masked(net, CidrMask(p, |net|)));
      NotConverted(net, p, ip);
    } else if |net| == 16 && !Is4(net) {
      MappedBlock(ip);
      MappedBlock(Masked(net, CidrMask(p, |net|)));
      UntilMapped(Value(ip), First(net, p), Size(net, p), First(MAPPED, 96), Size(MAPPED, 96));
    }
  }

  /** A run that does not start among the mapped numbers meets them at their first one, if at all. */
  lemma UntilMapped(v: nat, first: nat, size: nat, mapped: nat, count: nat)
    requires size > 0 && count > 0 && !(mapped <= first < mapped + count)
    requires first <= v <= if first < mapped < first + size then mapped else first + size
    ensures v < first + size && !(mapped <= v < mapped + count)
       <==> v < if first < mapped < first + size then mapped else first + size
  {
  }

  lemma NotConverted(net: Bytes, p: nat, ip: Bytes)
    requires |net| == |ip| == 16 && Is4(net) && !Is4(ip)
    ensures !NetContains(net, p, ip)
  {
  }

  /** The listed addresses as numbers, without the ends when there are more than two and they are IPv4 ones. */
  ghost predicate Enumerates(ips: seq<Bytes>, net: Bytes, p: nat)
    requires |net| in {4, 16} && p <= 8 * |net|
  {
    var count := Ends(net, p) - First(net, p);
    var skip := if Is4(net) && count > 2 then 1 else 0;
    && |ips| == count - 2 * skip
    && forall k :: 0 <= k < |ips| ==> |ips[k]| == |net| && Value(ips[k]) == First(net, p) + skip + k
  }

  lemma FirstBounds(net: Bytes, p: nat)
    requires 1 <= p <= 8 * |net|
    ensures First(net, p) + Pow2(8 * |net| - p) <= Pow2(8 * |net|)
    ensures First(net, p) == 0 ==> Pow2(8 * |net| - p) < Pow2(8 * |net|)
  {
    var m, k := Pow2(8 * |net| - p), Pow2(p);
    Pow2Add(8 * |net| - p, p);
    Pow2Monotone(1, p);
    assert Pow2(1) == 2;
    ValueBound(net);
    hide Pow2, Value;
    var q := Multiple(Value(net), m);
    BlockFits(q, m, k);
  }

  lemma Multiple(v: nat, m: nat) returns (q: nat)
    requires m > 0
    ensures RoundDown(v, m) == q * m
  {
    q := v / m;
  }

  lemma MulLe(a: nat, b: nat, m: nat)
    requires a <= b
    ensures a * m <= b * m && b * m == m * b
    ensures (a + 1) * m == a * m + m
  {
    assert (b - a) * m == b * m - a * m;
  }

  lemma BlockFits(q: nat, m: nat, k: nat)
    requires m > 0 && k >= 2 && q * m < m * k
    ensures q * m + m <= m * k && m < m * k
  {
    if k <= q {
      MulLe(k, q, m);
    }
    MulLe(q + 1, k, m);
    MulLe(2, k, m);
  }

  /** The end is reached without passing the largest address, or by wrapping around to one outside the block. */
  lemma EndReachable(net: Bytes, p: nat)
    requires |net| in {4, 16} && p <= 8 * |net| && (|net| == 4 ==> p >= 1)
    ensures First(net, p) <= Ends(net, p) <= Pow2(8 * |net|)
    ensures Ends(net, p) == Pow2(8 * |net|) ==> First(net, p) > 0 && forall ip: Bytes ::
              |ip| == |net| && Value(ip) == 0 ==> !NetContains(net, p, ip)
  {
    hide *;
    EndBounds(net, p);
    if Ends(net, p) == Pow2(8 * |net|) {
      forall ip: Bytes | |ip| == |net| && Value(ip) == 0 ensures !NetContains(net, p, ip) {
        ZeroOutside(net, p, ip);
      }
    }
  }

  lemma EndBounds(net: Bytes, p: nat)
    requires |net| in {4, 16} && p <= 8 * |net| && (|net| == 4 ==> p >= 1)
    ensures First(net, p) <= Ends(net, p) <= Pow2(8 * |net|)
    ensures Ends(net, p) == Pow2(8 * |net|) ==> Ends(net, p) == First(net, p) + Size(net, p) && First(net, p) > 0
  {
    ValueBound(net);
    ValueBound(MAPPED);
    FirstBelow(net, p);
    FirstBelow(MAPPED, 96);
    hide Value, Pow2, First, Is4;
    if p >= 1 {
      FirstBounds(net, p);
    } else {
      WholeRange(net);
    }
  }

  lemma ZeroOutside(net: Bytes, p: nat, ip: Bytes)
    requires |net| == |ip| && |net| in {4, 16} && p <= 8 * |net| && Value(ip) == 0
    requires Ends(net, p) == First(net, p) + Size(net, p) && First(net, p) > 0
    ensures !NetContains(net, p, ip)
  {
    hide Value, First, NetContains, Is4;
    NetContainsIs(net, p, ip);
  }

  lemma {:induction false} ZeroValue(s: Bytes)
    requires forall i :: 0 <= i < |s| ==> s[i] == 0
    ensures Value(s) == 0
  {
    if s != [] {
      ZeroValue(s[..|s| - 1]);
    }
  }

  /** The block of prefix 0 is everything, and the mapped addresses are not at its start. */
  lemma WholeRange(net: Bytes)
    ensures First(net, 0) == 0 && 0 < First(MAPPED, 96)
  {
    ZeroValue(ZEROS);
    NotMapped(ZEROS);
    MappedBlock(ZEROS);
    ValueBound(net);
    hide Value, Pow2;
    RoundUnique(Value(net), Pow2(8 * |net|), 0);
  }

  lemma RoundDownBelow(v: nat, m: nat)
    requires m > 0
    ensures RoundDown(v, m) <= v
  {
  }

  /** collectIPs; addresses are kept as bytes. */
  method CollectIPs(net: Bytes, p: nat) returns (ips: seq<Bytes>)
    requires |net| in {4, 16} && p <= 8 * |net| && (|net| == 4 ==> p >= 1)
    ensures Enumerates(ips, net, p)
  {
    hide Value, Inc, CidrMask, NetContains, Masked, First, Pow2, Ends;
    var start := Masked(net, CidrMask(p, |net|));
    ghost var first, end := First(net, p), Ends(net, p);
    StartOf(net, p);
    ValueBound(start);
    EndReachable(net, p);
    var ip := new Byte[|net|](i requires 0 <= i < |net| => start[i]);
    assert ip[..] == start;
    ips := [];
    while NetContains(net, p, ip[..])
      invariant first + |ips| <= end
      invariant forall k :: 0 <= k < |ips| ==> |ips[k]| == |net| && Value(ips[k]) == first + k
      invariant Value(ip[..]) == if first + |ips| == Pow2(8 * |net|) then 0 else first + |ips|
      decreases end - |ips|
    {
      ContainedUntilEnd(net, p, ip[..]);
      ghost var before := ip[..];
      IncValue(before);
      ips := ips + [ip[..]];
      IncIP(ip);
    }
    if first + |ips| < Pow2(8 * |net|) {
      ContainedUntilEnd(net, p, ip[..]);
    }
    assert first + |ips| == end;
    if Is4(net) && |ips| > 2 {
      ips := ips[1..|ips| - 1];
    }
  }

  /** MAPPED is the first mapped address. */
  lemma MappedFirst()
    ensures First(MAPPED, 96) == Value(MAPPED)
  {
    var mask := CidrMask(96, 16);
    hide And, CidrMask, Masked, Value;
    MaskedValue(MAPPED, 96);
    forall i | 0 <= i < 16 ensures Masked(MAPPED, mask)[i] == MAPPED[i] {
      MaskedBytes(MAPPED, mask, i);
      AndOnes(MAPPED[i]);
      AndNothing(mask[i]);
      assert i < 12 ==> mask[i] == MaskByte(8) == 255;
    }
    assert Masked(MAPPED, mask) == MAPPED;
  }

  lemma AndNothing(y: nat)
    ensures And(0, y) == 0
  {
  }

  /** The loop lists the whole block exactly if the network is IPv4, or its prefix is long or not one of MAPPED. */
  lemma WholeBlock(net: Bytes, p: nat)
    requires |net| in {4, 16} && p <= 8 * |net|
    ensures Ends(net, p) == First(net, p) + Size(net, p)
       <==> |net| == 4 || p >= 96 || !Contains(net, CidrMask(p, 16), MAPPED)
  {
    var start := Masked(net, CidrMask(p, |net|));
    StartOf(net, p);
    MappedFirst();
    if |net| == 16 {
      ContainsIsBlock(net, p, MAPPED);
      hide Value, First, CidrMask, Masked, Pow2, Contains;
      if p >= 96 {
        LongPrefix(net, p, MAPPED);
      } else {
        MappedNet(net, p);
        if Value(start) == Value(MAPPED) {
          ValueInjective(start, MAPPED);
        }
      }
    }
  }

  /** A mapped network has MAPPED in its block when its prefix is short. */
  lemma MappedNet(net: Bytes, p: nat)
    requires |net| == 16 && p < 96
    ensures Is4(net) ==> Contains(net, CidrMask(p, 16), MAPPED)
  {
    var mask := CidrMask(p, 16);
    hide And, CidrMask;
    if Is4(net) {
      forall i | 0 <= i < 16 ensures And(net[i], mask[i]) == And(MAPPED[i], mask[i]) {
        if i < 12 {
          assert net[..12][i] == MAPPED[..12][i];
        } else {
          NoOnes(p, i);
          AndZero(net[i]);
          AndZero(MAPPED[i]);
        }
      }
    }
  }

  lemma NoOnes(p: nat, i: nat)
    requires p <= 8 * i && i < 16
    ensures CidrMask(p, 16)[i] == 0
  {
    hide CidrMask;
    assert Pow2(8) == 256;
    assert CidrMask(p, 16)[i] == MaskByte(0);
  }

  /** The network ::/80: MAPPED is in its block, but the loop stops there. */
  lemma StopsEarly()
    ensures var net := ZEROS;
            && Contains(net, CidrMask(80, 16), MAPPED) && !NetContains(net, 80, MAPPED)
            && First(net, 80) == 0 && Ends(net, 80) == Value(MAPPED) < Size(net, 80)
  {
    hide Value, CidrMask, Masked, Pow2, NetContains, Ends, First;
    ShortZeros();
    ContainsIsBlock(ZEROS, 80, MAPPED);
    NotMapped(ZEROS);
    assert Is4(MAPPED);
    NetContainsIs(ZEROS, 80, MAPPED);
    MappedFirst();
    WholeBlock(ZEROS, 80);
    EndsAtMapped(ZEROS, 80);
    ZeroValue(ZEROS);
    RoundDownBelow(Value(ZEROS), Size(ZEROS, 80));
    assert First(ZEROS, 80) == 0 by { FirstBelow(ZEROS, 80); }
  }

  lemma FirstBelow(net: Bytes, p: nat)
    requires p <= 8 * |net|
    ensures First(net, p) <= Value(net)
  {
    hide Value, Pow2;
    RoundDownBelow(Value(net), Pow2(8 * |net| - p));
  }

  lemma EndsAtMapped(net: Bytes, p: nat)
    requires |net| == 16 && p <= 128 && !Is4(net)
    ensures Ends(net, p) == First(net, p) + Size(net, p) || Ends(net, p) == First(MAPPED, 96)
  {
    hide First, Size;
  }

  lemma ShortZeros()
    ensures Contains(ZEROS, CidrMask(80, 16), MAPPED)
  {
    var mask := CidrMask(80, 16);
    hide And, CidrMask;
    forall i | 0 <= i < 16 ensures And(ZEROS[i], mask[i]) == And(MAPPED[i], mask[i]) {
      if i >= 10 {
        NoOnes(80, i);
        AndZero(ZEROS[i]);
        AndZero(MAPPED[i]);
      }
    }
  }

  /** With prefix 0 the loop condition holds for every IPv4 address, so the loop has no end. */
  lemma ZeroPrefixContainsAll(net: Bytes, ip: Bytes)
    requires |net| == |ip| == 4
    ensures NetContains(net, 0, ip)
  {
    NetContainsIs(net, 0, ip);
    hide NetContains, First;
    WholeRange(net);
    ValueBound(ip);
  }
}
