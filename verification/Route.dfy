/** Longest-prefix route lookup over IPv4 and IPv6 routes. */
module Route {
  import opened Words
  import opened Bits

  const AF_INET: u8 := 2
  const AF_INET6: u8 := 10
  const SEGMENTS: nat := 8
  const SEGMENT_BITS: nat := 16

  type Ipv6 = s: seq<u16> | |s| == SEGMENTS witness [0, 0, 0, 0, 0, 0, 0, 0]

  datatype IpAddr = V4(bits: u32) | V6(segments: Ipv6)

  datatype RouteEntry = RouteEntry(
    family: u8, destination: Option<IpAddr>, dstLen: u8, gateway: Option<IpAddr>, outIfIndex: Option<int>)

  // ---------------------------------------------------------------- masks and bits

  /** The first p bits of two w-bit numbers are the same. */
  ghost predicate SameLeadingBits(w: nat, x: nat, y: nat, p: nat) {
    forall i: nat :: i < w && w - p <= i ==> (Bit(x, i) <==> Bit(y, i))
  }

  /** Numbers with the same bits are equal. */
  lemma {:induction false} SameBits(x: nat, y: nat)
    requires forall i: nat :: Bit(x, i) <==> Bit(y, i)
    ensures x == y
    decreases x + y
  {
    if x + y > 0 {
      assert Bit(x, 0) <==> Bit(y, 0);
      forall i: nat
        ensures Bit(x / 2, i) <==> Bit(y / 2, i)
      {
        assert Bit(x, i + 1) <==> Bit(y, i + 1);
      }
      SameBits(x / 2, y / 2);
    }
  }

  /** All ones shifted left inside a w-bit word. */
  function HighMask(w: nat, shift: nat): nat {
    (Pow2(w) - 1) * Pow2(shift) % Pow2(w)
  }

  lemma HighMaskIsNot(w: nat, shift: nat)
    requires shift < w
    ensures Pow2(shift) <= Pow2(w) && HighMask(w, shift) == Not(w, Pow2(shift) - 1)
  {
    Pow2Strict(shift, w);
    hide Pow2;
    ShiftedOnes(Pow2(w), Pow2(shift));
  }

  lemma ShiftedOnes(m: nat, a: nat)
    requires 0 < a <= m
    ensures (m - 1) * a % m == m - a
  {
    calc {
      (m - 1) * a;
      m * a - a;
      m * (a - 1) + (m - a);
    }
    DivModUnique((m - 1) * a, m, a - 1, m - a);
  }

  lemma {:induction false} LowMaskBits(k: nat, i: nat)
    ensures Bit(Pow2(k) - 1, i) <==> i < k
  {
    if k == 0 {
      BitZero(i);
    } else if i > 0 {
      assert (Pow2(k) - 1) / 2 == Pow2(k - 1) - 1;
      LowMaskBits(k - 1, i - 1);
    }
  }

  lemma HighMaskBits(w: nat, shift: nat, i: nat)
    requires shift < w
    ensures Bit(HighMask(w, shift), i) <==> shift <= i < w
  {
    hide Pow2, Bit, HighMask;
    HighMaskIsNot(w, shift);
    if i < w {
      BitNot(w, Pow2(shift) - 1, i);
      LowMaskBits(shift, i);
    } else {
      BitHigh(w, Not(w, Pow2(shift) - 1), i);
    }
  }

  /** Masking two words keeps exactly the comparison of their leading bits. */
  lemma MaskedEqualIff(w: nat, x: nat, y: nat, p: nat)
    requires 0 < p <= w
    ensures And(x, HighMask(w, w - p)) == And(y, HighMask(w, w - p)) <==> SameLeadingBits(w, x, y, p)
  {
    hide And, Bit, HighMask;
    var mask := HighMask(w, w - p);
    forall i: nat
      ensures Bit(And(x, mask), i) <==> Bit(x, i) && w - p <= i < w
      ensures Bit(And(y, mask), i) <==> Bit(y, i) && w - p <= i < w
    {
      BitAnd(x, mask, i);
      BitAnd(y, mask, i);
      HighMaskBits(w, w - p, i);
    }
    if SameLeadingBits(w, x, y, p) {
      SameBits(And(x, mask), And(y, mask));
    }
    if And(x, mask) == And(y, mask) {
      forall i: nat | i < w && w - p <= i
        ensures Bit(x, i) <==> Bit(y, i)
      {
        assert Bit(And(x, mask), i) <==> Bit(And(y, mask), i);
      }
    }
  }

  // ---------------------------------------------------------------- IPv4

  function IsIpv4Match(addr: u32, network: u32, prefixLen: u8): bool {
    if prefixLen == 0 then true
    else
      var mask := HighMask(32, if prefixLen > 32 then 0 else 32 - prefixLen);
      And(addr, mask) == And(network, mask)
  }

  lemma Ipv4MatchIff(addr: u32, network: u32, prefixLen: u8)
    ensures IsIpv4Match(addr, network, prefixLen) <==> SameLeadingBits(32, addr, network, Min(prefixLen, 32))
  {
    hide And, HighMask, Bit;
    if prefixLen > 0 {
      MaskedEqualIff(32, addr, network, Min(prefixLen, 32));
    }
  }

  // ---------------------------------------------------------------- IPv6

  datatype Match = Yes | No | Panics

  /** Whole segments, then the leading bits of the next one. Indexing past the last segment panics. */
  function IsIpv6Match(addr: Ipv6, network: Ipv6, prefixLen: u8): Match {
    if prefixLen == 0 then Yes
    else
      var full, left := prefixLen / SEGMENT_BITS, prefixLen % SEGMENT_BITS;
      if full > SEGMENTS then Panics
      else if addr[..full] != network[..full] then No
      else if left == 0 then Yes
      else if full == SEGMENTS then Panics
      else
        var mask := HighMask(SEGMENT_BITS, SEGMENT_BITS - left);
        if And(addr[full], mask) != And(network[full], mask) then No else Yes
  }

  /** The 128-bit number of an address, first segment highest. */
  function Number(segments: seq<u16>): nat {
    if segments == [] then 0
    else
      var n := |segments| - 1;
      Number(segments[..n]) * Pow2(SEGMENT_BITS) + segments[n]
  }

  lemma {:induction false} BitConcat(x: nat, y: nat, k: nat, i: nat)
    requires y < Pow2(k)
    ensures Bit(x * Pow2(k) + y, i) <==> if i < k then Bit(y, i) else Bit(x, i - k)
  {
    if k > 0 {
      var h := x * Pow2(k - 1);
      assert x * Pow2(k) == 2 * h;
      assert (2 * h + y) / 2 == h + y / 2 && (2 * h + y) % 2 == y % 2;
      if i > 0 { BitConcat(x, y / 2, k - 1, i - 1); }
    }
  }

  /** Bit i of the number is bit i % 16 of the segment that holds it. */
  lemma {:induction false} NumberBit(segments: seq<u16>, i: nat)
    requires i < SEGMENT_BITS * |segments|
    ensures Bit(Number(segments), i) <==> Bit(segments[|segments| - 1 - i / SEGMENT_BITS], i % SEGMENT_BITS)
  {
    hide Pow2, Bit;
    var n := |segments| - 1;
    Pow2Values();
    BitConcat(Number(segments[..n]), segments[n], SEGMENT_BITS, i);
    if i >= SEGMENT_BITS {
      NumberBit(segments[..n], i - SEGMENT_BITS);
      assert (i - SEGMENT_BITS) / SEGMENT_BITS == i / SEGMENT_BITS - 1;
      assert (i - SEGMENT_BITS) % SEGMENT_BITS == i % SEGMENT_BITS;
    }
  }

  /** Equal leading bits of the numbers, read off the segments. */
  ghost predicate SameUpTo(addr: Ipv6, network: Ipv6, p: nat) {
    forall s: nat :: s < SEGMENTS ==> SameInSegment(addr[s], network[s], p - SEGMENT_BITS * s)
  }

  /** The first `count` bits of a segment agree, all of them when it is larger than 16. */
  ghost predicate SameInSegment(x: u16, y: u16, count: int) {
    forall b: nat :: b < SEGMENT_BITS && SEGMENT_BITS - count <= b ==> (Bit(x, b) <==> Bit(y, b))
  }

  lemma NumbersAgreeIff(addr: Ipv6, network: Ipv6, p: nat)
    ensures SameLeadingBits(128, Number(addr), Number(network), p) <==> SameUpTo(addr, network, p)
  {
    hide Bit, Number;
    if SameLeadingBits(128, Number(addr), Number(network), p) {
      forall s: nat, b: nat | s < SEGMENTS && b < SEGMENT_BITS && SEGMENT_BITS - (p - SEGMENT_BITS * s) <= b
        ensures Bit(addr[s], b) <==> Bit(network[s], b)
      {
        var i := SEGMENT_BITS * (SEGMENTS - 1 - s) + b;
        NumberBit(addr, i);
        NumberBit(network, i);
      }
    }
    if SameUpTo(addr, network, p) {
      forall i: nat | i < 128 && 128 - p <= i
        ensures Bit(Number(addr), i) <==> Bit(Number(network), i)
      {
        var s := SEGMENTS - 1 - i / SEGMENT_BITS;
        NumberBit(addr, i);
        NumberBit(network, i);
        assert SameInSegment(addr[s], network[s], p - SEGMENT_BITS * s);
      }
    }
  }

  /** All bits of a segment agree exactly when the segments are equal. */
  lemma WholeSegment(x: u16, y: u16, count: int)
    requires count >= SEGMENT_BITS
    ensures SameInSegment(x, y, count) <==> x == y
  {
    hide Bit;
    if SameInSegment(x, y, count) {
      Pow2Values();
      forall i: nat
        ensures Bit(x, i) <==> Bit(y, i)
      {
        if i >= SEGMENT_BITS {
          BitHigh(SEGMENT_BITS, x, i);
          BitHigh(SEGMENT_BITS, y, i);
        }
      }
      SameBits(x, y);
    }
  }

  lemma PartSegment(x: u16, y: u16, left: nat)
    requires 0 < left < SEGMENT_BITS
    ensures SameInSegment(x, y, left)
       <==> And(x, HighMask(SEGMENT_BITS, SEGMENT_BITS - left)) == And(y, HighMask(SEGMENT_BITS, SEGMENT_BITS - left))
  {
    hide And, HighMask, Bit;
    MaskedEqualIff(SEGMENT_BITS, x, y, left);
  }

  /** Whole segments agree, then the bits left over in the next one. */
  lemma SegmentsAgreeIff(addr: Ipv6, network: Ipv6, p: nat)
    requires p <= 128
    ensures var full, left := p / SEGMENT_BITS, p % SEGMENT_BITS;
            SameUpTo(addr, network, p) <==>
            addr[..full] == network[..full] && (left > 0 ==> SameInSegment(addr[full], network[full], left))
  {
    hide SameInSegment;
    var full, left := p / SEGMENT_BITS, p % SEGMENT_BITS;
    forall s: nat | s < SEGMENTS
      ensures s < full ==> (SameInSegment(addr[s], network[s], p - SEGMENT_BITS * s) <==> addr[s] == network[s])
      ensures s > full || (s == full && left == 0) ==> SameInSegment(addr[s], network[s], p - SEGMENT_BITS * s)
    {
      if s < full {
        WholeSegment(addr[s], network[s], p - SEGMENT_BITS * s);
      } else if s > full || left == 0 {
        NoBits(addr[s], network[s], p - SEGMENT_BITS * s);
      }
    }
    if SameUpTo(addr, network, p) {
      assert forall s: nat :: s < full ==> addr[s] == network[s];
      if left > 0 { assert SameInSegment(addr[full], network[full], p - SEGMENT_BITS * full); }
    }
    if addr[..full] == network[..full] {
      assert forall s: nat :: s < full ==> addr[s] == addr[..full][s] == network[..full][s] == network[s];
    }
  }

  lemma NoBits(x: u16, y: u16, count: int)
    requires count <= 0
    ensures SameInSegment(x, y, count)
  {
  }

  /** Up to 128 the match compares the leading bits of the two 128-bit numbers. Beyond, it panics
      unless a difference in the whole segments is seen first. */
  lemma Ipv6MatchIff(addr: Ipv6, network: Ipv6, prefixLen: u8)
    ensures var m := IsIpv6Match(addr, network, prefixLen);
            && (m == Panics <==> prefixLen > 128 && (prefixLen >= 144 || addr == network))
            && (m == Yes <==> prefixLen <= 128 && SameLeadingBits(128, Number(addr), Number(network), prefixLen))
  {
    hide And, HighMask, SameInSegment, SameUpTo, SameLeadingBits;
    if prefixLen <= 128 {
      var full, left := prefixLen / SEGMENT_BITS, prefixLen % SEGMENT_BITS;
      NumbersAgreeIff(addr, network, prefixLen);
      SegmentsAgreeIff(addr, network, prefixLen);
      if left > 0 { PartSegment(addr[full], network[full], left); }
      assert prefixLen == 0 ==> addr[..0] == network[..0];
    } else {
      assert addr[..SEGMENTS] == addr && network[..SEGMENTS] == network;
    }
  }

  // ---------------------------------------------------------------- lookup

  function FamilyOf(dest: IpAddr): u8 {
    if dest.V4? then AF_INET else AF_INET6
  }

  /** A route of the destination's family that is a default route or shares its prefix. */
  ghost predicate Candidate(route: RouteEntry, dest: IpAddr) {
    && route.family == (if dest.V4? then 2 else 10)
    && match (dest, route.destination)
       case (_, None) => true
       case (V4(d), Some(V4(r))) => SameLeadingBits(32, d, r, Min(route.dstLen, 32))
       case (V6(d), Some(V6(r))) => route.dstLen <= 128 && SameLeadingBits(128, Number(d), Number(r), route.dstLen)
       case _ => false
  }

  /** A route whose comparison indexes past an IPv6 address. */
  ghost predicate PanicsOn(route: RouteEntry, dest: IpAddr) {
    && route.family == 10 && dest.V6? && route.destination.Some? && route.destination.value.V6?
    && route.dstLen > 128 && (route.dstLen >= 144 || dest == route.destination.value)
  }

  function Weight(route: RouteEntry): nat {
    if route.destination.None? then 0 else route.dstLen
  }

  /** The earliest of the longest matching prefixes among the first n routes. */
  ghost predicate IsBest(routes: seq<RouteEntry>, dest: IpAddr, n: nat, best: nat)
    requires n <= |routes|
  {
    && best < n && Candidate(routes[best], dest)
    && forall j: nat :: j < n && Candidate(routes[j], dest) ==>
         Weight(routes[j]) <= Weight(routes[best]) && (j < best ==> Weight(routes[j]) < Weight(routes[best]))
  }

  ghost predicate NoneMatches(routes: seq<RouteEntry>, dest: IpAddr, n: nat)
    requires n <= |routes|
  {
    forall j: nat :: j < n ==> !Candidate(routes[j], dest)
  }

  /** How the loop sees one route: whether it matches, with its prefix length. */
  function Considers(route: RouteEntry, dest: IpAddr): Match {
    if route.family != FamilyOf(dest) then No
    else
      match (dest, route.destination)
      case (_, None) => Yes
      case (V4(d), Some(V4(r))) => if IsIpv4Match(d, r, route.dstLen) then Yes else No
      case (V6(d), Some(V6(r))) => IsIpv6Match(d, r, route.dstLen)
      case _ => No
  }

  lemma ConsidersIff(route: RouteEntry, dest: IpAddr)
    ensures Considers(route, dest) == Yes <==> Candidate(route, dest)
    ensures Considers(route, dest) == Panics <==> PanicsOn(route, dest)
  {
    hide SameLeadingBits, IsIpv4Match, IsIpv6Match, Number;
    match (dest, route.destination) {
      case (_, None) =>
      case (V4(d), Some(V4(r))) => Ipv4MatchIff(d, r, route.dstLen);
      case (V6(d), Some(V6(r))) => Ipv6MatchIff(d, r, route.dstLen);
      case _ =>
    }
  }

  datatype Lookup = Found(index: nat) | NotFound | Panicked

  /** The route the destination is sent by. */
  method LookupRoute(routes: seq<RouteEntry>, dest: IpAddr) returns (found: Lookup)
    ensures found.Panicked? <==> exists i: nat :: i < |routes| && PanicsOn(routes[i], dest)
    ensures found.Found? ==> IsBest(routes, dest, |routes|, found.index)
    ensures !found.Panicked? ==> (found.NotFound? <==> NoneMatches(routes, dest, |routes|))
  {
    hide Candidate, PanicsOn, Considers;
    var best: Option<(nat, nat)> := None;
    for n := 0 to |routes|
      invariant forall i: nat :: i < n ==> !PanicsOn(routes[i], dest)
      invariant match best
                case None => NoneMatches(routes, dest, n)
                case Some(b) => IsBest(routes, dest, n, b.0) && b.1 == Weight(routes[b.0])
    {
      var route := routes[n];
      ConsidersIff(route, dest);
      var matched := Considers(route, dest);
      if matched == Panics {
        return Panicked;
      }
      if matched == Yes {
        if route.destination.None? {
          if best.None? {
            best := Some((n, 0));
          }
        } else if best.None? || route.dstLen > best.value.1 {
          best := Some((n, route.dstLen));
        }
      }
    }
    return if best.None? then NotFound else Found(best.value.0);
  }
}
