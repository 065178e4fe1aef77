/** Ethernet, IPv4 and UDP header writers and the Internet checksum (section 1 of RFC 1071). */
module Packet {
  import opened Words

  const ETH_HEADER_SIZE: nat := 14
  const IP_HEADER_SIZE: nat := 20
  const UDP_HEADER_SIZE: nat := 8
  const PACKET_HEADER_SIZE: nat := 42

  type Mac = m: seq<u8> | |m| == 6 witness [0, 0, 0, 0, 0, 0]
  type Ipv4 = a: seq<u8> | |a| == 4 witness [0, 0, 0, 0]

  function Be16(x: u16): (b: seq<u8>)
    ensures |b| == 2
  {
    [x / 0x100, x % 0x100]
  }

  function AsU16(x: nat): u16 {
    x % 0x1_0000
  }

  /** (hi << 8) | lo */
  function Pair(hi: u8, lo: u8): u16 {
    (hi as int) * 0x100 + lo
  }

  /** The big-endian 16-bit word i of a byte string. */
  function Word(b: seq<u8>, i: nat): u16
    requires 2 * i + 1 < |b|
  {
    Pair(b[2 * i], b[2 * i + 1])
  }

  // ---------------------------------------------------------------- one's complement sums

  /** Sum of the first n words. */
  function WordSum(b: seq<u8>, n: nat): (sum: nat)
    requires 2 * n <= |b|
    ensures sum <= n * 0xFFFF
  {
    if n == 0 then 0 else WordSum(b, n - 1) + Word(b, n - 1)
  }

  /** Sum of all words, an odd last byte padded with zero on the right. */
  function ByteSum(b: seq<u8>): (sum: nat)
    ensures sum <= (|b| / 2 + 1) * 0xFFFF
  {
    WordSum(b, |b| / 2) + if |b| % 2 == 1 then Pair(b[|b| - 1], 0) else 0
  }

  /** Folding the carries back in until the sum fits 16 bits. */
  function Fold(sum: nat): (r: u16) {
    if sum / 0x1_0000 == 0 then sum else Fold(sum % 0x1_0000 + sum / 0x1_0000)
  }

  /** Folding keeps the residue modulo 65535 and maps only zero to zero. */
  lemma {:induction false} FoldResidue(sum: nat)
    ensures Fold(sum) == if sum == 0 then 0 else (sum - 1) % 0xFFFF + 1
  {
    if sum / 0x1_0000 != 0 {
      var carry, rest := sum / 0x1_0000, sum % 0x1_0000;
      FoldResidue(rest + carry);
      AddMultiple(rest + carry - 1, carry);
    }
  }

  lemma AddMultiple(x: nat, k: nat)
    ensures (x + 0xFFFF * k) % 0xFFFF == x % 0xFFFF
  {
  }

  /** Adding the complement of a folded sum gives the all-ones word. */
  lemma FoldComplement(sum: nat)
    ensures Fold(sum + (0xFFFF - Fold(sum))) == 0xFFFF
  {
    FoldResidue(sum);
    var total := sum + (0xFFFF - Fold(sum));
    FoldResidue(total);
    if sum > 0 {
      ResidueComplement(sum - 1);
    }
  }

  lemma ResidueComplement(x: nat)
    ensures (x + 0xFFFF - x % 0xFFFF - 1) % 0xFFFF == 0xFFFE
  {
    assert x + 0xFFFF - x % 0xFFFF - 1 == 0xFFFF * (x / 0xFFFF) + 0xFFFE;
  }

  /** Changing one word changes the sum by the difference of the words. */
  lemma {:induction false} WordSumPatch(a: seq<u8>, b: seq<u8>, k: nat, n: nat)
    requires |a| == |b| && 2 * n <= |a| && 2 * k + 1 < |a|
    requires forall i: nat :: i < |a| && i != 2 * k && i != 2 * k + 1 ==> a[i] == b[i]
    ensures WordSum(b, n) == WordSum(a, n) + if k < n then Word(b, k) - Word(a, k) else 0
  {
    if n > 0 {
      WordSumPatch(a, b, k, n - 1);
      if n - 1 != k {
        assert a[2 * (n - 1)] == b[2 * (n - 1)] && a[2 * (n - 1) + 1] == b[2 * (n - 1) + 1];
      }
    }
  }

  lemma ByteSumPatch(a: seq<u8>, b: seq<u8>, k: nat)
    requires |a| == |b| && 2 * k + 1 < |a|
    requires forall i: nat :: i < |a| && i != 2 * k && i != 2 * k + 1 ==> a[i] == b[i]
    ensures ByteSum(b) == ByteSum(a) + Word(b, k) - Word(a, k)
  {
    WordSumPatch(a, b, k, |a| / 2);
  }

  method FoldCarries(start: u32) returns (checksum: u16)
    ensures checksum == 0xFFFF - Fold(start)
  {
    var sum := start;
    while sum / 0x1_0000 != 0
      invariant Fold(sum) == Fold(start)
      decreases sum
    {
      sum := sum % 0x1_0000 + sum / 0x1_0000;
    }
    checksum := 0xFFFF - sum;
  }

  /** The 32-bit accumulator never overflows for inputs up to 65535 bytes and beyond. */
  method CalculateIpChecksum(header: seq<u8>) returns (checksum: u16)
    requires |header| <= 0x1_FFFF
    ensures checksum == 0xFFFF - Fold(ByteSum(header))
  {
    var sum: u32 := 0;
    for i := 0 to |header| / 2
      invariant sum == WordSum(header, i)
    {
      var word := Pair(header[i * 2], header[i * 2 + 1]);
      sum := sum + word;
    }
    if |header| % 2 == 1 {
      sum := sum + Pair(header[|header| - 1], 0);
    }
    checksum := FoldCarries(sum);
  }

  /** Sum of the UDP pseudo header of RFC 768. */
  function PseudoSum(srcIp: Ipv4, dstIp: Ipv4, udpLen: nat): nat {
    Word(srcIp, 0) + Word(srcIp, 1) + Word(dstIp, 0) + Word(dstIp, 1) + 17 + udpLen
  }

  /** The segment with its stored checksum blanked. */
  function Blanked(udp: seq<u8>): (b: seq<u8>)
    ensures |b| == |udp|
  {
    if |udp| < 8 then udp else udp[..6] + [0, 0] + udp[8..]
  }

  /** The checksum of a UDP segment; the stored checksum bytes play no part. */
  function UdpChecksum(udp: seq<u8>, srcIp: Ipv4, dstIp: Ipv4): u16 {
    0xFFFF - Fold(PseudoSum(srcIp, dstIp, |udp|) + ByteSum(Blanked(udp)))
  }

  lemma BlankedWord(udp: seq<u8>, i: nat)
    requires 2 * i + 1 < |udp|
    ensures Word(Blanked(udp), i) == if i == 3 then 0 else Word(udp, i)
  {
  }

  lemma BlankedLast(udp: seq<u8>)
    requires |udp| % 2 == 1
    ensures Blanked(udp)[|udp| - 1] == udp[|udp| - 1]
  {
  }

  method SumPseudoHeader(srcIp: Ipv4, dstIp: Ipv4, udpLen: nat) returns (sum: u32)
    requires udpLen <= 0xFFFF + UDP_HEADER_SIZE
    ensures sum == PseudoSum(srcIp, dstIp, udpLen) <= 0x5_FFFF
  {
    sum := 0;
    sum := sum + Pair(srcIp[0], srcIp[1]);
    sum := sum + Pair(srcIp[2], srcIp[3]);
    sum := sum + Pair(dstIp[0], dstIp[1]);
    sum := sum + Pair(dstIp[2], dstIp[3]);
    sum := sum + 17;
    sum := sum + udpLen;
  }

  /** The bound is the longest segment a 16-bit payload length allows. */
  method CalculateUdpChecksum(udp: seq<u8>, srcIp: Ipv4, dstIp: Ipv4) returns (checksum: u16)
    requires |udp| <= 0xFFFF + UDP_HEADER_SIZE
    ensures checksum == UdpChecksum(udp, srcIp, dstIp)
  {
    hide Blanked, PseudoSum, Fold;
    var sum := SumPseudoHeader(srcIp, dstIp, |udp|);
    ghost var pseudo := sum;
    ghost var blank := Blanked(udp);
    for i := 0 to |udp| / 2
      invariant sum == pseudo + WordSum(blank, i)
    {
      BlankedWord(udp, i);
      if i * 2 != 6 {
        var word := Pair(udp[i * 2], udp[i * 2 + 1]);
        sum := sum + word;
      }
    }
    if |udp| % 2 == 1 {
      BlankedLast(udp);
      sum := sum + Pair(udp[|udp| - 1], 0);
    }
    checksum := FoldCarries(sum);
  }

  // ---------------------------------------------------------------- header layouts

  function EthHeader(srcMac: Mac, dstMac: Mac): (h: seq<u8>)
    ensures |h| == ETH_HEADER_SIZE
  {
    dstMac + srcMac + Be16(0x0800)
  }

  /** An IPv4 header carrying UDP, with a given checksum field (section 3.1 of RFC 791). */
  function IpHeaderWith(srcIp: Ipv4, dstIp: Ipv4, udpLen: u16, checksum: u16): (h: seq<u8>)
    ensures |h| == IP_HEADER_SIZE
  {
    [0x45, 0] + Be16(AsU16(IP_HEADER_SIZE + udpLen)) + Be16(0) + Be16(0) + [64, 17] + Be16(checksum) + srcIp + dstIp
  }

  function IpHeader(srcIp: Ipv4, dstIp: Ipv4, udpLen: u16): (h: seq<u8>)
    ensures |h| == IP_HEADER_SIZE
  {
    IpHeaderWith(srcIp, dstIp, udpLen, 0xFFFF - Fold(ByteSum(IpHeaderWith(srcIp, dstIp, udpLen, 0))))
  }

  function UdpHeaderWith(srcPort: u16, dstPort: u16, payloadLen: u16, checksum: u16): (h: seq<u8>)
    ensures |h| == UDP_HEADER_SIZE
  {
    Be16(srcPort) + Be16(dstPort) + Be16(AsU16(UDP_HEADER_SIZE + payloadLen)) + Be16(checksum)
  }

  /** Re-summing a finished IPv4 header gives checksum zero. */
  lemma IpHeaderVerifies(srcIp: Ipv4, dstIp: Ipv4, udpLen: u16)
    ensures Fold(ByteSum(IpHeader(srcIp, dstIp, udpLen))) == 0xFFFF
  {
    hide Fold, WordSum, ByteSum;
    var blank := IpHeaderWith(srcIp, dstIp, udpLen, 0);
    var full := IpHeader(srcIp, dstIp, udpLen);
    ByteSumPatch(blank, full, 5);
    assert Word(blank, 5) == 0;
    assert Word(full, 5) == 0xFFFF - Fold(ByteSum(blank));
    FoldComplement(ByteSum(blank));
  }

  /** The checksummed header of a segment. */
  function UdpHeader(srcIp: Ipv4, srcPort: u16, dstIp: Ipv4, dstPort: u16, payload: seq<u8>): (h: seq<u8>)
    requires |payload| <= 0xFFFF
    ensures |h| == UDP_HEADER_SIZE
  {
    var blank := UdpHeaderWith(srcPort, dstPort, |payload|, 0);
    UdpHeaderWith(srcPort, dstPort, |payload|, UdpChecksum(blank + payload, srcIp, dstIp))
  }

  /** A checksummed segment sums, with its pseudo header, to all ones (RFC 768). */
  lemma UdpSegmentVerifies(srcIp: Ipv4, srcPort: u16, dstIp: Ipv4, dstPort: u16, payload: seq<u8>)
    requires |payload| <= 0xFFFF
    ensures var udp := UdpHeader(srcIp, srcPort, dstIp, dstPort, payload) + payload;
            Fold(PseudoSum(srcIp, dstIp, |udp|) + ByteSum(udp)) == 0xFFFF
  {
    hide Fold, WordSum, PseudoSum, ByteSum;
    var blank := UdpHeaderWith(srcPort, dstPort, |payload|, 0) + payload;
    var udp := UdpHeader(srcIp, srcPort, dstIp, dstPort, payload) + payload;
    var sum := PseudoSum(srcIp, dstIp, |udp|) + ByteSum(blank);
    assert Word(udp, 3) == 0xFFFF - Fold(sum) by {
      assert Blanked(blank) == blank;
    }
    assert ByteSum(udp) == ByteSum(blank) + Word(udp, 3) by {
      ByteSumPatch(blank, udp, 3);
      assert Word(blank, 3) == 0;
    }
    FoldComplement(sum);
  }

  /** The checksum of a segment is the same whatever its checksum field holds. */
  lemma UdpChecksumIgnoresField(a: seq<u8>, b: seq<u8>, srcIp: Ipv4, dstIp: Ipv4)
    requires |a| == |b| && (forall i: nat :: i < |a| && i != 6 && i != 7 ==> a[i] == b[i])
    requires |a| >= 8
    ensures UdpChecksum(a, srcIp, dstIp) == UdpChecksum(b, srcIp, dstIp)
  {
    assert Blanked(a) == Blanked(b) by { BlankedSame(a, b); }
    hide Blanked, ByteSum, PseudoSum, Fold;
  }

  lemma BlankedSame(a: seq<u8>, b: seq<u8>)
    requires |a| == |b| >= 8 && forall i: nat :: i < |a| && i != 6 && i != 7 ==> a[i] == b[i]
    ensures Blanked(a) == Blanked(b)
  {
    assert a[..6] == b[..6] && a[8..] == b[8..];
  }

  /** A nonzero sum folds to all ones exactly when it is a multiple of 65535. */
  lemma FoldFullIff(sum: nat)
    requires sum > 0
    ensures Fold(sum) == 0xFFFF <==> sum % 0xFFFF == 0
  {
    hide Fold;
    FoldResidue(sum);
  }

  /** RFC 768 sends a computed zero as all ones. This checksum is zero, and stays zero, exactly when
      pseudo header and segment sum to a multiple of 65535. */
  lemma UdpChecksumZeroIff(udp: seq<u8>, srcIp: Ipv4, dstIp: Ipv4)
    ensures UdpChecksum(udp, srcIp, dstIp) == 0
       <==> (PseudoSum(srcIp, dstIp, |udp|) + ByteSum(Blanked(udp))) % 0xFFFF == 0
  {
    assert PseudoSum(srcIp, dstIp, |udp|) > 0;
    hide PseudoSum, ByteSum, Fold, Blanked, WordSum;
    FoldFullIff(PseudoSum(srcIp, dstIp, |udp|) + ByteSum(Blanked(udp)));
  }

  lemma WordSumNext(b: seq<u8>, n: nat)
    requires 2 * n + 2 <= |b|
    ensures WordSum(b, n + 1) == WordSum(b, n) + Word(b, n)
  {
  }

  /** A two-byte payload whose checksummed header carries zero, the value for no checksum. */
  lemma ZeroChecksumSent()
    ensures var zero: Ipv4 := [0, 0, 0, 0];
            UdpHeader(zero, 0, zero, 0, [0xFF, 0xDA]) == UdpHeaderWith(0, 0, 2, 0)
  {
    var zero: Ipv4, udp := [0, 0, 0, 0], UdpHeaderWith(0, 0, 2, 0) + [0xFF, 0xDA];
    assert Blanked(udp) == udp;
    assert WordSum(udp, 0) == 0;
    assert PseudoSum(zero, zero, 10) == 27;
    assert Word(udp, 0) == 0 && Word(udp, 1) == 0 && Word(udp, 2) == 10 && Word(udp, 3) == 0 && Word(udp, 4) == 0xFFDA;
    assert ByteSum(udp) == WordSum(udp, 5);
    hide PseudoSum, ByteSum, Fold, Blanked, WordSum;
    WordSumNext(udp, 0);
    WordSumNext(udp, 1);
    WordSumNext(udp, 2);
    WordSumNext(udp, 3);
    WordSumNext(udp, 4);
    UdpChecksumZeroIff(udp, zero, zero);
  }

  // ---------------------------------------------------------------- checksums as remainders

  /** A byte string as one big-endian number. */
  function Number(b: seq<u8>): nat {
    if b == [] then 0 else 0x100 * Number(b[..|b| - 1]) + b[|b| - 1]
  }

  /** Padded to whole words with a zero byte. */
  function Padded(b: seq<u8>): (p: seq<u8>)
    ensures |p| % 2 == 0
  {
    if |b| % 2 == 1 then b + [0] else b
  }

  lemma NumberWord(b: seq<u8>, n: nat)
    requires 2 * n + 2 <= |b|
    ensures Number(b[..2 * n + 2]) == 0x1_0000 * Number(b[..2 * n]) + Word(b, n)
  {
    assert b[..2 * n + 2][..2 * n + 1] == b[..2 * n + 1] && b[..2 * n + 1][..2 * n] == b[..2 * n];
  }

  /** Equal modulo 65535. */
  predicate Congruent(x: nat, y: nat) {
    x % 0xFFFF == y % 0xFFFF
  }

  lemma WordResidue(x: nat, w: nat, sum: nat)
    requires Congruent(sum, x)
    ensures Congruent(sum + w, 0x1_0000 * x + w)
  {
    var q, p := x / 0xFFFF, sum / 0xFFFF;
    AddMultiple(x + w, x);
    AddMultiple(x % 0xFFFF + w, q);
    AddMultiple(sum % 0xFFFF + w, p);
  }

  lemma {:induction false} WordSumIsNumber(b: seq<u8>, n: nat)
    requires 2 * n <= |b|
    ensures Congruent(WordSum(b, n), Number(b[..2 * n]))
  {
    hide Number, Word, WordSum, Congruent;
    if n == 0 {
      NoWords(b);
    } else {
      WordSumIsNumber(b, n - 1);
      WordAppended(b, n - 1);
    }
  }

  lemma NoWords(b: seq<u8>)
    ensures WordSum(b, 0) == Number(b[..0]) == 0 && Congruent(0, 0)
  {
  }

  lemma WordAppended(b: seq<u8>, n: nat)
    requires 2 * n + 2 <= |b| && Congruent(WordSum(b, n), Number(b[..2 * n]))
    ensures Congruent(WordSum(b, n + 1), Number(b[..2 * (n + 1)]))
  {
    hide Number, Word, WordSum, Congruent;
    WordResidue(Number(b[..2 * n]), Word(b, n), WordSum(b, n));
    WordSumNext(b, n);
    NumberWord(b, n);
    assert 2 * n + 2 == 2 * (n + 1);
  }

  lemma {:induction false} WordSumSame(a: seq<u8>, b: seq<u8>, n: nat)
    requires 2 * n <= |a| && 2 * n <= |b| && a[..2 * n] == b[..2 * n]
    ensures WordSum(a, n) == WordSum(b, n)
  {
    if n > 0 {
      var m := 2 * n;
      assert a[m - 2] == a[..m][m - 2] == b[m - 2] && a[m - 1] == a[..m][m - 1] == b[m - 1];
      assert a[..m - 2] == a[..m][..m - 2] == b[..m - 2];
      WordSumSame(a, b, n - 1);
    }
  }

  lemma PaddedSum(b: seq<u8>)
    ensures ByteSum(Padded(b)) == ByteSum(b)
  {
    if |b| % 2 == 1 {
      var p, n := Padded(b), |b| / 2;
      assert p[..2 * n] == b[..2 * n];
      WordSumSame(p, b, n);
      WordSumNext(p, n);
    }
  }

  /** The sum is the whole string read as one number, modulo 65535. */
  lemma ByteSumIsNumber(b: seq<u8>)
    ensures Congruent(ByteSum(b), Number(Padded(b)))
  {
    hide Number, WordSum, Congruent;
    var p := Padded(b);
    PaddedSum(b);
    WordSumIsNumber(p, |p| / 2);
    assert p[..2 * (|p| / 2)] == p;
  }

  lemma {:induction false} WordSumAppend(a: seq<u8>, b: seq<u8>, n: nat)
    requires |a| % 2 == 0 && 2 * n <= |b|
    ensures WordSum(a + b, |a| / 2 + n) == WordSum(a, |a| / 2) + WordSum(b, n)
  {
    if n == 0 {
      assert (a + b)[..|a|] == a[..|a|];
      WordSumSame(a + b, a, |a| / 2);
    } else {
      WordSumAppend(a, b, n - 1);
      WordSumNext(a + b, |a| / 2 + n - 1);
      WordSumNext(b, n - 1);
    }
  }

  lemma ByteSumAppend(a: seq<u8>, b: seq<u8>)
    requires |a| % 2 == 0
    ensures ByteSum(a + b) == ByteSum(a) + ByteSum(b)
  {
    hide WordSum;
    WordSumAppend(a, b, |b| / 2);
    assert |a + b| / 2 == |a| / 2 + |b| / 2;
  }

  /** The pseudo header of RFC 768, as bytes. */
  function PseudoHeader(srcIp: Ipv4, dstIp: Ipv4, udpLen: u16): (h: seq<u8>)
    ensures |h| == 12
  {
    srcIp + dstIp + [0, 17] + Be16(udpLen)
  }

  lemma PseudoSumIsBytes(srcIp: Ipv4, dstIp: Ipv4, udpLen: u16)
    ensures PseudoSum(srcIp, dstIp, udpLen) == ByteSum(PseudoHeader(srcIp, dstIp, udpLen))
  {
    var h := PseudoHeader(srcIp, dstIp, udpLen);
    assert Word(h, 0) == Word(srcIp, 0) && Word(h, 1) == Word(srcIp, 1);
    assert Word(h, 2) == Word(dstIp, 0) && Word(h, 3) == Word(dstIp, 1);
    assert Word(h, 4) == 17 && Word(h, 5) == udpLen;
    assert WordSum(h, 0) == 0;
    hide WordSum, PseudoHeader;
    WordSumNext(h, 0);
    WordSumNext(h, 1);
    WordSumNext(h, 2);
    WordSumNext(h, 3);
    WordSumNext(h, 4);
    WordSumNext(h, 5);
  }

  /** Folding to all ones means being a multiple of 65535. */
  lemma VerifiesIsMultiple(b: seq<u8>)
    requires Fold(ByteSum(b)) == 0xFFFF
    ensures Number(Padded(b)) % 0xFFFF == 0
  {
    hide Number, ByteSum, Fold, Padded;
    ByteSumIsNumber(b);
    FoldsToOnes(ByteSum(b));
  }

  /** What the checksums are for: a finished IPv4 header, read as one number, is a multiple of 65535. */
  lemma HeaderIsMultiple(srcIp: Ipv4, dstIp: Ipv4, udpLen: u16)
    ensures Number(IpHeader(srcIp, dstIp, udpLen)) % 0xFFFF == 0
  {
    var ip := IpHeader(srcIp, dstIp, udpLen);
    IpHeaderVerifies(srcIp, dstIp, udpLen);
    hide Number, ByteSum, Fold, IpHeader;
    VerifiesIsMultiple(ip);
    assert Padded(ip) == ip;
  }

  /** So is a finished segment behind its pseudo header. */
  lemma SegmentIsMultiple(srcIp: Ipv4, srcPort: u16, dstIp: Ipv4, dstPort: u16, payload: seq<u8>)
    requires |payload| + UDP_HEADER_SIZE <= 0xFFFF
    ensures var udp := UdpHeader(srcIp, srcPort, dstIp, dstPort, payload) + payload;
            Number(Padded(PseudoHeader(srcIp, dstIp, |udp|) + udp)) % 0xFFFF == 0
  {
    hide Number, ByteSum, Fold, UdpHeader, PseudoHeader, PseudoSum, Padded;
    var udp := UdpHeader(srcIp, srcPort, dstIp, dstPort, payload) + payload;
    UdpSegmentVerifies(srcIp, srcPort, dstIp, dstPort, payload);
    PseudoSumIsBytes(srcIp, dstIp, |udp|);
    ByteSumAppend(PseudoHeader(srcIp, dstIp, |udp|), udp);
    VerifiesIsMultiple(PseudoHeader(srcIp, dstIp, |udp|) + udp);
  }

  lemma FoldsToOnes(sum: nat)
    requires Fold(sum) == 0xFFFF
    ensures sum % 0xFFFF == 0
  {
    hide Fold;
    FoldResidue(sum);
    if sum > 0 { FoldFullIff(sum); }
  }

  // ---------------------------------------------------------------- writers

  /** s with v laid over it at `at`. */
  function Splice(s: seq<u8>, at: nat, v: seq<u8>): (r: seq<u8>)
    requires at + |v| <= |s|
    ensures |r| == |s|
  {
    s[..at] + v + s[at + |v|..]
  }

  lemma SpliceAdjacent(s: seq<u8>, at: nat, v: seq<u8>, w: seq<u8>)
    requires at + |v| + |w| <= |s|
    ensures Splice(Splice(s, at, v), at + |v|, w) == Splice(s, at, v + w)
  {
  }

  lemma SpliceInside(s: seq<u8>, at: nat, v: seq<u8>, k: nat, w: seq<u8>)
    requires at + |v| <= |s| && k + |w| <= |v|
    ensures Splice(Splice(s, at, v), at + k, w) == Splice(s, at, Splice(v, k, w))
  {
  }

  lemma SpliceRange(s: seq<u8>, at: nat, v: seq<u8>)
    requires at + |v| <= |s|
    ensures Splice(s, at, v)[at..at + |v|] == v
  {
  }

  /** Appends to a run of bytes laid down from `at`. */
  method CopyNext(packet: array<u8>, at: nat, ghost was: seq<u8>, ghost done: seq<u8>, bytes: seq<u8>, next: nat)
    requires |was| == packet.Length && next == at + |done| && next + |bytes| <= packet.Length
    requires packet[..] == Splice(was, at, done)
    modifies packet
    ensures packet[..] == Splice(was, at, done + bytes)
  {
    CopyInto(packet, next, bytes);
    SpliceAdjacent(was, at, done, bytes);
  }

  method CopyInto(packet: array<u8>, at: nat, bytes: seq<u8>)
    requires at + |bytes| <= packet.Length
    modifies packet
    ensures packet[..] == Splice(old(packet[..]), at, bytes)
  {
    for i := 0 to |bytes|
      invariant forall j: nat :: j < packet.Length ==>
                  packet[j] == if at <= j < at + i then bytes[j - at] else old(packet[j])
    {
      packet[at + i] := bytes[i];
    }
  }

  method WriteEthHeader(packet: array<u8>, at: nat, srcMac: Mac, dstMac: Mac)
    requires at + ETH_HEADER_SIZE <= packet.Length
    modifies packet
    ensures packet[..] == Splice(old(packet[..]), at, EthHeader(srcMac, dstMac))
  {
    CopyInto(packet, at, dstMac);
    CopyInto(packet, at + 6, srcMac);
    CopyInto(packet, at + 12, Be16(0x0800));
    SpliceAdjacent(old(packet[..]), at, dstMac, srcMac);
    SpliceAdjacent(old(packet[..]), at, dstMac + srcMac, Be16(0x0800));
  }

  lemma IpHeaderPatch(srcIp: Ipv4, dstIp: Ipv4, udpLen: u16, checksum: u16)
    ensures Splice(IpHeaderWith(srcIp, dstIp, udpLen, 0), 10, Be16(checksum))
         == IpHeaderWith(srcIp, dstIp, udpLen, checksum)
  {
  }

  lemma UdpHeaderPatch(srcPort: u16, dstPort: u16, payloadLen: u16, checksum: u16)
    ensures Splice(UdpHeaderWith(srcPort, dstPort, payloadLen, 0), 6, Be16(checksum))
         == UdpHeaderWith(srcPort, dstPort, payloadLen, checksum)
  {
  }

  lemma SpliceAhead(s: seq<u8>, at: nat, v: seq<u8>, n: nat)
    requires |v| <= n && at + n <= |s|
    ensures Splice(s, at, v)[at..at + n] == v + s[at + |v|..at + n]
  {
  }

  method WriteIpHeader(packet: array<u8>, at: nat, srcIp: Ipv4, dstIp: Ipv4, udpLen: u16)
    requires at + IP_HEADER_SIZE <= packet.Length
    modifies packet
    ensures packet[..] == Splice(old(packet[..]), at, IpHeader(srcIp, dstIp, udpLen))
  {
    hide Fold, ByteSum, Splice;
    var totalLen := IP_HEADER_SIZE + udpLen;
    ghost var was := packet[..];
    CopyInto(packet, at, [0x45, 0]);
    ghost var done := [0x45, 0];
    CopyNext(packet, at, was, done, Be16(AsU16(totalLen)), at + 2);
    done := done + Be16(AsU16(totalLen));
    CopyNext(packet, at, was, done, Be16(0), at + 4);
    done := done + Be16(0);
    CopyNext(packet, at, was, done, Be16(0), at + 6);
    done := done + Be16(0);
    CopyNext(packet, at, was, done, [64, 17], at + 8);
    done := done + [64, 17];
    CopyNext(packet, at, was, done, Be16(0), at + 10);
    done := done + Be16(0);
    CopyNext(packet, at, was, done, srcIp, at + 12);
    done := done + srcIp;
    CopyNext(packet, at, was, done, dstIp, at + 16);
    ghost var blank := IpHeaderWith(srcIp, dstIp, udpLen, 0);
    SpliceRange(was, at, blank);
    var checksum := CalculateIpChecksum(packet[at..at + IP_HEADER_SIZE]);
    CopyInto(packet, at + 10, Be16(checksum));
    SpliceInside(was, at, blank, 10, Be16(checksum));
    IpHeaderPatch(srcIp, dstIp, udpLen, checksum);
  }

  method WriteUdpHeader(packet: array<u8>, at: nat, srcIp: Ipv4, srcPort: u16, dstIp: Ipv4, dstPort: u16,
                        payloadLen: u16, csum: bool)
    requires at + UDP_HEADER_SIZE <= packet.Length
    requires csum ==> at + UDP_HEADER_SIZE + payloadLen <= packet.Length
    modifies packet
    ensures var was, body := old(packet[..]), at + UDP_HEADER_SIZE;
            packet[..] == Splice(was, at,
              if csum then UdpHeader(srcIp, srcPort, dstIp, dstPort, was[body..body + payloadLen])
              else UdpHeaderWith(srcPort, dstPort, payloadLen, 0))
  {
    hide Fold, ByteSum, PseudoSum, Splice, Blanked;
    var udpLen := UDP_HEADER_SIZE + payloadLen;
    ghost var was := packet[..];
    CopyInto(packet, at, Be16(srcPort));
    ghost var done := Be16(srcPort);
    CopyNext(packet, at, was, done, Be16(dstPort), at + 2);
    done := done + Be16(dstPort);
    CopyNext(packet, at, was, done, Be16(AsU16(udpLen)), at + 4);
    done := done + Be16(AsU16(udpLen));
    CopyNext(packet, at, was, done, Be16(0), at + 6);
    ghost var blank := UdpHeaderWith(srcPort, dstPort, payloadLen, 0);
    if csum {
      var checksum := CalculateUdpChecksum(packet[at..at + udpLen], srcIp, dstIp);
      SpliceAhead(was, at, blank, udpLen);
      CopyInto(packet, at + 6, Be16(checksum));
      SpliceInside(was, at, blank, 6, Be16(checksum));
      UdpHeaderPatch(srcPort, dstPort, payloadLen, checksum);
    }
  }

  // ---------------------------------------------------------------- whole packets

  /** Addresses and ports of an outgoing packet. */
  datatype Route = Route(srcMac: Mac, dstMac: Mac, srcIp: Ipv4, dstIp: Ipv4, srcPort: u16, dstPort: u16)

  /** The 42 header bytes both loops put in front of a payload, without a UDP checksum. */
  function Headers(r: Route, payloadLen: nat): (h: seq<u8>)
    ensures |h| == PACKET_HEADER_SIZE
  {
    EthHeader(r.srcMac, r.dstMac)
    + IpHeader(r.srcIp, r.dstIp, AsU16(UDP_HEADER_SIZE + payloadLen))
    + UdpHeaderWith(r.srcPort, r.dstPort, AsU16(payloadLen), 0)
  }

  function PacketBytes(r: Route, payload: seq<u8>): (packet: seq<u8>)
    ensures |packet| == PACKET_HEADER_SIZE + |payload|
  {
    Headers(r, |payload|) + payload
  }

  /** Writes the three headers over the front of a packet and nothing else. */
  method WriteHeaders(packet: array<u8>, at: nat, r: Route, payloadLen: nat)
    requires at + PACKET_HEADER_SIZE + payloadLen <= packet.Length
    modifies packet
    ensures packet[..] == Splice(old(packet[..]), at, Headers(r, payloadLen))
  {
    ghost var was := packet[..];
    ghost var eth := EthHeader(r.srcMac, r.dstMac);
    ghost var ip := IpHeader(r.srcIp, r.dstIp, AsU16(UDP_HEADER_SIZE + payloadLen));
    WriteEthHeader(packet, at, r.srcMac, r.dstMac);
    WriteIpHeader(packet, at + ETH_HEADER_SIZE, r.srcIp, r.dstIp, AsU16(UDP_HEADER_SIZE + payloadLen));
    SpliceAdjacent(was, at, eth, ip);
    WriteUdpHeader(packet, at + ETH_HEADER_SIZE + IP_HEADER_SIZE, r.srcIp, r.srcPort, r.dstIp, r.dstPort,
                   AsU16(payloadLen), false);
    SpliceAdjacent(was, at, eth + ip, UdpHeaderWith(r.srcPort, r.dstPort, AsU16(payloadLen), 0));
  }

  /** Builds a packet around a payload: payload first, then the headers before it. */
  method WritePacket(packet: array<u8>, at: nat, r: Route, payload: seq<u8>)
    requires at + PACKET_HEADER_SIZE + |payload| <= packet.Length
    modifies packet
    ensures packet[..] == Splice(old(packet[..]), at, PacketBytes(r, payload))
  {
    ghost var was := packet[..];
    CopyInto(packet, at + PACKET_HEADER_SIZE, payload);
    WriteHeaders(packet, at, r, |payload|);
    SpliceFront(was, at, Headers(r, |payload|), payload);
  }

  lemma SpliceFront(s: seq<u8>, at: nat, v: seq<u8>, w: seq<u8>)
    requires at + |v| + |w| <= |s|
    ensures Splice(Splice(s, at + |v|, w), at, v) == Splice(s, at, v + w)
  {
  }

  /** Overwriting the headers of a received packet keeps every byte from offset 42 on. */
  function Rewritten(r: Route, packet: seq<u8>): seq<u8>
    requires |packet| >= PACKET_HEADER_SIZE
  {
    Headers(r, |packet| - PACKET_HEADER_SIZE) + packet[PACKET_HEADER_SIZE..]
  }

  /** The 42 bytes in front of a payload, field by field: Ethernet II, section 3.1 of RFC 791, RFC 768. */
  ghost predicate HasHeaders(p: seq<u8>, r: Route) {
    |p| >= 42 && EthFields(p, r) && IpFields(p, r) && UdpFields(p, r)
  }

  ghost predicate EthFields(p: seq<u8>, r: Route)
    requires |p| >= 42
  {
    p[0..6] == r.dstMac && p[6..12] == r.srcMac && p[12..14] == [0x08, 0x00]
  }

  ghost predicate IpFields(p: seq<u8>, r: Route)
    requires |p| >= 42
  {
    && p[14..16] == [0x45, 0x00] && 0x100 * (p[16] as int) + p[17] == (|p| - 14) % 0x1_0000
    && p[18..22] == [0, 0, 0, 0] && p[22..24] == [64, 17]
    && p[26..30] == r.srcIp && p[30..34] == r.dstIp
  }

  ghost predicate UdpFields(p: seq<u8>, r: Route)
    requires |p| >= 42
  {
    && 0x100 * (p[34] as int) + p[35] == r.srcPort && 0x100 * (p[36] as int) + p[37] == r.dstPort
    && 0x100 * (p[38] as int) + p[39] == (|p| - 34) % 0x1_0000 && p[40..42] == [0, 0]
  }

  lemma SliceOf(p: seq<u8>, h: seq<u8>, at: nat, lo: nat, hi: nat)
    requires at + |h| <= |p| && p[at..at + |h|] == h && lo <= hi <= |h|
    ensures p[at + lo..at + hi] == h[lo..hi]
  {
    var a, b := p[at + lo..at + hi], h[lo..hi];
    forall i: nat | i < |a|
      ensures a[i] == b[i]
    {
      assert p[at..at + |h|][lo + i] == p[at + lo + i];
    }
  }

  lemma PairOf(p: seq<u8>, h: seq<u8>, at: nat, i: nat)
    requires at + |h| <= |p| && p[at..at + |h|] == h && i + 1 < |h|
    ensures p[at + i] == h[i] && p[at + i + 1] == h[i + 1]
  {
    assert p[at..at + |h|][i] == p[at + i] && p[at..at + |h|][i + 1] == p[at + i + 1];
  }

  lemma FourParts(a: seq<u8>, b: seq<u8>, c: seq<u8>, d: seq<u8>)
    ensures var p := a + b + c + d;
            p[0..|a|] == a && p[|a|..|a| + |b|] == b && p[|a| + |b|..|a| + |b| + |c|] == c
  {
  }

  lemma EthLaidOut(p: seq<u8>, r: Route)
    requires |p| >= 42 && p[0..14] == EthHeader(r.srcMac, r.dstMac)
    ensures EthFields(p, r)
  {
    var h := EthHeader(r.srcMac, r.dstMac);
    assert h[0..6] == r.dstMac && h[6..12] == r.srcMac && h[12..14] == [8, 0];
    hide EthHeader;
    SliceOf(p, h, 0, 0, 6);
    SliceOf(p, h, 0, 6, 12);
    SliceOf(p, h, 0, 12, 14);
  }

  lemma IpLayout(srcIp: Ipv4, dstIp: Ipv4, udpLen: u16, checksum: u16)
    ensures var h := IpHeaderWith(srcIp, dstIp, udpLen, checksum);
            && h[0..2] == [0x45, 0] && 0x100 * (h[2] as int) + h[3] == (20 + udpLen) % 0x1_0000
            && h[4..8] == [0, 0, 0, 0] && h[8..10] == [64, 17] && h[12..16] == srcIp && h[16..20] == dstIp
  {
  }

  lemma IpLaidOut(p: seq<u8>, r: Route, udpLen: u16)
    requires |p| >= 42 && p[14..34] == IpHeader(r.srcIp, r.dstIp, udpLen)
    requires (20 + udpLen) % 0x1_0000 == (|p| - 14) % 0x1_0000
    ensures IpFields(p, r)
  {
    var h := IpHeader(r.srcIp, r.dstIp, udpLen);
    hide IpHeaderWith, Fold, ByteSum;
    IpLayout(r.srcIp, r.dstIp, udpLen, 0xFFFF - Fold(ByteSum(IpHeaderWith(r.srcIp, r.dstIp, udpLen, 0))));
    hide IpHeader;
    SliceOf(p, h, 14, 0, 2);
    SliceOf(p, h, 14, 4, 8);
    SliceOf(p, h, 14, 8, 10);
    SliceOf(p, h, 14, 12, 16);
    SliceOf(p, h, 14, 16, 20);
    PairOf(p, h, 14, 2);
  }

  lemma UdpLaidOut(p: seq<u8>, r: Route, payloadLen: u16)
    requires |p| >= 42 && p[34..42] == UdpHeaderWith(r.srcPort, r.dstPort, payloadLen, 0)
    requires (8 + payloadLen) % 0x1_0000 == (|p| - 34) % 0x1_0000
    ensures UdpFields(p, r)
  {
    var h := UdpHeaderWith(r.srcPort, r.dstPort, payloadLen, 0);
    SliceOf(p, h, 34, 6, 8);
    PairOf(p, h, 34, 0);
    PairOf(p, h, 34, 2);
    PairOf(p, h, 34, 4);
  }

  lemma LengthsWrap(n: nat)
    ensures (20 + AsU16(8 + n)) % 0x1_0000 == (28 + n) % 0x1_0000
    ensures (8 + AsU16(n)) % 0x1_0000 == (8 + n) % 0x1_0000
  {
    AddWraps(20, 8 + n);
    AddWraps(8, n);
  }

  lemma AddWraps(a: nat, n: nat)
    ensures (a + n % 0x1_0000) % 0x1_0000 == (a + n) % 0x1_0000
  {
    var q := n / 0x1_0000;
    assert a + n == a + n % 0x1_0000 + 0x1_0000 * q;
  }

  lemma HeadersLaidOut(r: Route, payload: seq<u8>)
    ensures HasHeaders(PacketBytes(r, payload), r)
  {
    var n := |payload|;
    var eth, ip := EthHeader(r.srcMac, r.dstMac), IpHeader(r.srcIp, r.dstIp, AsU16(UDP_HEADER_SIZE + n));
    var udp := UdpHeaderWith(r.srcPort, r.dstPort, AsU16(n), 0);
    var p := PacketBytes(r, payload);
    hide EthHeader, IpHeader, UdpHeaderWith, AsU16, EthFields, IpFields, UdpFields;
    assert p == eth + ip + udp + payload;
    FourParts(eth, ip, udp, payload);
    LengthsWrap(n);
    hide PacketBytes;
    EthLaidOut(p, r);
    IpLaidOut(p, r, AsU16(UDP_HEADER_SIZE + n));
    UdpLaidOut(p, r, AsU16(n));
  }

  /** A built packet carries its route and lengths in its headers, a valid IPv4 checksum, and its payload. */
  lemma PacketDescribed(r: Route, payload: seq<u8>)
    ensures var p := PacketBytes(r, payload);
            && HasHeaders(p, r) && p[42..] == payload
            && Fold(ByteSum(p[14..34])) == 0xFFFF
  {
    HeadersLaidOut(r, payload);
    HeaderParts(r, |payload|);
    IpHeaderVerifies(r.srcIp, r.dstIp, AsU16(UDP_HEADER_SIZE + |payload|));
    AppendFacts(Headers(r, |payload|), payload, ETH_HEADER_SIZE, ETH_HEADER_SIZE + IP_HEADER_SIZE);
  }

  /** A rewritten packet is one built along the route around the payload received. */
  lemma RewrittenIsBuilt(r: Route, packet: seq<u8>)
    requires |packet| >= PACKET_HEADER_SIZE
    ensures Rewritten(r, packet) == PacketBytes(r, packet[PACKET_HEADER_SIZE..])
  {
  }

  /** Whatever was received: the rewritten packet has its length and payload, the route in its headers, and a
      valid IPv4 checksum; up to 64 kB the length fields are the true lengths. */
  lemma HeadersDescribePacket(r: Route, packet: seq<u8>)
    requires PACKET_HEADER_SIZE <= |packet|
    ensures var p := Rewritten(r, packet);
            && |p| == |packet| && HasHeaders(p, r)
            && p[PACKET_HEADER_SIZE..] == packet[PACKET_HEADER_SIZE..]
            && Fold(ByteSum(p[ETH_HEADER_SIZE..ETH_HEADER_SIZE + IP_HEADER_SIZE])) == 0xFFFF
            && (|packet| <= 0xFFFF + ETH_HEADER_SIZE ==>
                  && Pair(p[16], p[17]) + ETH_HEADER_SIZE == |p|
                  && Pair(p[38], p[39]) + ETH_HEADER_SIZE + IP_HEADER_SIZE == |p|)
  {
    hide Fold, ByteSum, Headers, HasHeaders, PacketBytes, Rewritten;
    RewrittenIsBuilt(r, packet);
    PacketDescribed(r, packet[PACKET_HEADER_SIZE..]);
    var p := Rewritten(r, packet);
    if |p| <= 0xFFFF + ETH_HEADER_SIZE { TrueLengths(p, r); }
  }

  lemma TrueLengths(p: seq<u8>, r: Route)
    requires HasHeaders(p, r) && |p| <= 0xFFFF + ETH_HEADER_SIZE
    ensures Pair(p[16], p[17]) + ETH_HEADER_SIZE == |p|
    ensures Pair(p[38], p[39]) + ETH_HEADER_SIZE + IP_HEADER_SIZE == |p|
  {
    hide EthFields;
  }

  lemma AppendFacts(h: seq<u8>, t: seq<u8>, lo: nat, hi: nat)
    requires lo <= hi <= |h|
    ensures (h + t)[lo..hi] == h[lo..hi] && (h + t)[|h|..] == t
    ensures forall i: nat :: i < |h| ==> (h + t)[i] == h[i]
  {
  }

  lemma HeaderParts(r: Route, payloadLen: nat)
    ensures Headers(r, payloadLen)[ETH_HEADER_SIZE..ETH_HEADER_SIZE + IP_HEADER_SIZE]
         == IpHeader(r.srcIp, r.dstIp, AsU16(UDP_HEADER_SIZE + payloadLen))
  {
    hide IpHeader;
  }
}
