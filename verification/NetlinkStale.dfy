/** Messages are checked against the 4096-byte buffer and not against the datagram in its front.
    When the bytes behind the datagram play no part, and when they are delivered. */
module NetlinkStale {
  import opened Words
  import opened Netlink
  import opened NetlinkMessages

  /** Bytes of the buffer that a message is made of. */
  function Needed(m: Message): nat {
    if m.header.ty == NLMSG_ERROR then NLMSG_HDR + NLMSG_ERR else m.header.len
  }

  /** A message is the same in every buffer that starts with those bytes. */
  lemma ReadLocal(a: seq<u8>, b: seq<u8>, m: Message)
    requires |a| == |b| && Read(a) == Ok(m) && Needed(m) <= |a| && a[..Needed(m)] == b[..Needed(m)]
    ensures Read(b) == Ok(m)
  {
    hide Align4, Signed;
    var k := Needed(m);
    assert forall i: nat :: i < k ==> a[i] == a[..k][i] == b[..k][i] == b[i];
    assert HeaderAt(a, 0) == HeaderAt(b, 0);
    if m.header.ty != NLMSG_ERROR {
      assert a[NLMSG_HDR..k] == a[..k][NLMSG_HDR..] == b[..k][NLMSG_HDR..] == b[NLMSG_HDR..k];
    }
  }

  lemma LeInverse(b: seq<u8>, i: nat)
    requires i + 4 <= |b|
    ensures Le16(FromLe16(b, i)) == b[i..i + 2] && Le32(FromLe32(b, i)) == b[i..i + 4]
  {
    Le16Inverse(b, i);
    Le16Inverse(b, i + 2);
    hide FromLe16, Le16;
    assert b[i..i + 4] == b[i..i + 2] + b[i + 2..i + 4];
  }

  lemma HeaderInverse(b: seq<u8>)
    requires |b| >= NLMSG_HDR
    ensures EncodeHeader(HeaderAt(b, 0)) == b[..NLMSG_HDR]
  {
    LeInverse(b, 0);
    LeInverse(b, 4);
    LeInverse(b, 6);
    LeInverse(b, 8);
    LeInverse(b, 12);
    hide FromLe16, FromLe32, Le16, Le32;
    assert b[..NLMSG_HDR] == b[0..4] + b[4..6] + b[6..8] + b[8..12] + b[12..16];
  }

  /** A message that is no error determines its bytes. */
  lemma ReadDetermines(b: seq<u8>, m: Message)
    requires Read(b) == Ok(m) && m.header.ty != NLMSG_ERROR
    ensures b[..m.header.len] == EncodeHeader(m.header) + m.data
  {
    hide FromLe16, FromLe32, Le16, Le32, HeaderAt, EncodeHeader;
    HeaderInverse(b);
    assert b[..m.header.len] == b[..NLMSG_HDR] + b[NLMSG_HDR..m.header.len];
  }

  lemma ReadSeesByte(a: seq<u8>, b: seq<u8>, m: Message, k: nat)
    requires |a| == |b| && Read(a) == Ok(m) && m.header.ty != NLMSG_ERROR
    requires k < m.header.len && k < |a| && a[k] != b[k]
    ensures Read(b) != Ok(m)
  {
    hide Read;
    var len := m.header.len;
    assert a[..len][k] == a[k] && b[..len][k] == b[k];
    if Read(b) == Ok(m) {
      ReadDetermines(a, m);
      ReadDetermines(b, m);
    }
  }

  /** A message that can be delivered is the same whatever lies behind the datagram if and only if
      its length ends inside the datagram. */
  lemma DeliveredInsideIff(data: seq<u8>, stale: seq<u8>, offset: nat, m: Message)
    requires |data| + |stale| == BUFFER && offset < |data|
    requires Read((data + stale)[offset..]) == Ok(m) && m.header.ty != NLMSG_ERROR
    ensures offset + m.header.len <= |data| <==>
              forall other: seq<u8> :: |other| == |stale| ==> Read((data + other)[offset..]) == Ok(m)
  {
    hide Read;
    var a, len := (data + stale)[offset..], m.header.len;
    if offset + len <= |data| {
      forall other: seq<u8> | |other| == |stale|
        ensures Read((data + other)[offset..]) == Ok(m)
      {
        var b := (data + other)[offset..];
        assert a[..len] == data[offset..offset + len] == b[..len];
        ReadLocal(a, b, m);
      }
    } else {
      var flipped: u8 := if stale[0] == 0 then 1 else 0;
      var other := stale[0 := flipped];
      var b, k := (data + other)[offset..], |data| - offset;
      assert a[k] == stale[0] && b[k] == flipped;
      ReadSeesByte(a, b, m, k);
    }
  }

  /** The scan goes no further after this message. */
  predicate EndsScan(m: Message) {
    m.header.ty == NLMSG_DONE || (m.header.ty == NLMSG_ERROR && m.error.Some? && m.error.value.code != 0)
  }

  /** Every message the scan reads lies inside the datagram. */
  ghost predicate AllInside(buf: seq<u8>, len: nat, offset: nat)
    requires |buf| == BUFFER && len <= BUFFER && offset <= BUFFER && offset % 4 == 0
    decreases BUFFER - offset
  {
    offset >= len ||
    match Read(buf[offset..])
    case Err(_) => false
    case Ok(m) =>
      OffsetStaysInside(buf, offset);
      offset + Needed(m) <= len && (EndsScan(m) || AllInside(buf, len, offset + Align4(m.header.len)))
  }

  /** Then nothing behind the datagram has any effect. */
  lemma {:induction false} ScanIgnoresStale(data: seq<u8>, stale: seq<u8>, other: seq<u8>, offset: nat,
                                            acc: seq<Message>, multipart: bool)
    requires |data| + |stale| == BUFFER && |other| == |stale| && offset <= BUFFER && offset % 4 == 0
    requires AllInside(data + stale, |data|, offset)
    ensures ScanFrom(data + other, |data|, offset, acc, multipart)
         == ScanFrom(data + stale, |data|, offset, acc, multipart)
    decreases BUFFER - offset
  {
    hide Read, Needed;
    if offset < |data| {
      var a, b := (data + stale)[offset..], (data + other)[offset..];
      var m := Read(a).value;
      var k := Needed(m);
      assert a[..k] == data[offset..offset + k] == b[..k];
      ReadLocal(a, b, m);
      OffsetStaysInside(data + stale, offset);
      if !EndsScan(m) {
        var next := Handle(acc, m).messages;
        ScanIgnoresStale(data, stale, other, offset + Align4(m.header.len), next, Multi(m.header.flags));
      }
    }
  }

  /** A 20-byte datagram whose header claims 24 bytes. */
  function ShortDatagram(): (data: seq<u8>)
    ensures |data| == 20
  {
    [24, 0, 0, 0, 16, 0, 0, 0, 0, 0, 0, 0, 0, 0, 0, 0, 1, 2, 3, 4]
  }

  /** It is delivered with four bytes of what the buffer held before. */
  lemma StaleDelivered(buf: seq<u8>)
    requires |buf| == BUFFER
    ensures ScanFrom(Filled(buf, ShortDatagram()), 20, 0, [], false)
         == AtEnd([Message(Header(24, 16, 0, 0, 0), [1, 2, 3, 4] + buf[20..24], None)], false)
  {
    var full := Filled(buf, ShortDatagram());
    var m := Message(Header(24, 16, 0, 0, 0), [1, 2, 3, 4] + buf[20..24], None);
    assert full[0..] == full;
    assert Read(full) == Ok(m) by { ShortRead(buf); }
    hide Read, Filled;
    assert Align4(24) == 24 && !Multi(0);
    assert [] + [m] == [m];
  }

  lemma ShortRead(buf: seq<u8>)
    requires |buf| == BUFFER
    ensures Read(Filled(buf, ShortDatagram())) == Ok(Message(Header(24, 16, 0, 0, 0), [1, 2, 3, 4] + buf[20..24], None))
  {
    var full := Filled(buf, ShortDatagram());
    assert forall i: nat :: i < 20 ==> full[i] == ShortDatagram()[i];
    assert FromLe16(full, 0) == 24 && FromLe16(full, 2) == 0 && FromLe16(full, 4) == 16 && FromLe16(full, 6) == 0;
    assert FromLe16(full, 8) == 0 && FromLe16(full, 10) == 0 && FromLe16(full, 12) == 0 && FromLe16(full, 14) == 0;
    hide FromLe16;
    assert HeaderAt(full, 0) == Header(24, 16, 0, 0, 0);
    hide HeaderAt;
    assert full[16..24] == [1, 2, 3, 4] + buf[20..24];
  }
}
