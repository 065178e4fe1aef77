/** Receiving netlink messages: reading one message from the buffer, and the loop that takes
    datagrams until a multipart reply is complete. The socket is the list of its replies. */
module NetlinkMessages {
  import opened Words
  import opened Bits
  import opened Netlink

  const BUFFER: nat := 4096
  const NLMSG_HDR: nat := 16
  const NLMSG_ERR: nat := 20
  const NLMSG_ERROR: u16 := 2
  const NLMSG_DONE: u16 := 3
  const NLM_F_MULTI: nat := 2

  datatype Header = Header(len: u32, ty: u16, flags: u16, seqno: u32, pid: u32)
  datatype ErrorBody = ErrorBody(code: int, header: Header)
  datatype Message = Message(header: Header, data: seq<u8>, error: Option<ErrorBody>)

  datatype RecvError = TooSmall | InvalidLength | NeedMoreData | NoErrorBody | Os(code: int)

  /** Two's complement value of a 32-bit word, and its wrapping negation. */
  function Signed(x: u32): int {
    if x < 0x8000_0000 then x else x - U32_SPAN
  }

  function Errno(code: int): int {
    if code == -0x8000_0000 then code else -code
  }

  predicate Multi(flags: u16) {
    flags / NLM_F_MULTI % 2 == 1
  }

  /** The multipart flag is bit 1. */
  lemma MultiIff(flags: u16)
    ensures Multi(flags) <==> Bit(flags, 1)
    ensures Multi(flags) <==> And(flags, 2) != 0
  {
    assert Bit(flags, 1) <==> Bit(flags / 2, 0);
    AndTwo(flags);
    hide And;
  }

  lemma AndTwo(x: nat)
    ensures And(x, 2) == if x / 2 % 2 == 1 then 2 else 0
  {
    var h := x / 2;
    AndZero(h / 2);
    assert And(h, 1) == h % 2;
  }

  // ---------------------------------------------------------------- one message

  function HeaderAt(buf: seq<u8>, i: nat): Header
    requires i + NLMSG_HDR <= |buf|
  {
    Header(FromLe32(buf, i), FromLe16(buf, i + 4), FromLe16(buf, i + 6), FromLe32(buf, i + 8), FromLe32(buf, i + 12))
  }

  function Read(buf: seq<u8>): (r: Result<Message, RecvError>)
    ensures r.Ok? ==> NLMSG_HDR <= r.value.header.len <= |buf|
    ensures r.Ok? ==> (r.value.error.Some? <==> r.value.header.ty == NLMSG_ERROR)
  {
    if NLMSG_HDR > |buf| then Err(TooSmall)
    else
      var header := HeaderAt(buf, 0);
      if header.len < NLMSG_HDR || header.len > |buf| then Err(InvalidLength)
      else if NLMSG_HDR >= |buf| then Err(NeedMoreData)
      else if header.ty == NLMSG_ERROR then
        if NLMSG_HDR + NLMSG_ERR > |buf| then Err(NoErrorBody)
        else Ok(Message(header, [], Some(ErrorBody(Signed(FromLe32(buf, NLMSG_HDR)), HeaderAt(buf, NLMSG_HDR + 4)))))
      else Ok(Message(header, buf[NLMSG_HDR..header.len], None))
  }

  /** Little-endian 16- and 32-bit numbers. */
  ghost predicate Holds16(buf: seq<u8>, i: nat, x: int)
    requires i + 2 <= |buf|
  {
    x == buf[i] + 0x100 * (buf[i + 1] as int)
  }

  ghost predicate Holds32(buf: seq<u8>, i: nat, x: int)
    requires i + 4 <= |buf|
  {
    x == buf[i] + 0x100 * (buf[i + 1] as int) + 0x1_0000 * (buf[i + 2] as int) + 0x100_0000 * (buf[i + 3] as int)
  }

  ghost predicate HeaderHeld(buf: seq<u8>, i: nat, h: Header)
    requires i + 16 <= |buf|
  {
    && Holds32(buf, i, h.len) && Holds16(buf, i + 4, h.ty) && Holds16(buf, i + 6, h.flags)
    && Holds32(buf, i + 8, h.seqno) && Holds32(buf, i + 12, h.pid)
  }

  lemma HeaderLayout(buf: seq<u8>, i: nat)
    requires i + 16 <= |buf|
    ensures HeaderHeld(buf, i, HeaderAt(buf, i))
  {
  }

  /** Where everything of a message lies in the buffer, and for which buffers there is none. */
  lemma ReadLayout(buf: seq<u8>)
    ensures match Read(buf)
            case Err(TooSmall) => |buf| < 16
            case Err(InvalidLength) => |buf| >= 16 && forall len :: Holds32(buf, 0, len) ==> len < 16 || len > |buf|
            case Err(NeedMoreData) => |buf| == 16 && Holds32(buf, 0, 16)
            case Err(NoErrorBody) => 16 < |buf| < 36 && Holds16(buf, 4, 2)
            case Err(Os(_)) => false
            case Ok(m) =>
              && |buf| > 16 && HeaderHeld(buf, 0, m.header) && 16 <= m.header.len <= |buf|
              && (m.header.ty != 2 ==> m.data == buf[16..m.header.len])
              && (m.header.ty == 2 ==>
                    && |buf| >= 36 && m.error.Some? && HeaderHeld(buf, 20, m.error.value.header)
                    && Holds32(buf, 16, m.error.value.code % U32_SPAN))
  {
    if |buf| >= 16 { HeaderLayout(buf, 0); }
    if |buf| >= 36 { HeaderLayout(buf, 20); }
  }

  // ---------------------------------------------------------------- one datagram

  /** How a datagram ends: at its end with the last multipart flag, at a DONE, or at an error. */
  datatype Scan =
    | AtEnd(messages: seq<Message>, multipart: bool)
    | AtDone(messages: seq<Message>)
    | Bad(error: RecvError)

  /** What one message does to the messages so far. */
  datatype Effect = Continue(messages: seq<Message>) | Stop(messages: seq<Message>) | Abort(error: RecvError)

  function Handle(acc: seq<Message>, m: Message): Effect
    requires m.error.Some? <==> m.header.ty == NLMSG_ERROR
  {
    if m.header.ty == NLMSG_ERROR then
      if m.error.value.code == 0 then Continue(acc) else Abort(Os(Errno(m.error.value.code)))
    else if m.header.ty == NLMSG_DONE then Stop(acc)
    else Continue(acc + [m])
  }

  /** A message accepted at an aligned offset leaves an aligned offset inside the buffer. */
  lemma OffsetStaysInside(buf: seq<u8>, offset: nat)
    requires |buf| == BUFFER && offset < BUFFER && offset % 4 == 0 && Read(buf[offset..]).Ok?
    ensures var next := offset + Align4(Read(buf[offset..]).value.header.len);
            next % 4 == 0 && offset + NLMSG_HDR <= next <= BUFFER
  {
    hide Read;
  }

  ghost function ScanFrom(buf: seq<u8>, len: nat, offset: nat, acc: seq<Message>, multipart: bool): Scan
    requires |buf| == BUFFER && len <= BUFFER && offset <= BUFFER && offset % 4 == 0
    decreases BUFFER - offset
  {
    if offset >= len then AtEnd(acc, multipart)
    else
      match Read(buf[offset..])
      case Err(e) => Bad(e)
      case Ok(m) =>
        OffsetStaysInside(buf, offset);
        match Handle(acc, m)
        case Continue(messages) => ScanFrom(buf, len, offset + Align4(m.header.len), messages, Multi(m.header.flags))
        case Stop(messages) => AtDone(messages)
        case Abort(e) => Bad(e)
  }

  method ScanDatagram(buf: array<u8>, len: nat, acc: seq<Message>) returns (scan: Scan)
    requires buf.Length == BUFFER && len <= BUFFER
    ensures scan == ScanFrom(buf[..], len, 0, acc, false)
  {
    hide Read;
    var messages, multipart, offset := acc, false, 0;
    while offset < len
      invariant offset % 4 == 0 && offset <= BUFFER
      invariant ScanFrom(buf[..], len, 0, acc, false) == ScanFrom(buf[..], len, offset, messages, multipart)
      decreases BUFFER - offset
    {
      assert buf[..][offset..] == buf[offset..];
      var read := Read(buf[offset..]);
      if read.Err? {
        return Bad(read.error);
      }
      OffsetStaysInside(buf[..], offset);
      var message := read.value;
      offset := offset + Align4(message.header.len);
      multipart := Multi(message.header.flags);
      if message.header.ty == NLMSG_ERROR {
        var err := message.error.value;
        if err.code != 0 {
          return Bad(Os(Errno(err.code)));
        }
      } else if message.header.ty == NLMSG_DONE {
        return AtDone(messages);
      } else {
        messages := messages + [message];
      }
    }
    return AtEnd(messages, multipart);
  }

  // ---------------------------------------------------------------- the receive loop

  /** What one system call returns. */
  datatype Reply = Failed(errno: int) | Datagram(data: seq<u8>)

  /** `Waiting` means that the replies ran out and the call is still blocked. */
  datatype Received = Messages(messages: seq<Message>) | Failure(error: RecvError) | Waiting

  ghost predicate Fits(replies: seq<Reply>) {
    forall k: nat :: k < |replies| && replies[k].Datagram? ==> |replies[k].data| <= BUFFER
  }

  /** The buffer after a datagram overwrote its front. Bytes of earlier datagrams stay behind it. */
  function Filled(buf: seq<u8>, data: seq<u8>): (r: seq<u8>)
    requires |data| <= |buf|
    ensures |r| == |buf|
  {
    data + buf[|data|..]
  }

  ghost function RecvFrom(replies: seq<Reply>, buf: seq<u8>, acc: seq<Message>): Received
    requires |buf| == BUFFER && Fits(replies)
  {
    if replies == [] then Waiting
    else
      match replies[0]
      case Failed(e) => Failure(Os(e))
      case Datagram(data) =>
        if data == [] then Messages(acc)
        else
          var buf' := Filled(buf, data);
          match ScanFrom(buf', |data|, 0, acc, false)
          case Bad(e) => Failure(e)
          case AtDone(messages) => Messages(messages)
          case AtEnd(messages, multipart) =>
            if multipart then RecvFrom(replies[1..], buf', messages) else Messages(messages)
  }

  function ZeroBuffer(): (r: seq<u8>)
    ensures |r| == BUFFER
  {
    seq(BUFFER, _ => 0)
  }

  /** The system call's copy into the buffer. */
  method Fill(buf: array<u8>, data: seq<u8>)
    requires |data| <= buf.Length
    modifies buf
    ensures buf[..] == Filled(old(buf[..]), data)
  {
    for i := 0 to |data|
      invariant forall j: nat :: j < buf.Length ==> buf[j] == if j < i then data[j] else old(buf[j])
    {
      buf[i] := data[i];
    }
  }

  method Recv(replies: seq<Reply>) returns (r: Received)
    requires Fits(replies)
    ensures r == RecvFrom(replies, ZeroBuffer(), [])
  {
    hide ScanFrom;
    var buf := new u8[BUFFER](_ => 0);
    assert buf[..] == ZeroBuffer();
    var messages: seq<Message>, multipart, taken := [], true, 0;
    while multipart
      invariant taken <= |replies| && fresh(buf) && buf.Length == BUFFER
      invariant if multipart then RecvFrom(replies, ZeroBuffer(), []) == RecvFrom(replies[taken..], buf[..], messages)
                else RecvFrom(replies, ZeroBuffer(), []) == Messages(messages)
      decreases |replies| - taken, multipart
    {
      if taken == |replies| {
        return Waiting;
      }
      var reply := replies[taken];
      assert replies[taken..][1..] == replies[taken + 1..];
      taken := taken + 1;
      if reply.Failed? {
        return Failure(Os(reply.errno));
      }
      if reply.data == [] {
        return Messages(messages);
      }
      Fill(buf, reply.data);
      var scan := ScanDatagram(buf, |reply.data|, messages);
      match scan {
        case Bad(e) => return Failure(e);
        case AtDone(all) => return Messages(all);
        case AtEnd(all, more) => messages, multipart := all, more;
      }
    }
    return Messages(messages);
  }

  // ---------------------------------------------------------------- round trip

  /** A message on the wire, with its padding bytes. */
  datatype WireMsg = WireMsg(ty: u16, flags: u16, seqno: u32, pid: u32, payload: seq<u8>, pad: seq<u8>)

  ghost predicate WellFormed(w: WireMsg) {
    var len := NLMSG_HDR + |w.payload|;
    && len < U32_SPAN && len + |w.pad| == Align4(len)
    && (w.ty == NLMSG_ERROR ==> |w.payload| >= NLMSG_ERR)
  }

  ghost predicate AllWellFormed(ws: seq<WireMsg>) {
    forall k: nat :: k < |ws| ==> WellFormed(ws[k])
  }

  ghost function HeaderOf(w: WireMsg): Header
    requires WellFormed(w)
  {
    Header(NLMSG_HDR + |w.payload|, w.ty, w.flags, w.seqno, w.pid)
  }

  /** The message a reader is meant to see. */
  ghost function Decoded(w: WireMsg): Message
    requires WellFormed(w)
  {
    if w.ty == NLMSG_ERROR then
      Message(HeaderOf(w), [], Some(ErrorBody(Signed(FromLe32(w.payload, 0)), HeaderAt(w.payload, 4))))
    else Message(HeaderOf(w), w.payload, None)
  }

  ghost function EncodeHeader(h: Header): (r: seq<u8>)
    ensures |r| == NLMSG_HDR
  {
    Le32(h.len) + Le16(h.ty) + Le16(h.flags) + Le32(h.seqno) + Le32(h.pid)
  }

  ghost function EncodeMsg(w: WireMsg): (r: seq<u8>)
    requires WellFormed(w)
    ensures |r| == Align4(NLMSG_HDR + |w.payload|)
  {
    EncodeHeader(HeaderOf(w)) + w.payload + w.pad
  }

  ghost function EncodeMsgs(ws: seq<WireMsg>): (r: seq<u8>)
    requires AllWellFormed(ws)
  {
    if ws == [] then [] else EncodeMsg(ws[0]) + EncodeMsgs(ws[1..])
  }

  lemma {:induction false} EncodedLength(ws: seq<WireMsg>)
    requires AllWellFormed(ws)
    ensures |EncodeMsgs(ws)| % 4 == 0 && (ws != [] ==> |EncodeMsgs(ws)| >= NLMSG_HDR)
  {
    hide EncodeMsg, WellFormed, Align4;
    if ws != [] {
      EncodedLength(ws[1..]);
      assert |EncodeMsg(ws[0])| % 4 == 0 && |EncodeMsg(ws[0])| >= NLMSG_HDR;
    }
  }

  lemma HeaderReads(h: Header, rest: seq<u8>)
    ensures HeaderAt(EncodeHeader(h) + rest, 0) == h
  {
    hide FromLe16, FromLe32, Le16, Le32;
    var buf := EncodeHeader(h) + rest;
    assert buf[0..4] == Le32(h.len);
    assert buf[4..6] == Le16(h.ty);
    assert buf[6..8] == Le16(h.flags);
    assert buf[8..12] == Le32(h.seqno);
    assert buf[12..16] == Le32(h.pid);
    Le32Reads(buf, 0, h.len);
    Le16Reads(buf, 4, h.ty);
    Le16Reads(buf, 6, h.flags);
    Le32Reads(buf, 8, h.seqno);
    Le32Reads(buf, 12, h.pid);
  }

  lemma FieldsShift(a: seq<u8>, b: seq<u8>, c: seq<u8>, i: nat)
    ensures i + 4 <= |b| ==> FromLe32(a + b + c, |a| + i) == FromLe32(b, i)
    ensures i + NLMSG_HDR <= |b| ==> HeaderAt(a + b + c, |a| + i) == HeaderAt(b, i)
  {
    assert forall j: nat :: j < |b| ==> (a + b + c)[|a| + j] == b[j];
  }

  /** A written message is read back from any buffer it starts, unless it is a bare header that
      the buffer ends with. */
  lemma ReadsBack(w: WireMsg, rest: seq<u8>)
    requires WellFormed(w)
    ensures Read(EncodeMsg(w) + rest) == if w.payload == [] && rest == [] then Err(NeedMoreData) else Ok(Decoded(w))
  {
    hide FromLe16, FromLe32, EncodeHeader, HeaderAt, Align4, Signed;
    var head := EncodeHeader(HeaderOf(w));
    var buf := EncodeMsg(w) + rest;
    assert buf == head + (w.payload + w.pad + rest) == head + w.payload + (w.pad + rest);
    HeaderReads(HeaderOf(w), w.payload + w.pad + rest);
    FieldsShift(head, w.payload, w.pad + rest, 0);
    FieldsShift(head, w.payload, w.pad + rest, 4);
    if w.payload == [] { assert Align4(NLMSG_HDR) == NLMSG_HDR; }
    assert buf[NLMSG_HDR..NLMSG_HDR + |w.payload|] == w.payload;
  }

  /** Delivering a list of messages, with no bytes involved. */
  ghost function Deliver(ws: seq<WireMsg>, acc: seq<Message>, multipart: bool): Scan
    requires AllWellFormed(ws)
    decreases |ws|
  {
    if ws == [] then AtEnd(acc, multipart)
    else
      match Handle(acc, Decoded(ws[0]))
      case Continue(messages) => Deliver(ws[1..], messages, Multi(ws[0].flags))
      case Stop(messages) => AtDone(messages)
      case Abort(e) => Bad(e)
  }

  /** The datagram does not fill the buffer with a bare header at its end. */
  ghost predicate NoBareEnd(ws: seq<WireMsg>)
    requires AllWellFormed(ws)
  {
    ws != [] ==> |EncodeMsgs(ws)| < 4096 || ws[|ws| - 1].payload != []
  }

  /** Any concatenation of padded messages in the buffer is delivered exactly, whatever bytes lie
      behind the datagram. */
  lemma {:induction false} ScanDelivers(before: seq<u8>, ws: seq<WireMsg>, stale: seq<u8>,
                                        acc: seq<Message>, multipart: bool)
    requires AllWellFormed(ws) && |before| % 4 == 0 && |before + EncodeMsgs(ws) + stale| == BUFFER
    requires ws != [] && stale == [] ==> ws[|ws| - 1].payload != []
    ensures ScanFrom(before + EncodeMsgs(ws) + stale, |before| + |EncodeMsgs(ws)|, |before|, acc, multipart)
            == Deliver(ws, acc, multipart)
    decreases |ws|
  {
    hide EncodeMsg, Read, Decoded, WellFormed, Handle;
    if ws != [] {
      var here, rest := EncodeMsg(ws[0]), EncodeMsgs(ws[1..]);
      var buf := before + EncodeMsgs(ws) + stale;
      assert buf == (before + here) + rest + stale;
      assert buf[|before|..] == here + (rest + stale);
      ReadsBack(ws[0], rest + stale);
      DecodedLength(ws[0]);
      NotBare(ws, stale);
      match Handle(acc, Decoded(ws[0])) {
        case Continue(messages) =>
          ScanDelivers(before + here, ws[1..], stale, messages, Multi(ws[0].flags));
        case Stop(_) =>
        case Abort(_) =>
      }
    }
  }

  lemma DecodedLength(w: WireMsg)
    requires WellFormed(w)
    ensures |EncodeMsg(w)| == Align4(Decoded(w).header.len) && Decoded(w).header.flags == w.flags
  {
  }

  lemma NotBare(ws: seq<WireMsg>, stale: seq<u8>)
    requires AllWellFormed(ws) && ws != [] && (stale == [] ==> ws[|ws| - 1].payload != [])
    ensures ws[0].payload != [] || EncodeMsgs(ws[1..]) + stale != []
    ensures ws[1..] != [] && stale == [] ==> ws[1..][|ws| - 2].payload != []
  {
    hide WellFormed, EncodeMsgs;
    EncodedLength(ws[1..]);
  }

  /** A bare header in the last 16 bytes of the buffer is refused. */
  lemma BareEndRefused(before: seq<u8>, w: WireMsg, acc: seq<Message>, multipart: bool)
    requires WellFormed(w) && w.payload == [] && |before| == BUFFER - NLMSG_HDR
    ensures |EncodeMsg(w)| == NLMSG_HDR
    ensures ScanFrom(before + EncodeMsg(w), BUFFER, |before|, acc, multipart) == Bad(NeedMoreData)
  {
    assert Align4(NLMSG_HDR) == NLMSG_HDR;
    hide EncodeMsg, Read;
    ReadsBack(w, []);
    assert EncodeMsg(w) + [] == EncodeMsg(w) == (before + EncodeMsg(w))[|before|..];
  }

  // ---------------------------------------------------------------- whole replies

  ghost predicate Sendable(groups: seq<seq<WireMsg>>) {
    forall k: nat :: k < |groups| ==>
      AllWellFormed(groups[k]) && |EncodeMsgs(groups[k])| <= 4096 && NoBareEnd(groups[k])
  }

  /** One datagram per group of messages. */
  ghost function Datagrams(groups: seq<seq<WireMsg>>): (r: seq<Reply>)
    requires Sendable(groups)
    ensures Fits(r)
  {
    seq(|groups|, k requires 0 <= k < |groups| => Datagram(EncodeMsgs(groups[k])))
  }

  /** Delivering groups until one is empty, ends the reply or fails. */
  ghost function DeliverAll(groups: seq<seq<WireMsg>>, acc: seq<Message>): Received
    requires Sendable(groups)
  {
    if groups == [] then Waiting
    else if groups[0] == [] then Messages(acc)
    else
      match Deliver(groups[0], acc, false)
      case Bad(e) => Failure(e)
      case AtDone(messages) => Messages(messages)
      case AtEnd(messages, multipart) =>
        if multipart then DeliverAll(groups[1..], messages) else Messages(messages)
  }

  /** The receive loop recovers the messages from the bytes of any sequence of datagrams. */
  lemma {:induction false} RecvDelivers(groups: seq<seq<WireMsg>>, buf: seq<u8>, acc: seq<Message>)
    requires Sendable(groups) && |buf| == BUFFER
    ensures RecvFrom(Datagrams(groups), buf, acc) == DeliverAll(groups, acc)
    decreases |groups|
  {
    hide ScanFrom, Deliver, EncodeMsgs;
    if groups != [] {
      var data, ws := EncodeMsgs(groups[0]), groups[0];
      EncodedEmpty(ws);
      if ws != [] {
        var buf', stale := Filled(buf, data), buf[|data|..];
        assert buf' == [] + data + stale;
        ScanDelivers([], ws, stale, acc, false);
        assert Datagrams(groups)[1..] == Datagrams(groups[1..]);
        match Deliver(ws, acc, false) {
          case AtEnd(messages, multipart) => RecvDelivers(groups[1..], buf', messages);
          case AtDone(_) =>
          case Bad(_) =>
        }
      }
    }
  }

  lemma EncodedEmpty(ws: seq<WireMsg>)
    requires AllWellFormed(ws)
    ensures EncodeMsgs(ws) == [] <==> ws == []
  {
    hide EncodeMsg, WellFormed;
    EncodedLength(ws);
  }

  /** A message of a dump: neither an error nor the end marker. */
  ghost predicate Plain(ws: seq<WireMsg>) {
    forall k: nat :: k < |ws| ==> ws[k].ty != 2 && ws[k].ty != 3
  }

  ghost function AllDecoded(ws: seq<WireMsg>): seq<Message>
    requires AllWellFormed(ws)
  {
    seq(|ws|, k requires 0 <= k < |ws| => Decoded(ws[k]))
  }

  /** Plain messages are all kept, and the last one's flag decides whether more is awaited. */
  lemma {:induction false} DeliverPlain(ws: seq<WireMsg>, tail: seq<WireMsg>, acc: seq<Message>, multipart: bool)
    requires AllWellFormed(ws) && AllWellFormed(tail) && Plain(ws)
    ensures AllWellFormed(ws + tail)
    ensures Deliver(ws + tail, acc, multipart)
            == Deliver(tail, acc + AllDecoded(ws), if ws == [] then multipart else Multi(ws[|ws| - 1].flags))
    decreases |ws|
  {
    hide WellFormed;
    if ws == [] {
      assert ws + tail == tail;
      assert acc + AllDecoded(ws) == acc;
    } else {
      assert (ws + tail)[1..] == ws[1..] + tail;
      DeliverPlain(ws[1..], tail, acc + [Decoded(ws[0])], Multi(ws[0].flags));
      assert acc + [Decoded(ws[0])] + AllDecoded(ws[1..]) == acc + AllDecoded(ws);
    }
  }

  ghost function Flat(groups: seq<seq<WireMsg>>): seq<WireMsg> {
    if groups == [] then [] else groups[0] + Flat(groups[1..])
  }

  /** A dump: nonempty datagrams of plain multipart messages, then one that holds the end marker. */
  ghost predicate Dump(groups: seq<seq<WireMsg>>) {
    forall k: nat :: k < |groups| ==>
      groups[k] != [] && Plain(groups[k]) && Bit(groups[k][|groups[k]| - 1].flags, 1)
  }

  /** A datagram of plain messages. */
  lemma DeliverGroup(ws: seq<WireMsg>, acc: seq<Message>)
    requires AllWellFormed(ws) && Plain(ws) && ws != []
    ensures Deliver(ws, acc, false) == AtEnd(acc + AllDecoded(ws), Multi(ws[|ws| - 1].flags))
  {
    hide WellFormed;
    DeliverPlain(ws, [], acc, false);
    assert ws + [] == ws;
  }

  /** The datagram with the end marker, and whatever follows it. */
  lemma DeliverFinal(last: seq<WireMsg>, done: WireMsg, trailing: seq<WireMsg>, acc: seq<Message>)
    requires AllWellFormed(last + [done] + trailing) && Plain(last) && done.ty == 3
    ensures AllWellFormed(last)
    ensures Deliver(last + [done] + trailing, acc, false) == AtDone(acc + AllDecoded(last))
  {
    hide WellFormed;
    var final := last + [done] + trailing;
    assert forall k: nat :: k < |last| ==> final[k] == last[k];
    assert final[|last|] == done;
    assert forall k: nat :: k < |trailing| ==> final[|last| + 1 + k] == trailing[k];
    assert final == last + ([done] + trailing);
    DeliverPlain(last, [done] + trailing, acc, false);
  }

  /** A dump over any number of datagrams yields exactly its messages before the end marker. */
  lemma {:induction false} DumpRecovered(groups: seq<seq<WireMsg>>, last: seq<WireMsg>, done: WireMsg,
                                         trailing: seq<WireMsg>, acc: seq<Message>)
    requires Sendable(groups + [last + [done] + trailing])
    requires Dump(groups) && Plain(last) && done.ty == 3
    ensures AllWellFormed(Flat(groups) + last)
    ensures DeliverAll(groups + [last + [done] + trailing], acc) == Messages(acc + AllDecoded(Flat(groups) + last))
    decreases |groups|
  {
    var final := last + [done] + trailing;
    SendableParts(groups, final);
    if groups != [] { DumpParts(groups); }
    hide WellFormed, AllWellFormed, Sendable, Dump, Plain, Deliver, AllDecoded, Multi;
    if groups == [] {
      DeliverFinal(last, done, trailing, acc);
      assert groups + [final] == [final];
      assert Flat(groups) + last == last;
    } else {
      var first, rest := groups[0], Flat(groups[1..]) + last;
      DeliverGroup(first, acc);
      DumpRecovered(groups[1..], last, done, trailing, acc + AllDecoded(first));
      Associative(first, Flat(groups[1..]), last);
      DecodedJoin(first, rest);
      Associative(acc, AllDecoded(first), AllDecoded(rest));
    }
  }

  lemma Associative<T>(a: seq<T>, b: seq<T>, c: seq<T>)
    ensures a + b + c == a + (b + c)
  {
  }

  lemma SendableParts(groups: seq<seq<WireMsg>>, final: seq<WireMsg>)
    requires Sendable(groups + [final])
    ensures AllWellFormed(final)
    ensures groups != [] ==> && AllWellFormed(groups[0]) && Sendable(groups[1..] + [final])
                             && (groups + [final])[1..] == groups[1..] + [final] && (groups + [final])[0] == groups[0]
  {
    hide WellFormed, EncodeMsgs, NoBareEnd;
    var all := groups + [final];
    assert all[|groups|] == final;
    if groups != [] {
      assert all[0] == groups[0] && all[1..] == groups[1..] + [final];
      assert forall k: nat :: k < |all[1..]| ==> all[1..][k] == all[k + 1];
    }
  }

  lemma DumpParts(groups: seq<seq<WireMsg>>)
    requires Dump(groups) && groups != []
    ensures var first := groups[0]; first != [] && Plain(first) && Multi(first[|first| - 1].flags)
    ensures Dump(groups[1..])
  {
    MultiIff(groups[0][|groups[0]| - 1].flags);
    hide Bit, Multi;
    assert forall k: nat :: k < |groups[1..]| ==> groups[1..][k] == groups[k + 1];
  }

  /** From bytes: receiving a dump gives exactly its messages, whatever the buffer held. */
  lemma DumpReceived(groups: seq<seq<WireMsg>>, last: seq<WireMsg>, done: WireMsg, trailing: seq<WireMsg>, buf: seq<u8>)
    requires Sendable(groups + [last + [done] + trailing]) && |buf| == BUFFER
    requires Dump(groups) && Plain(last) && done.ty == 3
    ensures AllWellFormed(Flat(groups) + last)
    ensures RecvFrom(Datagrams(groups + [last + [done] + trailing]), buf, [])
         == Messages(AllDecoded(Flat(groups) + last))
  {
    hide Sendable, Dump, Plain, RecvFrom, DeliverAll, AllDecoded, Datagrams;
    RecvDelivers(groups + [last + [done] + trailing], buf, []);
    DumpRecovered(groups, last, done, trailing, []);
    assert [] + AllDecoded(Flat(groups) + last) == AllDecoded(Flat(groups) + last);
  }

  /** What the kernel reports in an error message comes out as the error, with its sign turned; the messages
      before it are lost. */
  lemma ErrorReported(ws: seq<WireMsg>, w: WireMsg, trailing: seq<WireMsg>, errno: nat, buf: seq<u8>)
    requires Sendable([ws + [w] + trailing]) && |buf| == BUFFER && Plain(ws)
    requires w.ty == 2 && |w.payload| >= 4 && 0 < errno < 0x8000_0000 && Holds32(w.payload, 0, U32_SPAN - errno)
    ensures RecvFrom(Datagrams([ws + [w] + trailing]), buf, []) == Failure(Os(errno))
  {
    var all := ws + [w] + trailing;
    assert [all][0] == all;
    ErrorParts(ws, w, trailing);
    hide RecvFrom, AllDecoded, Datagrams, Holds32, Handle, Decoded, WellFormed, Sendable;
    RecvDelivers([all], buf, []);
    DeliverPlain(ws, [w] + trailing, [], false);
    ErrorHandled(w, errno, [] + AllDecoded(ws));
  }

  lemma ErrorHandled(w: WireMsg, errno: nat, acc: seq<Message>)
    requires WellFormed(w)
    requires w.ty == 2 && |w.payload| >= 4 && 0 < errno < 0x8000_0000 && Holds32(w.payload, 0, U32_SPAN - errno)
    ensures Handle(acc, Decoded(w)) == Abort(Os(errno))
  {
    assert FromLe32(w.payload, 0) == U32_SPAN - errno;
    hide FromLe32, HeaderAt, HeaderOf;
  }

  lemma ErrorParts(ws: seq<WireMsg>, w: WireMsg, trailing: seq<WireMsg>)
    requires AllWellFormed(ws + [w] + trailing)
    ensures AllWellFormed(ws) && AllWellFormed([w] + trailing) && WellFormed(w)
    ensures ws + [w] + trailing == ws + ([w] + trailing)
    ensures ([w] + trailing)[0] == w && ([w] + trailing)[1..] == trailing
  {
    hide WellFormed;
    var all := ws + [w] + trailing;
    assert forall k: nat :: k < |ws| ==> all[k] == ws[k];
    assert all[|ws|] == w;
    forall k: nat | k < |[w] + trailing|
      ensures WellFormed(([w] + trailing)[k])
    {
      assert all[|ws| + k] == ([w] + trailing)[k];
    }
  }

  /** An acknowledgement, code zero, ends a reply without adding a message. */
  lemma AckIgnored(ws: seq<WireMsg>, w: WireMsg, buf: seq<u8>)
    requires Sendable([ws + [w]]) && |buf| == BUFFER && Plain(ws)
    requires w.ty == 2 && |w.payload| >= 4 && Holds32(w.payload, 0, 0) && !Bit(w.flags, 1)
    ensures AllWellFormed(ws) && RecvFrom(Datagrams([ws + [w]]), buf, []) == Messages(AllDecoded(ws))
  {
    var all := ws + [w];
    assert [all][0] == all && all == ws + [w] + [];
    ErrorParts(ws, w, []);
    assert [w] + [] == [w];
    MultiIff(w.flags);
    assert FromLe32(w.payload, 0) == 0;
    hide RecvFrom, AllDecoded, Datagrams, FromLe32, HeaderAt, Bit, Multi;
    RecvDelivers([all], buf, []);
    DeliverPlain(ws, [w], [], false);
    assert [] + AllDecoded(ws) == AllDecoded(ws);
  }

  lemma DecodedJoin(a: seq<WireMsg>, b: seq<WireMsg>)
    requires AllWellFormed(a) && AllWellFormed(b)
    ensures AllWellFormed(a + b) && AllDecoded(a + b) == AllDecoded(a) + AllDecoded(b)
  {
    hide WellFormed, Decoded;
  }
}
