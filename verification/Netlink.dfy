/** Netlink framing: message headers in a receive buffer, and attributes inside a payload. */
module Netlink {
  import opened Words
  import opened Bits

  // ---------------------------------------------------------------- words and padding

  function FromLe16(b: seq<u8>, i: nat): u16
    requires i + 2 <= |b|
  {
    b[i] + 0x100 * (b[i + 1] as int)
  }

  function FromLe32(b: seq<u8>, i: nat): u32
    requires i + 4 <= |b|
  {
    FromLe16(b, i) + 0x1_0000 * (FromLe16(b, i + 2) as int)
  }

  function Le16(x: u16): (r: seq<u8>)
    ensures |r| == 2
  {
    [x % 0x100, x / 0x100]
  }

  function Le32(x: u32): (r: seq<u8>)
    ensures |r| == 4
  {
    Le16(x % 0x1_0000) + Le16(x / 0x1_0000)
  }

  lemma Le16Reads(b: seq<u8>, i: nat, x: u16)
    requires i + 2 <= |b| && b[i..i + 2] == Le16(x)
    ensures FromLe16(b, i) == x
  {
    assert b[i..i + 2][0] == b[i] && b[i..i + 2][1] == b[i + 1];
  }

  lemma Le16Inverse(b: seq<u8>, i: nat)
    requires i + 2 <= |b|
    ensures Le16(FromLe16(b, i)) == b[i..i + 2]
  {
  }

  lemma Le32Reads(b: seq<u8>, i: nat, x: u32)
    requires i + 4 <= |b| && b[i..i + 4] == Le32(x)
    ensures FromLe32(b, i) == x
  {
    hide FromLe16, Le16;
    assert b[i..i + 2] == b[i..i + 4][..2] == Le16(x % 0x1_0000);
    assert b[i + 2..i + 4] == b[i..i + 4][2..] == Le16(x / 0x1_0000);
    Le16Reads(b, i, x % 0x1_0000);
    Le16Reads(b, i + 2, x / 0x1_0000);
  }

  /** Rounding up to the 4-byte alignment of messages and attributes. */
  function Align4(v: nat): (r: nat)
    ensures r % 4 == 0 && v <= r < v + 4
  {
    (v + 3) / 4 * 4
  }

  /** The masking form, (v + 3) & !3 on 64-bit words, computes it. */
  lemma AlignByMask(v: u32)
    ensures Pow2(2) == 4 && v + 3 < Pow2(USIZE_BITS)
    ensures AlignTo(USIZE_BITS, v, 2) == Align4(v)
  {
    assert Pow2(2) == 4;
    Pow2Values();
    hide AlignTo, Pow2, Align4;
    AlignToLeast(USIZE_BITS, v, 2);
    RoundedOnce(AlignTo(USIZE_BITS, v, 2), Align4(v), v);
  }

  /** There is one multiple of 4 in each window of four. */
  lemma RoundedOnce(r: nat, q: nat, v: nat)
    requires r % 4 == 0 && v <= r < v + 4 && q % 4 == 0 && v <= q < v + 4
    ensures r == q
  {
  }

  // ---------------------------------------------------------------- attributes

  const NLA_HDR_LEN: nat := 4
  const NLA_TYPE_MASK: u16 := 0x3FFF

  datatype Attr = Attr(len: u16, ty: u16, data: seq<u8>)
  datatype AttrError = InvalidBufferLength(size: nat, expected: nat) | InvalidHeaderLength(len: nat)
  datatype Result<+T, +E> = Ok(value: T) | Err(error: E)

  /** Where the attribute of a given length starting at an offset ends. */
  function AttrEnd(offset: nat, len: nat): (end: nat)
    ensures end % 4 == offset % 4 && offset + len <= end < offset + len + 4
  {
    offset + Align4(len)
  }

  /** What the iterator yields at an offset, and the offset it moves to. */
  datatype Yield = End | Item(attr: Attr, next: nat) | Fail(error: AttrError, next: nat)

  function NextAttr(attrs: seq<u8>, offset: nat): (y: Yield)
    requires offset <= |attrs|
    ensures y.End? <==> offset == |attrs|
    ensures y.Item? ==> offset + NLA_HDR_LEN <= y.next <= |attrs| && y.next % 4 == offset % 4
    ensures y.Fail? ==> y.next <= |attrs|
  {
    var left := |attrs| - offset;
    if left == 0 then End
    else if NLA_HDR_LEN > left then Fail(InvalidBufferLength(left, NLA_HDR_LEN), left)
    else
      var len := FromLe16(attrs, offset);
      if len < NLA_HDR_LEN then Fail(InvalidHeaderLength(len), offset)
      else if AttrEnd(offset, len) > |attrs| then Fail(InvalidBufferLength(left, Align4(len)), offset)
      else Item(Attr(len, FromLe16(attrs, offset + 2), attrs[offset + NLA_HDR_LEN..offset + len]), AttrEnd(offset, len))
  }

  /** Where an attribute lies in the buffer, and which of the three reasons refuses one. */
  lemma AttrLayout(attrs: seq<u8>, offset: nat)
    requires offset < |attrs|
    ensures var left := |attrs| - offset;
            var len := if left < 4 then 0 else attrs[offset] + 0x100 * (attrs[offset + 1] as int);
            var end := offset + len + (4 - len % 4) % 4;
            match NextAttr(attrs, offset)
            case End => false
            case Item(attr, next) =>
              && left >= 4 && 4 <= len == attr.len && end == next <= |attrs|
              && attr.ty == attrs[offset + 2] + 0x100 * (attrs[offset + 3] as int)
              && attr.data == attrs[offset + 4..offset + len]
            case Fail(InvalidBufferLength(size, expected), _) =>
              && size == left && (if left < 4 then expected == 4 else len >= 4 && expected == end - offset)
              && expected > left
            case Fail(InvalidHeaderLength(n), _) => left >= 4 && n == len < 4
  {
    if |attrs| - offset >= 4 {
      PaddedTo4(FromLe16(attrs, offset));
    }
  }

  lemma PaddedTo4(len: nat)
    ensures Align4(len) == len + (4 - len % 4) % 4
  {
  }

  function KeyOf(ty: u16): u16 {
    AndBound(ty, NLA_TYPE_MASK);
    And(ty, NLA_TYPE_MASK)
  }

  /** The attributes from an offset to the end, or the first error. */
  function AttrsFrom(buf: seq<u8>, offset: nat): Result<seq<Attr>, AttrError>
    requires offset <= |buf|
    decreases |buf| - offset
  {
    match NextAttr(buf, offset)
    case End => Ok([])
    case Fail(e, _) => Err(e)
    case Item(attr, next) =>
      match AttrsFrom(buf, next)
      case Err(e) => Err(e)
      case Ok(rest) => Ok([attr] + rest)
  }

  /** Last-wins map by masked type. */
  function ByType(attrs: seq<Attr>): map<u16, Attr> {
    if attrs == [] then map[]
    else
      var n := |attrs| - 1;
      ByType(attrs[..n])[KeyOf(attrs[n].ty) := attrs[n]]
  }

  /** An attribute with no later one of the same masked type is the one kept. */
  lemma {:induction false} LastWins(attrs: seq<Attr>, i: nat)
    requires i < |attrs| && forall j: nat :: i < j < |attrs| ==> KeyOf(attrs[j].ty) != KeyOf(attrs[i].ty)
    ensures KeyOf(attrs[i].ty) in ByType(attrs) && ByType(attrs)[KeyOf(attrs[i].ty)] == attrs[i]
  {
    hide KeyOf;
    var n := |attrs| - 1;
    if i < n {
      assert forall j: nat :: j < n ==> attrs[..n][j] == attrs[j];
      LastWins(attrs[..n], i);
    }
  }

  /** Every key kept comes from an attribute. */
  lemma {:induction false} KeyHasAttr(attrs: seq<Attr>, key: u16) returns (i: nat)
    requires key in ByType(attrs)
    ensures i < |attrs| && KeyOf(attrs[i].ty) == key && ByType(attrs)[key] == attrs[i]
    ensures forall j: nat :: i < j < |attrs| ==> KeyOf(attrs[j].ty) != key
  {
    hide KeyOf;
    i := |attrs| - 1;
    if KeyOf(attrs[i].ty) != key {
      var n := i;
      i := KeyHasAttr(attrs[..n], key);
      assert forall j: nat :: j < n ==> attrs[..n][j] == attrs[j];
    }
  }

  lemma KeyIsLowBits(ty: u16)
    ensures KeyOf(ty) == ty % 0x4000
  {
    assert Pow2(14) == 0x4000 by { assert Pow2(10) == 0x400; }
    AndLowMask(ty, 14);
  }

  /** An attribute on the wire, with its padding bytes. */
  datatype WireAttr = WireAttr(ty: u16, data: seq<u8>, pad: seq<u8>)

  ghost predicate WellPadded(w: WireAttr) {
    var len := NLA_HDR_LEN + |w.data|;
    len < 0x1_0000 && len + |w.pad| == Align4(len)
  }

  ghost predicate AllPadded(ws: seq<WireAttr>) {
    forall k: nat :: k < |ws| ==> WellPadded(ws[k])
  }

  ghost function AttrOf(w: WireAttr): Attr
    requires WellPadded(w)
  {
    Attr(NLA_HDR_LEN + |w.data|, w.ty, w.data)
  }

  ghost function AttrsOf(ws: seq<WireAttr>): seq<Attr>
    requires AllPadded(ws)
  {
    seq(|ws|, k requires 0 <= k < |ws| => AttrOf(ws[k]))
  }

  ghost function EncodeAttr(w: WireAttr): (r: seq<u8>)
    requires WellPadded(w)
    ensures |r| == Align4(NLA_HDR_LEN + |w.data|)
  {
    Le16(NLA_HDR_LEN + |w.data|) + Le16(w.ty) + w.data + w.pad
  }

  ghost function EncodeAttrs(ws: seq<WireAttr>): seq<u8>
    requires AllPadded(ws)
  {
    if ws == [] then [] else EncodeAttr(ws[0]) + EncodeAttrs(ws[1..])
  }

  lemma AttrReads(before: seq<u8>, w: WireAttr, after: seq<u8>)
    requires WellPadded(w)
    ensures var o := |before|;
            NextAttr(before + EncodeAttr(w) + after, o) == Item(AttrOf(w), o + |EncodeAttr(w)|)
  {
    hide Align4, FromLe16, Le16;
    var o, buf := |before|, before + EncodeAttr(w) + after;
    var len := NLA_HDR_LEN + |w.data|;
    assert buf[o..o + 2] == Le16(len);
    assert buf[o + 2..o + 4] == Le16(w.ty);
    assert buf[o + 4..o + len] == w.data;
    Le16Reads(buf, o, len);
    Le16Reads(buf, o + 2, w.ty);
  }

  /** Every list of padded attributes is read back exactly. */
  lemma {:induction false} AttrsRoundTrip(before: seq<u8>, ws: seq<WireAttr>)
    requires AllPadded(ws)
    ensures AttrsFrom(before + EncodeAttrs(ws), |before|) == Ok(AttrsOf(ws))
    decreases |ws|
  {
    hide EncodeAttr, NextAttr, AttrOf, WellPadded;
    if ws == [] {
      assert before + EncodeAttrs(ws) == before;
      assert NextAttr(before, |before|).End?;
      assert AttrsOf(ws) == [];
    } else {
      var here, rest := EncodeAttr(ws[0]), EncodeAttrs(ws[1..]);
      assert before + EncodeAttrs(ws) == before + here + rest;
      AttrReads(before, ws[0], rest);
      AttrsRoundTrip(before + here, ws[1..]);
      assert AttrsOf(ws) == [AttrOf(ws[0])] + AttrsOf(ws[1..]);
    }
  }

  /** One accepted attribute is an encoding of it. */
  lemma AttrWritten(buf: seq<u8>, offset: nat) returns (w: WireAttr)
    requires offset <= |buf| && NextAttr(buf, offset).Item?
    ensures WellPadded(w) && NextAttr(buf, offset).attr == AttrOf(w)
    ensures buf[offset..NextAttr(buf, offset).next] == EncodeAttr(w)
  {
    var item := NextAttr(buf, offset);
    var len := item.attr.len;
    w := WireAttr(item.attr.ty, item.attr.data, buf[offset + len..item.next]);
    Le16Inverse(buf, offset);
    Le16Inverse(buf, offset + 2);
    hide FromLe16, Le16, Align4;
    assert buf[offset..item.next] == buf[offset..offset + 2] + buf[offset + 2..offset + 4] + w.data + w.pad;
  }

  lemma {:induction false} AttrsWritten(buf: seq<u8>, offset: nat) returns (ws: seq<WireAttr>)
    requires offset <= |buf| && AttrsFrom(buf, offset).Ok?
    ensures AllPadded(ws) && buf[offset..] == EncodeAttrs(ws)
    decreases |buf| - offset
  {
    hide EncodeAttr, AttrOf, WellPadded;
    var item := NextAttr(buf, offset);
    if item.End? {
      ws := [];
    } else {
      hide NextAttr;
      var w := AttrWritten(buf, offset);
      var rest := AttrsWritten(buf, item.next);
      ws := [w] + rest;
      assert ws[1..] == rest;
      assert buf[offset..] == buf[offset..item.next] + buf[item.next..];
    }
  }

  /** Parsing accepts exactly the concatenations of padded attributes. */
  lemma AcceptsExactly(buf: seq<u8>)
    ensures AttrsFrom(buf, 0).Ok? <==> exists ws: seq<WireAttr> :: AllPadded(ws) && EncodeAttrs(ws) == buf
  {
    hide AttrsFrom, EncodeAttrs, AllPadded;
    if AttrsFrom(buf, 0).Ok? {
      var ws := AttrsWritten(buf, 0);
      assert buf[0..] == buf;
    }
    forall ws: seq<WireAttr> | AllPadded(ws) && EncodeAttrs(ws) == buf
      ensures AttrsFrom(buf, 0).Ok?
    {
      AttrsRoundTrip([], ws);
      assert [] + buf == buf;
    }
  }

  class NlAttrsIterator {
    const attrs: seq<u8>
    var offset: nat

    constructor (attrs: seq<u8>)
      ensures this.attrs == attrs && offset == 0
    {
      this.attrs := attrs;
      offset := 0;
    }

    method Next() returns (item: Option<Result<Attr, AttrError>>)
      requires offset <= |attrs|
      modifies this
      ensures offset <= |attrs|
      ensures match NextAttr(attrs, old(offset))
              case End => item == None && offset == old(offset)
              case Fail(e, next) => item == Some(Err(e)) && offset == next
              case Item(attr, next) => item == Some(Ok(attr)) && offset == next
    {
      var size := |attrs| - offset;
      if size == 0 {
        return None;
      }
      if NLA_HDR_LEN > size {
        offset := size;
        return Some(Err(InvalidBufferLength(size, NLA_HDR_LEN)));
      }
      var len, ty := FromLe16(attrs, offset), FromLe16(attrs, offset + 2);
      var alignLen := Align4(len);
      if len < NLA_HDR_LEN {
        return Some(Err(InvalidHeaderLength(len)));
      }
      if alignLen > size {
        return Some(Err(InvalidBufferLength(size, alignLen)));
      }
      var data := attrs[offset + NLA_HDR_LEN..offset + len];
      offset := offset + alignLen;
      return Some(Ok(Attr(len, ty, data)));
    }
  }

  /** Results of the attributes read so far followed by the rest. */
  ghost function Joined(read: seq<Attr>, rest: Result<seq<Attr>, AttrError>): Result<seq<Attr>, AttrError> {
    match rest
    case Err(e) => Err(e)
    case Ok(attrs) => Ok(read + attrs)
  }

  lemma JoinedNothing(rest: Result<seq<Attr>, AttrError>)
    ensures Joined([], rest) == rest
  {
    if rest.Ok? { assert [] + rest.value == rest.value; }
  }

  lemma JoinedStep(buf: seq<u8>, offset: nat, read: seq<Attr>)
    requires offset <= |buf|
    ensures var rest := AttrsFrom(buf, offset);
            match NextAttr(buf, offset)
            case End => Joined(read, rest) == Ok(read)
            case Fail(e, _) => Joined(read, rest) == Err(e)
            case Item(attr, next) => Joined(read, rest) == Joined(read + [attr], AttrsFrom(buf, next))
  {
    hide NextAttr;
    var item := NextAttr(buf, offset);
    assert read + [] == read;
    if item.Item? && AttrsFrom(buf, item.next).Ok? {
      var rest := AttrsFrom(buf, item.next).value;
      assert read + ([item.attr] + rest) == read + [item.attr] + rest;
    }
  }

  /** All attributes of a buffer by masked type, or the first error. */
  method ParseAttrs(buf: seq<u8>) returns (r: Result<map<u16, Attr>, AttrError>)
    ensures match AttrsFrom(buf, 0)
            case Err(e) => r == Err(e)
            case Ok(attrs) => r == Ok(ByType(attrs))
  {
    hide KeyOf, NextAttr, AttrsFrom;
    var it := new NlAttrsIterator(buf);
    var found: map<u16, Attr> := map[];
    ghost var read: seq<Attr> := [];
    JoinedNothing(AttrsFrom(buf, 0));
    while true
      invariant it.attrs == buf && it.offset <= |buf| && fresh(it)
      invariant found == ByType(read)
      invariant AttrsFrom(buf, 0) == Joined(read, AttrsFrom(buf, it.offset))
      decreases |buf| - it.offset
    {
      JoinedStep(buf, it.offset, read);
      var item := it.Next();
      if item.None? {
        return Ok(found);
      }
      if item.value.Err? {
        return Err(item.value.error);
      }
      var attr := item.value.value;
      found := found[KeyOf(attr.ty) := attr];
      assert (read + [attr])[..|read|] == read;
      read := read + [attr];
    }
  }
}
