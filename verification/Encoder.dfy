/** The gateway's frame builder. */
module Encoder {
  import opened Bytes
  import opened Crc8
  import opened Wire

  const MAX_PAYLOAD: nat := GATEWAY_LIMIT

  /** A payload pointer: null, or the bytes it points to. */
  datatype Pointer = Null | To(bytes: seq<byte>)

  /** What the builder returns; nothing at all when it refuses. */
  function Built(sid: byte, kind: byte, payload: Pointer, len: u16, cid: u16): seq<byte>
    requires len <= MAX_PAYLOAD && payload.To? ==> len <= |payload.bytes|
  {
    if len > MAX_PAYLOAD then []
    else if payload.To? then Encode(Frame(sid, kind, len, cid, payload.bytes[..len]))
    else if len > 0 then []
    else Encode(Frame(sid, kind, 0, cid, []))
  }

  method BuildFrame(sid: byte, kind: byte, payload: Pointer, len: u16, cid: u16) returns (out: seq<byte>)
    requires len <= MAX_PAYLOAD && payload.To? ==> len <= |payload.bytes|
    ensures out == Built(sid, kind, payload, len, cid)
  {
    hide Crc, Lo, Hi, Body, Encode;
    if len > MAX_PAYLOAD {
      return [];
    }
    if len > 0 && payload == Null {
      return [];
    }
    ghost var bytes := if payload.To? then payload.bytes[..len] else [];
    ghost var f := Frame(sid, kind, len, cid, bytes);
    out := [SOF];
    out := out + [sid];
    out := out + [kind];
    out := out + [Lo(len)];
    out := out + [Hi(len)];
    ghost var front := [SOF] + [sid, kind, Lo(len), Hi(len)];
    OneByOne(SOF, sid, kind, Lo(len), Hi(len));
    if len > 0 {
      out := out + payload.bytes[..len];
    }
    assert out == front + bytes;
    out := out + [Lo(cid)];
    out := out + [Hi(cid)];
    OneThenOne(front + bytes, Lo(cid), Hi(cid));
    LayOut(f);
    var crc := CalcCrc8(out, 1, 6 + len);
    Behind(SOF, Body(f));
    out := out + [crc];
    Sealed(f);
  }

  lemma OneByOne(a: byte, b: byte, c: byte, d: byte, e: byte)
    ensures [a] + [b] + [c] + [d] + [e] == [a] + [b, c, d, e]
  {
  }

  lemma OneThenOne(s: seq<byte>, a: byte, b: byte)
    ensures s + [a] + [b] == s + [a, b]
  {
  }

  lemma Behind(a: byte, s: seq<byte>)
    ensures ([a] + s)[1..1 + |s|] == s
  {
  }

  /** The frame as the gateway serialises it: nothing when its DLC is over the limit. */
  function Serialized(f: Frame): seq<byte>
    requires f.dlc <= |f.payload|
  {
    Built(f.sid, f.kind, To(f.payload), f.dlc, f.cid)
  }

  /** The bytes a popped frame puts on the serial line; the builder never sees one shorter than it announces. */
  function OnLine(f: Frame): seq<byte> {
    if f.dlc <= |f.payload| then Serialized(f) else []
  }

  lemma SerializedIsEncoded(f: Frame)
    requires f.Consistent() && f.dlc <= MAX_PAYLOAD
    ensures Serialized(f) == Encode(f)
  {
    assert f.payload[..f.dlc] == f.payload;
  }

  /** The builder refuses exactly payloads of more than 256 bytes and payloads that are not there. */
  lemma RefusesIff(sid: byte, kind: byte, payload: Pointer, len: u16, cid: u16)
    requires payload.To? ==> len <= |payload.bytes|
    ensures Built(sid, kind, payload, len, cid) == [] <==> len > 256 || (payload == Null && len > 0)
    ensures len <= 256 && payload.To? ==>
      Built(sid, kind, payload, len, cid) == Encode(Frame(sid, kind, len, cid, payload.bytes[..len]))
    ensures len == 0 ==> Built(sid, kind, payload, len, cid) == Encode(Frame(sid, kind, 0, cid, []))
  {
    hide Encode;
    assert payload.To? && len == 0 ==> payload.bytes[..len] == [];
  }
}
