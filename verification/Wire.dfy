/** The frame format: SOF, SID, TYPE, DLC, payload, CID, CRC8. */
module Wire {
  import opened Bytes
  import opened Crc8

  const SOF: byte := 0xAA
  const HEADER: nat := 5    // SOF, SID, TYPE and the two DLC bytes
  const OVERHEAD: nat := 8  // the header, two CID bytes and the CRC

  // The longest payload each side accepts.
  const GATEWAY_LIMIT: nat := 256
  const FIRMWARE_LIMIT: nat := 500
  const CLIENT_LIMIT: nat := 4096

  datatype Frame = Frame(sid: byte, kind: byte, dlc: u16, cid: u16, payload: seq<byte>) {
    /** The announced length is the real one. */
    predicate Consistent() {
      dlc == |payload|
    }
  }

  /** Everything the checksum covers. */
  function Body(f: Frame): (b: seq<byte>)
    ensures |b| == 6 + |f.payload|
  {
    [f.sid, f.kind, Lo(f.dlc), Hi(f.dlc)] + f.payload + [Lo(f.cid), Hi(f.cid)]
  }

  function Encode(f: Frame): (w: seq<byte>)
    ensures |w| == OVERHEAD + |f.payload|
  {
    [SOF] + Body(f) + [Crc(Body(f))]
  }

  function DlcOf(w: seq<byte>): u16
    requires |w| >= HEADER
  {
    Le16(w[3], w[4])
  }

  /** A slice that is one whole frame with at most maxDlc payload bytes; `checked` receivers test the CRC. */
  predicate IsWire(w: seq<byte>, maxDlc: nat, checked: bool) {
    && |w| >= OVERHEAD
    && w[0] == SOF
    && DlcOf(w) <= maxDlc
    && |w| == OVERHEAD + DlcOf(w)
    && (checked ==> w[|w| - 1] == Crc(w[1..|w| - 1]))
  }

  /** The frame a slice carries. */
  function Decode(w: seq<byte>): Frame
    requires |w| >= OVERHEAD
  {
    Frame(w[1], w[2], DlcOf(w), Le16(w[|w| - 3], w[|w| - 2]), w[HEADER..|w| - 3])
  }

  /** A frame's bytes up to its checksum, field by field. */
  lemma LayOut(f: Frame)
    ensures [SOF] + Body(f) == [SOF] + [f.sid, f.kind, Lo(f.dlc), Hi(f.dlc)] + f.payload + [Lo(f.cid), Hi(f.cid)]
  {
  }

  lemma Sealed(f: Frame)
    ensures Encode(f) == [SOF] + Body(f) + [Crc(Body(f))]
  {
  }

  lemma BodyBytes(f: Frame)
    ensures var b := Body(f);
      b[0] == f.sid && b[1] == f.kind && b[2] == Lo(f.dlc) && b[3] == Hi(f.dlc) &&
      b[4..|b| - 2] == f.payload && b[|b| - 2] == Lo(f.cid) && b[|b| - 1] == Hi(f.cid)
  {
  }

  /** Every consistent frame survives the trip over the wire. */
  lemma DecodeEncode(f: Frame)
    requires f.Consistent()
    ensures IsWire(Encode(f), f.dlc, true)
    ensures Decode(Encode(f)) == f
  {
    hide Crc, Body, Le16, Lo, Hi;
    var w, b := Encode(f), Body(f);
    BodyBytes(f);
    assert w[1..|w| - 1] == b;
    Le16OfBytes(f.dlc);
    Le16OfBytes(f.cid);
    assert w[HEADER..|w| - 3] == b[4..|b| - 2];
  }

  /** Every accepted slice is the encoding of the frame read from it: relaying is byte-exact. */
  lemma EncodeDecode(w: seq<byte>, maxDlc: nat)
    requires IsWire(w, maxDlc, true)
    ensures Decode(w).Consistent() && Decode(w).dlc <= maxDlc
    ensures Encode(Decode(w)) == w
  {
    hide Crc, Lo, Hi, Le16;
    var f := Decode(w);
    BytesOfLe16(w[3], w[4]);
    BytesOfLe16(w[|w| - 3], w[|w| - 2]);
    assert w[1..|w| - 1] == Body(f);
  }

  lemma FieldBytes(n: u16)
    ensures Lo(n) as int + 256 * (Hi(n) as int) == n
  {
    Le16OfBytes(n);
  }

  lemma EncodedBytes(f: Frame)
    ensures var w, b := Encode(f), Body(f);
      |w| == 2 + |b| && w[0] == SOF && w[1..1 + |b|] == b && w[1 + |b|] == Crc(b)
  {
    hide Crc, Body;
  }

  lemma BytesInPlace(f: Frame)
    ensures var w := Encode(f); var n := |f.payload|;
      && |w| == 8 + n && w[0] == SOF && w[1] == f.sid && w[2] == f.kind
      && w[3] == Lo(f.dlc) && w[4] == Hi(f.dlc) && w[5..5 + n] == f.payload
      && w[5 + n] == Lo(f.cid) && w[6 + n] == Hi(f.cid) && w[7 + n] == Crc(w[1..7 + n])
  {
    hide Crc, Body, Encode, Lo, Hi;
    var w, b, n := Encode(f), Body(f), |f.payload|;
    EncodedBytes(f);
    BodyBytes(f);
    assert |b| == 6 + n;
    assert forall i :: 0 <= i < |b| ==> w[1 + i] == w[1..1 + |b|][i] == b[i];
    SliceOfSlice(w, 1, 1 + |b|, 4, 4 + n);
  }

  /** Where everything lies in a frame, for any frame: the two-byte fields with their low byte first. */
  lemma FrameLayout(f: Frame)
    requires f.Consistent()
    ensures var w := Encode(f); var n := |f.payload|;
      && |w| == 8 + n && w[0] == 0xAA && w[1] == f.sid && w[2] == f.kind
      && w[3] as int + 256 * (w[4] as int) == f.dlc
      && w[5..5 + n] == f.payload
      && w[5 + n] as int + 256 * (w[6 + n] as int) == f.cid
      && w[7 + n] == Crc(w[1..7 + n])
  {
    hide Crc, Body, Encode, Lo, Hi;
    BytesInPlace(f);
    FieldBytes(f.dlc);
    FieldBytes(f.cid);
  }
}
