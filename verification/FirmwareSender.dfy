/** The firmware's frame builder and the numbers it stamps on its frames. */
module FirmwareSender {
  import opened Bytes
  import opened Crc8
  import opened Wire
  import Client

  /** The three words of the chip's unique identifier. */
  datatype Uid = Uid(u0: bv32, u1: bv32, u2: bv32)

  /** Twelve bits mixed from the identifier. */
  function Mix(uid: Uid): (m: bv32)
    ensures m <= 0xFFF
  {
    (uid.u0 ^ uid.u1 ^ uid.u2) & 0xFFF
  }

  /** The mixed bits as a number; zero is replaced by one. */
  function Nonzero(m: bv32): (node: u16)
    requires m <= 0xFFF
    ensures 1 <= node <= 0xFFF
  {
    var x := m as bv12;
    if x == 0 then 1 else InRange(x); x as int
  }

  function NodeOf(uid: Uid): (node: u16)
    ensures 1 <= node <= 0xFFF
  {
    Nonzero(Mix(uid))
  }

  lemma InRange(x: bv12)
    requires x != 0
    ensures 1 <= x as int <= 0xFFF
  {
  }

  lemma SameNumber(x: bv12, y: bv12)
    ensures x as int == y as int <==> x == y
  {
    assert (x as int) as bv12 == x && (y as int) as bv12 == y;
  }

  lemma SameNarrowed(x: bv32, y: bv32)
    requires x <= 0xFFF && y <= 0xFFF
    ensures x as bv12 == y as bv12 <==> x == y
  {
  }

  lemma SameNonzeroIff(x: bv32, y: bv32)
    requires x <= 0xFFF && y <= 0xFFF
    ensures Nonzero(x) == Nonzero(y) <==> x == y || (x == 0 && y == 1) || (x == 1 && y == 0)
  {
    SameNarrowed(x, y);
    SameNarrowed(x, 0);
    SameNarrowed(x, 1);
    SameNarrowed(y, 0);
    SameNarrowed(y, 1);
    SameNumber(x as bv12, y as bv12);
    SameNumber(x as bv12, 1);
    SameNumber(1, y as bv12);
  }

  predicate SameOrLow(x: bv32, y: bv32) {
    x == y || (x == 0 && y == 1) || (x == 1 && y == 0)
  }

  /** Two chips share a node exactly if their mixed bits are the same, or are 0 on the one and 1 on the other. */
  lemma SameNodeIff(a: Uid, b: Uid)
    ensures NodeOf(a) == NodeOf(b) <==> SameOrLow(Mix(a), Mix(b))
  {
    hide Nonzero, Mix;
    SameNonzeroIff(Mix(a), Mix(b));
  }

  lemma Flipped(a: bv32, b: bv32, c: bv32, d: bv32)
    ensures ((a ^ d) ^ b ^ c) & 0xFFF == ((a ^ b ^ c) & 0xFFF) ^ (d & 0xFFF)
    ensures (a ^ (b ^ d) ^ c) & 0xFFF == ((a ^ b ^ c) & 0xFFF) ^ (d & 0xFFF)
    ensures (a ^ b ^ (c ^ d)) & 0xFFF == ((a ^ b ^ c) & 0xFFF) ^ (d & 0xFFF)
  {
  }

  lemma MixOf(a: bv32, b: bv32, c: bv32)
    ensures Mix(Uid(a, b, c)) == (a ^ b ^ c) & 0xFFF
  {
  }

  /** In terms of the words: what matters is the low twelve bits of their exclusive or. */
  lemma SharedNodeIff(a: bv32, b: bv32, c: bv32, d: bv32, e: bv32, f: bv32)
    ensures NodeOf(Uid(a, b, c)) == NodeOf(Uid(d, e, f)) <==>
      SameOrLow((a ^ b ^ c) & 0xFFF, (d ^ e ^ f) & 0xFFF)
  {
    hide Mix, NodeOf, SameOrLow;
    MixOf(a, b, c);
    MixOf(d, e, f);
    SameNodeIff(Uid(a, b, c), Uid(d, e, f));
  }

  /** All three words are mixed in alike: bits flipped in one of them flip those of the low twelve, and no others. */
  lemma FirstWordMixed(a: bv32, b: bv32, c: bv32, d: bv32)
    ensures Mix(Uid(a ^ d, b, c)) == Mix(Uid(a, b, c)) ^ (d & 0xFFF)
  {
    hide Mix;
    MixOf(a ^ d, b, c);
    MixOf(a, b, c);
    Flipped(a, b, c, d);
  }

  lemma SecondWordMixed(a: bv32, b: bv32, c: bv32, d: bv32)
    ensures Mix(Uid(a, b ^ d, c)) == Mix(Uid(a, b, c)) ^ (d & 0xFFF)
  {
    hide Mix;
    MixOf(a, b ^ d, c);
    MixOf(a, b, c);
    Flipped(a, b, c, d);
  }

  lemma ThirdWordMixed(a: bv32, b: bv32, c: bv32, d: bv32)
    ensures Mix(Uid(a, b, c ^ d)) == Mix(Uid(a, b, c)) ^ (d & 0xFFF)
  {
    hide Mix;
    MixOf(a, b, c ^ d);
    MixOf(a, b, c);
    Flipped(a, b, c, d);
  }

  /** The node of the mixed bits is their value, except that no chip has node 0. */
  lemma NodeIsValue(uid: Uid)
    ensures Mix(uid) != 0 ==> NodeOf(uid) == Mix(uid) as int
    ensures Mix(uid) == 0 ==> NodeOf(uid) == 1
    ensures 1 <= NodeOf(uid) <= 4095
  {
    hide Mix;
    SameNarrowed(Mix(uid), 0);
    WidenedValue(Mix(uid));
  }

  lemma WidenedValue(x: bv32)
    requires x <= 0xFFF
    ensures (x as bv12) as int == x as int
  {
  }

  /** An identifier that is a small number in its last word alone gives that number. */
  lemma NodeOfSmall()
    ensures NodeOf(Uid(0, 0, 5)) == 5 && NumberOf(NodeOf(Uid(0, 0, 5)), 1) == 0x051
  {
  }

  /** The CID of the k-th frame built since start-up, counted from one. */
  function NumberOf(node: u16, k: nat): u16
    requires node <= 0xFFF
  {
    node * 16 + k % 16
  }

  /** A request to build a frame into a buffer of the given size. */
  datatype Request = Request(size: nat, sid: byte, kind: byte, payload: seq<byte>) {
    predicate Fits() {
      OVERHEAD + |payload| <= size
    }
  }

  type Sized = r: Request | |r.payload| < 0x1_0000 witness Request(0, 0, 0, [])

  function FrameFor(r: Sized, cid: u16): (f: Frame)
    ensures f.Consistent()
  {
    Frame(r.sid, r.kind, |r.payload|, cid, r.payload)
  }

  /** The builder: the buffer is filled by offset, and what it returns is the length of the frame. */
  class Builder {
    const uid: Uid
    var nodeId: u16
    var ready: bool
    var seq4: u16
    ghost var built: nat          // frames built so far
    ghost var asked: seq<Sized>   // every request so far

    ghost predicate Numbering()
      reads this
    {
      seq4 == built % 16 && (built > 0 ==> ready) && (ready ==> nodeId == NodeOf(uid))
    }

    ghost predicate Valid()
      reads this
    {
      Numbering() && built == |Sent(NodeOf(uid), 0, asked)|
    }

    constructor (uid: Uid)
      ensures Valid() && this.uid == uid && asked == []
    {
      this.uid := uid;
      nodeId, ready, seq4, built, asked := 0, false, 0, 0, [];
    }

    /** Every call takes the next number. */
    method MakeCid() returns (cid: u16)
      requires Numbering()
      modifies this
      ensures Numbering() && built == old(built) + 1 && asked == old(asked) && cid == NumberOf(NodeOf(uid), built)
    {
      if !ready {
        nodeId := NodeOf(uid);
        ready := true;
      }
      seq4 := (seq4 + 1) % 16;
      built := built + 1;
      return nodeId * 16 + seq4;
    }

    /** A frame under the next number, or, when it does not fit, nothing at all: not even a number is used. */
    method BuildFrame(out: array<byte>, r: Sized) returns (len: nat)
      requires Valid() && r.size <= out.Length
      modifies this, out
      ensures Valid() && asked == old(asked) + [r]
      ensures !r.Fits() ==> len == 0 && built == old(built) && out[..] == old(out[..])
      ensures r.Fits() ==>
        && built == old(built) + 1
        && len == OVERHEAD + |r.payload| <= out.Length
        && out[..len] == Encode(Sent(NodeOf(uid), 0, asked)[built - 1])
        && out[len..] == old(out[len..])
    {
      hide Crc, Lo, Hi, Body, Encode, NodeOf, NumberOf, Sent;
      SentSnoc(NodeOf(uid), 0, asked, r);
      asked := asked + [r];
      var dlc: u16 := |r.payload|;
      var totalLen := OVERHEAD + dlc;
      if r.size < totalLen {
        return 0;
      }
      WriteFront(out, r);
      var cid := MakeCid();
      WriteBack(out, FrameFor(r, cid));
      return totalLen;
    }
  }

  /** SOF, header and payload. */
  method WriteFront(out: array<byte>, r: Sized)
    requires HEADER + |r.payload| <= out.Length
    modifies out
    ensures out[..HEADER + |r.payload|] == [SOF] + [r.sid, r.kind, Lo(|r.payload|), Hi(|r.payload|)] + r.payload
    ensures forall i :: HEADER + |r.payload| <= i < out.Length ==> out[i] == old(out[i])
  {
    hide Lo, Hi;
    CopyInto(out, 0, [SOF]);
    CopyInto(out, 1, [r.sid, r.kind, Lo(|r.payload|), Hi(|r.payload|)]);
    CopyInto(out, HEADER, r.payload);
  }

  /** CID and checksum, behind the payload. */
  method WriteBack(out: array<byte>, f: Frame)
    requires f.Consistent() && OVERHEAD + |f.payload| <= out.Length
    requires out[..HEADER + |f.payload|] == [SOF] + [f.sid, f.kind, Lo(f.dlc), Hi(f.dlc)] + f.payload
    modifies out
    ensures out[..OVERHEAD + |f.payload|] == Encode(f)
    ensures forall i :: OVERHEAD + |f.payload| <= i < out.Length ==> out[i] == old(out[i])
  {
    hide Crc, Lo, Hi, Body, Encode;
    var offset := HEADER + |f.payload|;
    CopyInto(out, offset, [Lo(f.cid), Hi(f.cid)]);
    LayOut(f);
    var crc := CheckByte(out, offset + 2, f);
    CopyInto(out, offset + 2, [crc]);
    Sealed(f);
  }

  /** The checksum of everything behind SOF. */
  method CheckByte(out: array<byte>, offset: nat, ghost f: Frame) returns (crc: byte)
    requires 0 < offset <= out.Length && out[..offset] == [SOF] + Body(f)
    ensures crc == Crc(Body(f))
  {
    hide Crc, Body;
    assert out[..][1..1 + (offset - 1)] == out[..offset][1..] == Body(f);
    crc := CalcCrc8(out[..], 1, offset - 1);
  }

  /** A block copied into a buffer. */
  method CopyInto(out: array<byte>, offset: nat, bytes: seq<byte>)
    requires offset + |bytes| <= out.Length
    modifies out
    ensures out[..offset + |bytes|] == old(out[..offset]) + bytes
    ensures forall i :: offset + |bytes| <= i < out.Length ==> out[i] == old(out[i])
  {
    forall i | 0 <= i < |bytes| {
      out[offset + i] := bytes[i];
    }
  }

  // ----- Runs -----

  /** The frames that a run of requests puts on the wire, after `built` earlier ones. */
  function Sent(node: u16, built: nat, requests: seq<Sized>): seq<Frame>
    requires node <= 0xFFF
    decreases |requests|
  {
    if requests == [] then []
    else if requests[0].Fits() then
      [FrameFor(requests[0], NumberOf(node, built + 1))] + Sent(node, built + 1, requests[1..])
    else Sent(node, built, requests[1..])
  }

  function Fitting(requests: seq<Sized>): seq<Sized>
    decreases |requests|
  {
    if requests == [] then []
    else (if requests[0].Fits() then [requests[0]] else []) + Fitting(requests[1..])
  }

  lemma {:induction false} SentCount(node: u16, built: nat, requests: seq<Sized>)
    requires node <= 0xFFF
    ensures |Sent(node, built, requests)| == |Fitting(requests)|
    decreases |requests|
  {
    if requests != [] {
      SentCount(node, if requests[0].Fits() then built + 1 else built, requests[1..]);
    }
  }

  /** What one more request adds to a run. */
  lemma {:induction false} SentSnoc(node: u16, built: nat, requests: seq<Sized>, r: Sized)
    requires node <= 0xFFF
    ensures var sent := Sent(node, built, requests);
      Sent(node, built, requests + [r]) ==
        sent + if r.Fits() then [FrameFor(r, NumberOf(node, built + |sent| + 1))] else []
    decreases |requests|
  {
    hide NumberOf, FrameFor;
    if requests == [] {
      assert [] + [r] == [r];
    } else {
      assert (requests + [r])[1..] == requests[1..] + [r];
      SentSnoc(node, if requests[0].Fits() then built + 1 else built, requests[1..], r);
    }
  }

  /** The k-th frame sent is the k-th request that fits, numbered k whatever failed in between. */
  lemma {:induction false} SentInOrder(node: u16, built: nat, requests: seq<Sized>, k: nat)
    requires node <= 0xFFF && k < |Sent(node, built, requests)|
    ensures |Sent(node, built, requests)| == |Fitting(requests)|
    ensures Sent(node, built, requests)[k] == FrameFor(Fitting(requests)[k], NumberOf(node, built + 1 + k))
    decreases |requests|
  {
    hide NumberOf, FrameFor;
    SentCount(node, built, requests);
    if !requests[0].Fits() {
      SentInOrder(node, built, requests[1..], k);
    } else if k > 0 {
      SentInOrder(node, built + 1, requests[1..], k - 1);
    }
  }

  /** Two frames of a run share a CID exactly when they are a multiple of sixteen apart. */
  lemma SameNumberIff(node: u16, i: nat, j: nat)
    requires node <= 0xFFF && i <= j
    ensures NumberOf(node, i) == NumberOf(node, j) <==> (j - i) % 16 == 0
  {
  }

  lemma NumberFields(node: u16, k: nat)
    requires node <= 0xFFF
    ensures Client.CidOf(NumberOf(node, k)) == node && Client.SeqOf(NumberOf(node, k)) == k % 16
  {
  }

  /** In any run, sixteen consecutive frames carry sixteen different CIDs. */
  lemma SixteenDistinct(node: u16, requests: seq<Sized>, i: nat, j: nat)
    requires node <= 0xFFF && i < j < |Sent(node, 0, requests)| && j - i < 16
    ensures Sent(node, 0, requests)[i].cid != Sent(node, 0, requests)[j].cid
  {
    SentInOrder(node, 0, requests, i);
    SentInOrder(node, 0, requests, j);
    SameNumberIff(node, i + 1, j + 1);
  }

  /** The desktop client reads the node, and the count modulo sixteen, off every frame of a run. */
  lemma ClientReadsNumber(uid: Uid, requests: seq<Sized>, k: nat)
    requires k < |Sent(NodeOf(uid), 0, requests)|
    ensures var f := Sent(NodeOf(uid), 0, requests)[k];
      && var seen := Client.Read(Encode(f)).frame;
      && seen == f
      && Client.CidOf(seen.cid) == NodeOf(uid)
      && Client.SeqOf(seen.cid) == (k + 1) % 16
  {
    hide Encode, Decode, Sent, NumberOf, Client.CidOf, Client.SeqOf;
    SentInOrder(NodeOf(uid), 0, requests, k);
    DecodeEncode(Sent(NodeOf(uid), 0, requests)[k]);
    NumberFields(NodeOf(uid), k + 1);
  }

  /** A request fits exactly if the whole frame does, up to the last byte of the buffer. */
  lemma FitsIff(r: Sized, cid: u16)
    ensures r.Fits() <==> |Encode(FrameFor(r, cid))| <= r.size
  {
    hide Encode;
  }
}
