/** Streams made of encoded frames, with noise between them or cut off in the middle of a frame. */
module RoundTrip {
  import opened Bytes
  import opened Crc8
  import opened Folds
  import opened Wire
  import opened Scanner

  /** The frames a receiver may be sent. */
  predicate Sendable(r: Receiver, f: Frame) {
    f.Consistent() && f.dlc <= r.maxDlc
  }

  predicate AllSendable(r: Receiver, frames: seq<Frame>) {
    forall i :: 0 <= i < |frames| ==> Sendable(r, frames[i])
  }

  function EncodeEach(frames: seq<Frame>): seq<seq<byte>> {
    Map(Encode, frames)
  }

  function EncodeAll(frames: seq<Frame>): seq<byte> {
    Flatten(EncodeEach(frames))
  }

  /** Long enough, each of them, to be read as a frame. */
  predicate AllLong(wires: seq<seq<byte>>) {
    forall i :: 0 <= i < |wires| ==> |wires[i]| >= OVERHEAD
  }

  function DecodeEach(wires: seq<seq<byte>>): (frames: seq<Frame>)
    requires AllLong(wires)
    ensures |frames| == |wires|
  {
    seq(|wires|, i requires 0 <= i < |wires| => Decode(wires[i]))
  }

  lemma EncodeAllCons(frames: seq<Frame>)
    requires frames != []
    ensures EncodeEach(frames) == [Encode(frames[0])] + EncodeEach(frames[1..])
    ensures EncodeAll(frames) == Encode(frames[0]) + EncodeAll(frames[1..])
  {
  }

  predicate NoSof(s: seq<byte>) {
    forall i :: 0 <= i < |s| ==> s[i] != SOF
  }

  /** Noise, frame, noise, frame, ..., noise. */
  function Interleave(noise: seq<seq<byte>>, frames: seq<Frame>): seq<byte>
    requires |noise| == |frames| + 1
  {
    if frames == [] then noise[0] else noise[0] + Encode(frames[0]) + Interleave(noise[1..], frames[1..])
  }

  lemma StepAtFrame(r: Receiver, f: Frame, tail: seq<byte>)
    requires Sendable(r, f)
    ensures Step(r, Encode(f) + tail) == Emit(|Encode(f)|)
  {
    hide Crc, Body, Step, Encode;
    var w := Encode(f);
    DecodeEncode(f);
    assert (w + tail)[..|w|] == w;
    assert StartsFrame(r, w + tail, |w|);
    EmitIff(r, w + tail, |w|);
  }

  lemma ScanFrame(r: Receiver, f: Frame, tail: seq<byte>)
    requires Sendable(r, f)
    ensures var o := Scan(r, tail); Scan(r, Encode(f) + tail) == Outcome([Encode(f)] + o.wires, o.rest)
  {
    hide Step, Scan, Encode;
    StepAtFrame(r, f, tail);
    ScanEmit(r, Encode(f) + tail, |Encode(f)|);
    assert (Encode(f) + tail)[|Encode(f)|..] == tail && (Encode(f) + tail)[..|Encode(f)|] == Encode(f);
  }

  lemma {:induction false} ScanNoise(r: Receiver, noise: seq<byte>, tail: seq<byte>)
    requires NoSof(noise) && (r.eager || |tail| >= r.need)
    ensures Scan(r, noise + tail) == Scan(r, tail)
    decreases |noise|
  {
    if noise == [] {
      assert noise + tail == tail;
    } else {
      assert (noise + tail)[0] == noise[0] && (noise + tail)[1..] == noise[1..] + tail;
      ScanNoise(r, noise[1..], tail);
    }
  }

  lemma {:induction false} ScanNoiseOnly(r: Receiver, noise: seq<byte>)
    requires NoSof(noise)
    ensures Scan(r, noise).wires == []
    ensures r.eager ==> Scan(r, noise).rest == []
    decreases |noise|
  {
    if noise != [] {
      ScanNoiseOnly(r, noise[1..]);
    }
  }

  lemma InterleaveCons(noise: seq<seq<byte>>, frames: seq<Frame>)
    requires |noise| == |frames| + 1 && frames != []
    ensures Interleave(noise, frames) == noise[0] + (Encode(frames[0]) + Interleave(noise[1..], frames[1..]))
  {
    hide Encode;
  }

  lemma {:induction false} ScanNoisyFrame(r: Receiver, noise: seq<byte>, f: Frame, tail: seq<byte>)
    requires NoSof(noise) && Sendable(r, f)
    ensures var o := Scan(r, tail); Scan(r, noise + (Encode(f) + tail)) == Outcome([Encode(f)] + o.wires, o.rest)
  {
    hide Scan, Encode, NoSof;
    ScanNoise(r, noise, Encode(f) + tail);
    ScanFrame(r, f, tail);
  }

  /**
   * Frames come through noise unharmed: whatever runs of bytes other than SOF surround them, and whatever
   * SOF bytes their own payloads hold, a receiver takes exactly the frames that were sent.
   */
  lemma {:induction false} NoisyRoundTrip(r: Receiver, noise: seq<seq<byte>>, frames: seq<Frame>)
    requires |noise| == |frames| + 1 && AllSendable(r, frames)
    requires forall i :: 0 <= i < |noise| ==> NoSof(noise[i])
    ensures Scan(r, Interleave(noise, frames)).wires == EncodeEach(frames)
    ensures r.eager ==> Scan(r, Interleave(noise, frames)).rest == []
    decreases |frames|
  {
    hide Scan, Encode, EncodeEach, EncodeAll, NoSof;
    if frames == [] {
      NothingEncoded(frames);
      ScanNoiseOnly(r, noise[0]);
    } else {
      InterleaveCons(noise, frames);
      ScanNoisyFrame(r, noise[0], frames[0], Interleave(noise[1..], frames[1..]));
      NoisyRoundTrip(r, noise[1..], frames[1..]);
      EncodeAllCons(frames);
    }
  }

  /** A frame cut short is waited for, not dropped. */
  lemma PartialFrameWaits(r: Receiver, f: Frame, n: nat)
    requires Sendable(r, f) && n < |Encode(f)|
    ensures Step(r, Encode(f)[..n]) == Wait
  {
    hide Crc, Body;
    DecodeEncode(f);
    var w := Encode(f);
    assert n >= HEADER ==> DlcOf(w[..n]) == DlcOf(w);
  }

  /** Any stretch of a clean stream: the whole frames come out and the started one is kept. */
  lemma {:induction false} PrefixOfFrames(r: Receiver, frames: seq<Frame>, t: seq<byte>)
    requires AllSendable(r, frames) && Step(r, t) == Wait
    ensures Scan(r, EncodeAll(frames) + t) == Outcome(EncodeEach(frames), t)
    decreases |frames|
  {
    hide Scan, Encode, Step, EncodeEach, EncodeAll;
    if frames == [] {
      NothingEncoded(frames);
      assert EncodeAll(frames) + t == t;
      ScanWait(r, t);
    } else {
      PrefixOfFrames(r, frames[1..], t);
      EncodeAllCons(frames);
      assert EncodeAll(frames) + t == Encode(frames[0]) + (EncodeAll(frames[1..]) + t);
      ScanFrame(r, frames[0], EncodeAll(frames[1..]) + t);
    }
  }

  /** Any front part of a stream of frames is some whole frames and a started one, which is waited for. */
  lemma {:induction false} Stretch(r: Receiver, frames: seq<Frame>, t: seq<byte>) returns (k: nat, u: seq<byte>)
    requires AllSendable(r, frames) && t <= EncodeAll(frames)
    ensures k <= |frames| && t == EncodeAll(frames[..k]) + u && Step(r, u) == Wait
    ensures u == [] || (k < |frames| && |u| < |Encode(frames[k])|)
    decreases |frames|
  {
    hide Encode, EncodeAll, EncodeEach, Step;
    if frames == [] {
      NothingEncoded(frames);
      NothingWaits(r);
      k, u := 0, [];
    } else {
      EncodeAllCons(frames);
      var w := Encode(frames[0]);
      PrefixParts(t, w, EncodeAll(frames[1..]));
      if |t| < |w| {
        k, u := 0, t;
        NothingEncoded(frames[..0]);
        PartialFrameWaits(r, frames[0], |t|);
      } else {
        var j, v := Stretch(r, frames[1..], t[|w|..]);
        k, u := j + 1, v;
        OneMoreFrame(frames, j);
        assert w + (EncodeAll(frames[1..][..j]) + u) == w + EncodeAll(frames[1..][..j]) + u;
      }
    }
  }

  lemma NothingWaits(r: Receiver)
    ensures Step(r, []) == Wait
  {
  }

  lemma NothingEncoded(frames: seq<Frame>)
    requires frames == []
    ensures EncodeAll(frames) == [] && EncodeEach(frames) == []
  {
  }

  lemma OneMoreFrame(frames: seq<Frame>, j: nat)
    requires j < |frames|
    ensures EncodeAll(frames[..j + 1]) == Encode(frames[0]) + EncodeAll(frames[1..][..j])
  {
    hide EncodeAll, Encode;
    EncodeAllCons(frames[..j + 1]);
    assert frames[..j + 1][1..] == frames[1..][..j];
  }

  lemma {:induction false} CleanRoundTrip(r: Receiver, frames: seq<Frame>)
    requires AllSendable(r, frames)
    ensures Scan(r, EncodeAll(frames)) == Outcome(EncodeEach(frames), [])
  {
    PrefixOfFrames(r, frames, []);
    assert EncodeAll(frames) + [] == EncodeAll(frames);
  }

  /** Decoding what was taken gives back the frames that were sent. */
  lemma DecodeEachEncodeEach(frames: seq<Frame>)
    requires forall i :: 0 <= i < |frames| ==> frames[i].Consistent()
    ensures DecodeEach(EncodeEach(frames)) == frames
  {
    hide Encode, Decode;
    forall i | 0 <= i < |frames| ensures Decode(Encode(frames[i])) == frames[i] {
      DecodeEncode(frames[i]);
    }
  }

  /** Every slice the scan takes is a frame of the receiver's kind. */
  lemma {:induction false} WiresAreFrames(r: Receiver, buf: seq<byte>)
    ensures forall i :: 0 <= i < |Scan(r, buf).wires| ==> IsWire(Scan(r, buf).wires[i], r.maxDlc, r.checked)
    decreases |buf|
  {
    match Step(r, buf) {
      case Wait =>
      case Drop =>
        hide Step, IsWire;
        WiresAreFrames(r, buf[1..]);
      case Emit(len) =>
        hide Step, IsWire;
        EmitIff(r, buf, len);
        WiresAreFrames(r, buf[len..]);
    }
  }

  /** A checked receiver relays byte for byte: re-encoding the frames it took gives the received slices. */
  lemma {:induction false} RelayIsByteExact(r: Receiver, buf: seq<byte>)
    requires r.checked
    ensures AllLong(Scan(r, buf).wires)
    ensures EncodeEach(DecodeEach(Scan(r, buf).wires)) == Scan(r, buf).wires
  {
    hide Scan, Encode, Decode;
    WiresAreFrames(r, buf);
    var wires := Scan(r, buf).wires;
    forall i | 0 <= i < |wires| ensures Encode(Decode(wires[i])) == wires[i] {
      EncodeDecode(wires[i], r.maxDlc);
    }
  }
}
