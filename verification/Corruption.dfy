/** What a checked receiver does with a frame that was damaged on the way. */
module Corruption {
  import opened Bytes
  import opened Crc8
  import opened Detection
  import opened Wire
  import opened Scanner
  import opened RoundTrip

  /** The bytes of a frame after its SOF, changed by an error pattern. */
  function Damaged(f: Frame, e: seq<byte>): seq<byte>
    requires |e| == |Encode(f)| - 1
  {
    [SOF] + Xor(Encode(f)[1..], e)
  }

  /** The error leaves the announced length alone. */
  predicate SparesDlc(e: seq<byte>) {
    |e| >= 7 && e[2] == 0 && e[3] == 0
  }

  lemma XorWithZero(b: byte)
    ensures XorByte(b, 0) == b
  {
  }

  lemma EncodedBodySumsToZero(f: Frame)
    ensures Crc(Encode(f)[1..]) == 0
  {
    hide Crc, Body;
    assert Encode(f)[1..] == Body(f) + [Crc(Body(f))];
    CodewordIff(Body(f), Crc(Body(f)));
  }

  /** The CRC test, said of the codeword: what follows SOF sums to zero. */
  lemma CrcTestIff(codeword: seq<byte>)
    requires codeword != []
    ensures codeword[|codeword| - 1] == Crc(codeword[..|codeword| - 1]) <==> Crc(codeword) == 0
  {
  }

  lemma StepOnCodeword(r: Receiver, codeword: seq<byte>, tail: seq<byte>)
    requires r.checked && |codeword| >= 7
    requires Le16(codeword[2], codeword[3]) <= r.maxDlc && |codeword| == 7 + Le16(codeword[2], codeword[3])
    ensures Step(r, [SOF] + codeword + tail) == if Crc(codeword) == 0 then Emit(1 + |codeword|) else Drop
  {
    hide Crc, Le16;
    var buf, n := [SOF] + codeword + tail, |codeword|;
    assert buf[1..n] == codeword[..n - 1];
    CrcTestIff(codeword);
  }

  /**
   * A damaged frame gets through exactly when the error pattern is itself a codeword; otherwise its first
   * byte is dropped.
   */
  lemma {:induction false} DamagedFrame(r: Receiver, f: Frame, e: seq<byte>, tail: seq<byte>)
    requires r.checked && Sendable(r, f)
    requires |e| == |Encode(f)| - 1 && SparesDlc(e)
    ensures Step(r, Damaged(f, e) + tail) == if Crc(e) == 0 then Emit(|Encode(f)|) else Drop
  {
    hide Crc, Body, Le16, XorByte;
    var codeword := Encode(f)[1..];
    var hit := Xor(codeword, e);
    DecodeEncode(f);
    EncodedBodySumsToZero(f);
    ErrorSurvivesIff(codeword, e);
    XorWithZero(codeword[2]);
    XorWithZero(codeword[3]);
    StepOnCodeword(r, hit, tail);
  }

  /** Any odd number of flipped bits, and any burst of at most eight bits, makes the frame fail where it starts. */
  lemma {:induction false} DamageDetected(r: Receiver, f: Frame, e: seq<byte>, tail: seq<byte>)
    requires r.checked && Sendable(r, f)
    requires |e| == |Encode(f)| - 1 && SparesDlc(e)
    requires Ones(e) % 2 == 1
          || exists at: nat, p: byte :: at + 8 <= 8 * |e| && p != 0 && e == Burst(|e|, at, p)
    ensures Step(r, Damaged(f, e) + tail) == Drop
  {
    hide Crc, Step, Damaged, Burst, Ones;
    DamagedFrame(r, f, e, tail);
    if Ones(e) % 2 == 1 {
      OddFlipsDetected(e);
    } else {
      var at: nat, p: byte :| at + 8 <= 8 * |e| && p != 0 && e == Burst(|e|, at, p);
      BurstDetected(|e|, at, p);
    }
  }

  /**
   * Resynchronisation: a damaged frame that is noticed costs itself and nothing more. If no other byte of it
   * looks like SOF, exactly the frames behind it are taken.
   */
  lemma {:induction false} Resynchronised(r: Receiver, f: Frame, e: seq<byte>, frames: seq<Frame>)
    requires r.checked && Sendable(r, f) && AllSendable(r, frames)
    requires |e| == |Encode(f)| - 1 && SparesDlc(e) && Crc(e) != 0
    requires NoSof(Damaged(f, e)[1..])
    ensures Scan(r, Damaged(f, e) + EncodeAll(frames)).wires == EncodeEach(frames)
  {
    hide Crc, Step, Scan, Encode, EncodeAll, EncodeEach, NoSof, XorByte;
    var w, tail := Damaged(f, e), EncodeAll(frames);
    DamagedFrame(r, f, e, tail);
    ScanDrop(r, w + tail);
    assert (w + tail)[1..] == w[1..] + tail;
    if frames == [] {
      NothingEncoded(frames);
      assert w[1..] + tail == w[1..];
      ScanNoiseOnly(r, w[1..]);
    } else {
      FramesAreLong(frames);
      ScanNoise(r, w[1..], tail);
      CleanRoundTrip(r, frames);
    }
  }

  lemma FramesAreLong(frames: seq<Frame>)
    requires frames != []
    ensures |EncodeAll(frames)| >= OVERHEAD
  {
    hide Encode;
    EncodeAllCons(frames);
  }

  /** No whole valid frame starts at any of the bytes of `noise`, the tail behind it counted in. */
  ghost predicate NoFrameIn(r: Receiver, noise: seq<byte>, tail: seq<byte>) {
    forall k: nat, n: nat :: k < |noise| ==> !StartsFrame(r, (noise + tail)[k..], n)
  }

  /** Once enough has arrived behind them, bytes at which no frame starts are all dropped. */
  lemma {:induction false} NoiseDropped(r: Receiver, noise: seq<byte>, tail: seq<byte>)
    requires NoFrameIn(r, noise, tail) && |tail| >= OVERHEAD + r.maxDlc - 1
    ensures Scan(r, noise + tail) == Scan(r, tail)
    decreases |noise|
  {
    hide Step, Scan, StartsFrame;
    if noise == [] {
      assert noise + tail == tail;
    } else {
      var buf := noise + tail;
      FrontDropped(r, noise, tail);
      ScanDrop(r, buf);
      assert buf[1..] == noise[1..] + tail;
      forall k: nat, n: nat | k < |noise| - 1 ensures !StartsFrame(r, (noise[1..] + tail)[k..], n) {
        assert (noise[1..] + tail)[k..] == buf[k + 1..];
        assert !StartsFrame(r, buf[k + 1..], n);
      }
      NoiseDropped(r, noise[1..], tail);
    }
  }

  lemma FrontDropped(r: Receiver, noise: seq<byte>, tail: seq<byte>)
    requires noise != [] && NoFrameIn(r, noise, tail) && |tail| >= OVERHEAD + r.maxDlc - 1
    ensures Step(r, noise + tail) == Drop
  {
    hide Step, StartsFrame;
    var buf := noise + tail;
    assert buf[0..] == buf;
    forall n: nat ensures Step(r, buf) != Emit(n) {
      EmitIff(r, buf, n);
      assert !StartsFrame(r, buf[0..], n);
    }
    if Step(r, buf) == Wait {
      WaitBound(r, buf);
    }
  }

  /**
   * Resynchronisation in general: a damaged frame that is noticed, in which no other valid frame happens to
   * start, costs only itself; with 263 bytes behind it, a scan goes on exactly there.
   */
  lemma {:induction false} ResynchronisedBehind(r: Receiver, f: Frame, e: seq<byte>, tail: seq<byte>)
    requires r.checked && Sendable(r, f)
    requires |e| == |Encode(f)| - 1 && SparesDlc(e) && Crc(e) != 0
    requires NoFrameIn(r, Damaged(f, e)[1..], tail) && |tail| >= OVERHEAD + r.maxDlc - 1
    ensures Scan(r, Damaged(f, e) + tail) == Scan(r, tail)
  {
    hide Crc, Step, Scan, Encode, NoFrameIn, XorByte;
    var w := Damaged(f, e);
    DamagedFrame(r, f, e, tail);
    ScanDrop(r, w + tail);
    assert (w + tail)[1..] == w[1..] + tail;
    NoiseDropped(r, w[1..], tail);
  }
}
