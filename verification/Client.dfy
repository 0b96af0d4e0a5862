/** The desktop client: its frame codec, its reader loop and its sequence numbers. */
module Client {
  import opened Bytes
  import opened Crc8
  import opened Folds
  import opened Wire
  import opened Scanner
  import opened RoundTrip

  const MAX_PAYLOAD: nat := CLIENT_LIMIT

  // ----- Encoding -----

  datatype Encoded = Packet(bytes: seq<byte>) | PayloadTooLarge | FieldOutOfRange

  /** The client's checksum: every byte, SOF included, folded by exclusive or. */
  function Checksum(s: seq<byte>): byte {
    Fold(XorByte, 0, s)
  }

  /** Behind the bytes it was made from, it makes them all cancel out. */
  method Crc8Placeholder(data: seq<byte>) returns (crc: byte)
    ensures crc == Checksum(data)
    ensures Fold(XorByte, 0, data + [crc]) == 0
  {
    crc := 0;
    for i := 0 to |data|
      invariant crc == Checksum(data[..i])
    {
      FoldSnoc(XorByte, 0, data[..i], data[i]);
      assert data[..i + 1] == data[..i] + [data[i]];
      crc := crc ^ data[i];
    }
    assert data[..|data|] == data;
    FoldSnoc(XorByte, 0, data, crc);
    CancelsOut(crc);
  }

  /** Twelve bits of CID above four bits of sequence number. */
  function RawCid(cid: int, seq_: int): u16 {
    (cid % 0x1000) * 16 + seq_ % 16
  }

  function CidOf(raw: u16): nat {
    (raw / 16) % 0x1000
  }

  function SeqOf(raw: u16): nat {
    raw % 16
  }

  lemma RawCidFields(cid: int, seq_: int)
    ensures CidOf(RawCid(cid, seq_)) == cid % 0x1000 && SeqOf(RawCid(cid, seq_)) == seq_ % 16
  {
  }

  /** The frame a client packet carries, apart from its checksum byte. */
  function Asked(sid: byte, kind: byte, payload: seq<byte>, cid: int, seq_: int): Frame
    requires |payload| <= MAX_PAYLOAD
  {
    Frame(sid, kind, |payload|, RawCid(cid, seq_), payload)
  }

  /** A frame on the wire under some check byte. */
  function Stamped(f: Frame, check: byte): seq<byte> {
    [SOF] + Body(f) + [check]
  }

  function EncodePacket(sid: int, kind: int, payload: seq<byte>, cid: int, seq_: int): Encoded {
    if |payload| > MAX_PAYLOAD then PayloadTooLarge
    else if !(0 <= sid < 256 && 0 <= kind < 256) then FieldOutOfRange
    else
      var f := Asked(sid as byte, kind as byte, payload, cid, seq_);
      Packet(Stamped(f, Checksum([SOF] + Body(f))))
  }

  lemma CancelsOut(b: byte)
    ensures XorByte(b, b) == 0
  {
  }

  /** A packet is refused exactly if its payload is over 4096 bytes or a one-byte field is out of range. */
  lemma RefusesIff(sid: int, kind: int, payload: seq<byte>, cid: int, seq_: int)
    ensures var e := EncodePacket(sid, kind, payload, cid, seq_);
      && (e == PayloadTooLarge <==> |payload| > 4096)
      && (e == FieldOutOfRange <==> |payload| <= 4096 && !(0 <= sid <= 255 && 0 <= kind <= 255))
      && (e.Packet? ==> |e.bytes| == 8 + |payload| && e.bytes[0] == 0xAA && e.bytes[5..5 + |payload|] == payload)
  {
    hide Checksum, RawCid, Body;
    if EncodePacket(sid, kind, payload, cid, seq_).Packet? {
      var f := Asked(sid as byte, kind as byte, payload, cid, seq_);
      PacketFront(f, Checksum([SOF] + Body(f)));
    }
  }

  lemma PacketFront(f: Frame, check: byte)
    ensures var w, n := Stamped(f, check), |f.payload|; |w| == 8 + n && w[0] == 0xAA && w[5..5 + n] == f.payload
  {
    hide Body;
    BodyBytes(f);
    var w, n := Stamped(f, check), |f.payload|;
    assert forall i :: 0 <= i < n ==> w[5 + i] == Body(f)[4 + i] == Body(f)[4..4 + n][i] == f.payload[i];
  }

  /** The exclusive or of all the bytes of a packet, SOF and check byte included, is zero. */
  lemma PacketCancelsOut(sid: int, kind: int, payload: seq<byte>, cid: int, seq_: int)
    ensures var e := EncodePacket(sid, kind, payload, cid, seq_); e.Packet? ==> Fold(XorByte, 0, e.bytes) == 0
  {
    hide Body, RawCid, XorByte;
    if EncodePacket(sid, kind, payload, cid, seq_).Packet? {
      var front := [SOF] + Body(Asked(sid as byte, kind as byte, payload, cid, seq_));
      FoldSnoc(XorByte, 0, front, Checksum(front));
      CancelsOut(Checksum(front));
    }
  }

  // ----- Decoding -----

  datatype Incoming = Incoming(frame: Frame, crc8: byte, raw: seq<byte>)

  function Read(raw: seq<byte>): Incoming
    requires |raw| >= OVERHEAD
  {
    Incoming(Decode(raw), raw[|raw| - 1], raw)
  }

  /** The buffer from its first SOF on. */
  function FromSof(buf: seq<byte>): seq<byte> {
    if buf != [] && buf[0] != SOF then FromSof(buf[1..]) else buf
  }

  /**
   * One attempt at a frame: the slice taken, if any, and the buffer after it. An over-long header costs its SOF
   * and ends the attempt, although more frames may be waiting.
   */
  function Attempt(buf: seq<byte>): (r: (Option<seq<byte>>, seq<byte>))
    ensures r.0.Some? ==> |r.0.value| >= OVERHEAD && |r.1| < |buf|
  {
    var b := FromSof(buf);
    FromSofShorter(buf);
    if |b| < OVERHEAD then (None, b)
    else if DlcOf(b) > MAX_PAYLOAD then (None, b[1..])
    else
      var len := OVERHEAD + DlcOf(b);
      if |b| < len then (None, b) else (Some(b[..len]), b[len..])
  }

  lemma {:induction false} FromSofShorter(buf: seq<byte>)
    ensures |FromSof(buf)| <= |buf|
    ensures FromSof(buf) != [] ==> FromSof(buf)[0] == SOF
    decreases |buf|
  {
    if buf != [] && buf[0] != SOF {
      FromSofShorter(buf[1..]);
    }
  }

  /** Attempts until one finds nothing. */
  function Drain(buf: seq<byte>): Outcome
    decreases |buf|
  {
    match Attempt(buf)
    case (None, rest) => Outcome([], rest)
    case (Some(raw), rest) =>
      var o := Drain(rest);
      Outcome([raw] + o.wires, o.rest)
  }

  /** The reader's frames and buffer after the given chunks. */
  function ReadAll(buf: seq<byte>, chunks: seq<seq<byte>>): Outcome
    decreases |chunks|
  {
    if chunks == [] then Outcome([], buf)
    else
      var o := Drain(buf + chunks[0]);
      var p := ReadAll(o.rest, chunks[1..]);
      Outcome(o.wires + p.wires, p.rest)
  }

  // ----- The reader against the ideal scan -----

  lemma {:induction false} FromSofScan(buf: seq<byte>)
    ensures Scan(CLIENT, buf) == Scan(CLIENT, FromSof(buf))
    decreases |buf|
  {
    if buf != [] && buf[0] != SOF {
      FromSofScan(buf[1..]);
    }
  }

  /** An attempt takes what the scan takes next, or nothing; either way the scan goes on from the new buffer. */
  lemma AttemptScan(buf: seq<byte>)
    ensures var (raw, rest) := Attempt(buf); var o := Scan(CLIENT, rest);
      Scan(CLIENT, buf) == Outcome((if raw.Some? then [raw.value] else []) + o.wires, o.rest)
  {
    hide Scan, FromSof, Le16;
    var b := FromSof(buf);
    FromSofScan(buf);
    FromSofShorter(buf);
    match Step(CLIENT, b) {
      case Wait =>
        ScanWait(CLIENT, b);
      case Drop =>
        ScanDrop(CLIENT, b);
      case Emit(len) =>
        ScanEmit(CLIENT, b, len);
    }
  }

  lemma {:induction false} DrainScan(buf: seq<byte>)
    ensures var o := Drain(buf); var p := Scan(CLIENT, o.rest);
      Scan(CLIENT, buf) == Outcome(o.wires + p.wires, p.rest)
    decreases |buf|
  {
    hide Scan, Attempt;
    AttemptScan(buf);
    match Attempt(buf) {
      case (None, rest) =>
      case (Some(raw), rest) =>
        DrainScan(rest);
        var o, p := Drain(rest), Scan(CLIENT, Drain(rest).rest);
        assert [raw] + (o.wires + p.wires) == [raw] + o.wires + p.wires;
    }
  }

  /**
   * Nothing is lost or invented: for every chunking, the frames delivered followed by those a scan of the
   * buffer would still find are the frames of the ideal scan of everything received.
   */
  lemma {:induction false} ReaderPrefix(buf: seq<byte>, chunks: seq<seq<byte>>)
    ensures var o := ReadAll(buf, chunks); var p := Scan(CLIENT, o.rest);
      Scan(CLIENT, buf + Flatten(chunks)) == Outcome(o.wires + p.wires, p.rest)
    decreases |chunks|
  {
    hide Scan, Drain;
    if chunks == [] {
      assert buf + Flatten(chunks) == buf;
      assert [] + Scan(CLIENT, buf).wires == Scan(CLIENT, buf).wires;
    } else {
      var o := Drain(buf + chunks[0]);
      var tail := Flatten(chunks[1..]);
      DrainScan(buf + chunks[0]);
      ScanSplit(CLIENT, buf + chunks[0], tail);
      ReaderPrefix(o.rest, chunks[1..]);
      assert buf + Flatten(chunks) == buf + chunks[0] + tail;
      ScanSplit(CLIENT, o.rest, tail);
      var p, q := ReadAll(o.rest, chunks[1..]), Scan(CLIENT, ReadAll(o.rest, chunks[1..]).rest);
      assert o.wires + (p.wires + q.wires) == o.wires + p.wires + q.wires;
    }
  }

  // ----- Frames behind an over-long header -----

  /** The scan meets an SOF whose header announces more than the client takes, and behind it still takes a frame. */
  predicate Hides(buf: seq<byte>)
    decreases |buf|
  {
    match Step(CLIENT, buf)
    case Wait => false
    case Drop => if buf[0] == SOF then Scan(CLIENT, buf[1..]).wires != [] else Hides(buf[1..])
    case Emit(len) => Hides(buf[len..])
  }

  /** What lies behind the SOF of the first over-long header; without one, what the scan leaves undecided. */
  function Past(buf: seq<byte>): seq<byte>
    decreases |buf|
  {
    match Step(CLIENT, buf)
    case Wait => buf
    case Drop => if buf[0] == SOF then buf[1..] else Past(buf[1..])
    case Emit(len) => Past(buf[len..])
  }

  lemma {:induction false} FromSofPast(buf: seq<byte>)
    ensures Past(buf) == Past(FromSof(buf))
    decreases |buf|
  {
    if buf != [] && buf[0] != SOF {
      FromSofPast(buf[1..]);
    }
  }

  /** A drain stops behind the first over-long header. */
  lemma {:induction false} DrainStops(buf: seq<byte>)
    ensures Drain(buf).rest == Past(buf)
    decreases |buf|
  {
    hide FromSof, Le16;
    var b := FromSof(buf);
    FromSofPast(buf);
    FromSofShorter(buf);
    match Step(CLIENT, b) {
      case Wait =>
      case Drop =>
      case Emit(len) => DrainStops(b[len..]);
    }
  }

  lemma {:induction false} HidesIffPastHolds(buf: seq<byte>)
    ensures Hides(buf) <==> Scan(CLIENT, Past(buf)).wires != []
    decreases |buf|
  {
    hide Step, Scan;
    match Step(CLIENT, buf) {
      case Wait => ScanWait(CLIENT, buf);
      case Drop =>
        if buf[0] != SOF {
          HidesIffPastHolds(buf[1..]);
        }
      case Emit(len) => HidesIffPastHolds(buf[len..]);
    }
  }

  /** One drain delivers all the frames in the buffer exactly when none lies behind an over-long header. */
  lemma {:induction false} DrainDeliversIff(buf: seq<byte>)
    ensures Drain(buf).wires == Scan(CLIENT, buf).wires <==> !Hides(buf)
  {
    hide Scan, Drain, Hides, Past;
    DrainScan(buf);
    DrainStops(buf);
    HidesIffPastHolds(buf);
  }

  /** Of what has arrived when the last of the chunks is drained, a frame lies behind an over-long header. */
  predicate Hidden(held: seq<byte>, chunks: seq<seq<byte>>)
    decreases |chunks|
  {
    chunks != [] &&
    if |chunks| == 1 then Hides(held + chunks[0]) else Hidden(Past(held + chunks[0]), chunks[1..])
  }

  /** One chunk is drained: what it delivers, then what the reader does with the rest. */
  lemma ReadAllCons(held: seq<byte>, chunks: seq<seq<byte>>)
    requires chunks != []
    ensures var o := Drain(held + chunks[0]);
      && ReadAll(held, chunks).wires == o.wires + ReadAll(o.rest, chunks[1..]).wires
      && Scan(CLIENT, held + Flatten(chunks)).wires == o.wires + Scan(CLIENT, o.rest + Flatten(chunks[1..])).wires
  {
    hide Scan, Drain;
    var o, tail := Drain(held + chunks[0]), Flatten(chunks[1..]);
    DrainScan(held + chunks[0]);
    assert held + Flatten(chunks) == held + chunks[0] + tail;
    ScanSplit(CLIENT, held + chunks[0], tail);
    ScanSplit(CLIENT, o.rest, tail);
    var p := Scan(CLIENT, o.rest);
    var q := Scan(CLIENT, p.rest + tail);
    assert o.wires + p.wires + q.wires == o.wires + (p.wires + q.wires);
  }

  /** For every chunking: all the ideal frames have been delivered exactly when none is hidden at the last chunk. */
  lemma {:induction false} DeliveredIff(held: seq<byte>, chunks: seq<seq<byte>>)
    requires chunks != []
    ensures var got, ideal := ReadAll(held, chunks).wires, Scan(CLIENT, held + Flatten(chunks)).wires;
      got <= ideal && (got == ideal <==> !Hidden(held, chunks))
    decreases |chunks|
  {
    hide Scan, Drain, ReadAll, Hides, Past;
    ReaderPrefix(held, chunks);
    ReadAllCons(held, chunks);
    DrainStops(held + chunks[0]);
    if |chunks| == 1 {
      DrainDeliversIff(held + chunks[0]);
      LastChunk(held, chunks);
    } else {
      DeliveredIff(Past(held + chunks[0]), chunks[1..]);
    }
  }

  lemma LastChunk(held: seq<byte>, chunks: seq<seq<byte>>)
    requires |chunks| == 1
    ensures ReadAll(held, chunks) == Drain(held + chunks[0]) && held + Flatten(chunks) == held + chunks[0]
  {
    hide Drain;
    assert Drain(held + chunks[0]).wires + [] == Drain(held + chunks[0]).wires;
    assert Flatten(chunks) == chunks[0] + [] == chunks[0];
  }

  lemma {:induction false} NoFrameNothingHidden(buf: seq<byte>)
    requires Scan(CLIENT, buf).wires == []
    ensures !Hides(buf)
    decreases |buf|
  {
    hide Step;
    match Step(CLIENT, buf) {
      case Wait =>
      case Drop => NoFrameNothingHidden(buf[1..]);
      case Emit(len) =>
    }
  }

  lemma {:induction false} HidesSplit(a: seq<byte>, b: seq<byte>)
    requires !Hides(a + b)
    ensures !Hides(a) && !Hides(Past(a) + b)
    decreases |a|
  {
    hide Step, Scan;
    match Step(CLIENT, a) {
      case Wait =>
      case Drop =>
        StepStable(CLIENT, a, b);
        assert (a + b)[1..] == a[1..] + b;
        if a[0] == SOF {
          ScanSplit(CLIENT, a[1..], b);
          NoFrameNothingHidden(a[1..] + b);
        } else {
          HidesSplit(a[1..], b);
        }
      case Emit(len) =>
        StepStable(CLIENT, a, b);
        assert (a + b)[len..] == a[len..] + b;
        HidesSplit(a[len..], b);
    }
  }

  lemma {:induction false} NeverHidden(held: seq<byte>, chunks: seq<seq<byte>>)
    requires !Hides(held + Flatten(chunks))
    ensures !Hidden(held, chunks)
    decreases |chunks|
  {
    hide Hides, Past;
    if chunks != [] {
      assert held + Flatten(chunks) == held + chunks[0] + Flatten(chunks[1..]);
      HidesSplit(held + chunks[0], Flatten(chunks[1..]));
      if |chunks| > 1 {
        NeverHidden(Past(held + chunks[0]), chunks[1..]);
      }
    }
  }

  /** A stream is delivered whole however it is cut exactly when it has no frame behind an over-long header. */
  lemma {:induction false} AlwaysDeliveredIff(s: seq<byte>)
    ensures (forall chunks :: Flatten(chunks) == s ==> ReadAll([], chunks).wires == Scan(CLIENT, s).wires) <==> !Hides(s)
  {
    hide Scan, ReadAll, Hides, Hidden;
    assert [] + s == s;
    if Hides(s) {
      DeliveredIff([], [s]);
      OneChunk(s);
    } else {
      forall chunks | Flatten(chunks) == s ensures ReadAll([], chunks).wires == Scan(CLIENT, s).wires {
        if chunks == [] {
          NothingRead();
        } else {
          NeverHidden([], chunks);
          DeliveredIff([], chunks);
        }
      }
    }
  }

  lemma OneChunk(s: seq<byte>)
    ensures Flatten([s]) == s && (Hidden([], [s]) <==> Hides(s))
  {
    hide Hides;
    assert [] + s == s;
  }

  lemma NothingRead()
    ensures Flatten<byte>([]) == [] && ReadAll([], []).wires == [] && Scan(CLIENT, []).wires == []
  {
  }

  /** An over-long header and nothing else. */
  function OverLong(): seq<byte> {
    [SOF, 0, 0, 0xFF, 0xFF, 0, 0, 0]
  }

  /** Any frame that arrives in one chunk with an over-long header before it is not delivered, although it is there. */
  lemma {:induction false} FrameHidden(f: Frame)
    requires Sendable(CLIENT, f)
    ensures ReadAll([], [OverLong() + Encode(f)]).wires == []
    ensures Scan(CLIENT, OverLong() + Encode(f)).wires == [Encode(f)]
  {
    hide Scan, Encode, Drain;
    var s := OverLong() + Encode(f);
    assert s[1..] == OverLong()[1..] + (Encode(f) + []);
    OverLongDropped(Encode(f));
    ScanDrop(CLIENT, s);
    ScanNoise(CLIENT, OverLong()[1..], Encode(f) + []);
    ScanFrame(CLIENT, f, []);
    ScanWait(CLIENT, []);
    LastChunk([], [s]);
    assert [] + s == s;
  }

  lemma OverLongDropped(tail: seq<byte>)
    ensures Step(CLIENT, OverLong() + tail) == Drop
    ensures Drain(OverLong() + tail).wires == []
  {
    var s := OverLong() + tail;
    assert DlcOf(s) > MAX_PAYLOAD;
    hide Le16;
    assert FromSof(s) == s;
  }

  // ----- Streams in which no header is over-long -----

  /** A scan of these bytes never meets an SOF whose header announces more than the client takes. */
  predicate HeadersFit(buf: seq<byte>)
    decreases |buf|
  {
    match Step(CLIENT, buf)
    case Wait => true
    case Drop => buf[0] != SOF && HeadersFit(buf[1..])
    case Emit(len) => HeadersFit(buf[len..])
  }

  lemma {:induction false} HeadersFitSplit(a: seq<byte>, b: seq<byte>)
    requires HeadersFit(a + b)
    ensures HeadersFit(a) && HeadersFit(Scan(CLIENT, a).rest + b)
    decreases |a|
  {
    hide Step;
    match Step(CLIENT, a) {
      case Wait =>
      case Drop =>
        StepStable(CLIENT, a, b);
        assert (a + b)[1..] == a[1..] + b;
        HeadersFitSplit(a[1..], b);
      case Emit(len) =>
        StepStable(CLIENT, a, b);
        assert (a + b)[len..] == a[len..] + b;
        HeadersFitSplit(a[len..], b);
    }
  }

  lemma {:induction false} FromSofFits(buf: seq<byte>)
    requires HeadersFit(buf)
    ensures HeadersFit(FromSof(buf))
    decreases |buf|
  {
    if buf != [] && buf[0] != SOF {
      FromSofFits(buf[1..]);
    }
  }

  lemma {:induction false} DrainIdeal(buf: seq<byte>)
    requires HeadersFit(buf)
    ensures Drain(buf) == Scan(CLIENT, buf)
    decreases |buf|
  {
    hide Scan, FromSof, Le16;
    var b := FromSof(buf);
    FromSofFits(buf);
    FromSofScan(buf);
    FromSofShorter(buf);
    match Step(CLIENT, b) {
      case Wait =>
        ScanWait(CLIENT, b);
      case Drop =>
      case Emit(len) =>
        ScanEmit(CLIENT, b, len);
        DrainIdeal(b[len..]);
    }
  }

  /** When no header is over-long, the reader is the ideal scan, whatever the chunks. */
  lemma {:induction false} ReaderIdeal(buf: seq<byte>, chunks: seq<seq<byte>>)
    requires Step(CLIENT, buf) == Wait && HeadersFit(buf + Flatten(chunks))
    ensures ReadAll(buf, chunks) == Scan(CLIENT, buf + Flatten(chunks))
    decreases |chunks|
  {
    hide Scan, Drain, Step, HeadersFit;
    if chunks == [] {
      assert buf + Flatten(chunks) == buf;
      ScanWait(CLIENT, buf);
    } else {
      var tail := Flatten(chunks[1..]);
      assert buf + Flatten(chunks) == buf + chunks[0] + tail;
      HeadersFitSplit(buf + chunks[0], tail);
      DrainIdeal(buf + chunks[0]);
      RestWaits(CLIENT, buf + chunks[0]);
      ReaderIdeal(Scan(CLIENT, buf + chunks[0]).rest, chunks[1..]);
      ScanSplit(CLIENT, buf + chunks[0], tail);
    }
  }

  // ----- The client object -----

  /** What a read from the socket may bring. */
  datatype Reading = Chunk(data: seq<byte>) | Timeout | Failure

  /** The chunks read before the peer closes (an empty read) or the socket fails. */
  function ChunksBeforeEnd(readings: seq<Reading>): seq<seq<byte>> {
    if readings == [] || readings[0].Failure? || (readings[0].Chunk? && readings[0].data == []) then []
    else (if readings[0].Chunk? then [readings[0].data] else []) + ChunksBeforeEnd(readings[1..])
  }

  function ReadEach(wires: seq<seq<byte>>): seq<Incoming>
    requires AllLong(wires)
  {
    seq(|wires|, i requires 0 <= i < |wires| => Read(wires[i]))
  }

  lemma {:induction false} DrainWhole(buf: seq<byte>)
    ensures AllLong(Drain(buf).wires)
    decreases |buf|
  {
    hide FromSof;
    match Attempt(buf) {
      case (None, rest) =>
      case (Some(raw), rest) => DrainWhole(rest);
    }
  }

  lemma ReadEachAppend(a: seq<seq<byte>>, b: seq<seq<byte>>)
    requires AllLong(a) && AllLong(b)
    ensures AllLong(a + b) && ReadEach(a + b) == ReadEach(a) + ReadEach(b)
  {
    hide Read;
  }

  lemma NothingDelivered(buf: seq<byte>, incoming: seq<Incoming>, wires: seq<seq<byte>>)
    ensures AllLong([]) && incoming + ReadEach([]) == incoming && [] + wires == wires
  {
  }

  lemma NextReading(readings: seq<Reading>)
    requires readings != []
    ensures var later := ChunksBeforeEnd(readings[1..]);
      ChunksBeforeEnd(readings) ==
        match readings[0]
        case Timeout => later
        case Failure => []
        case Chunk(data) => if data == [] then [] else [data] + later
  {
    assert [] + ChunksBeforeEnd(readings[1..]) == ChunksBeforeEnd(readings[1..]);
  }

  /** Every chunk is read, until an empty one or a failure ends the reading; a timeout changes nothing. */
  lemma {:induction false} ReadingLaws(before: seq<Reading>, after: seq<Reading>, data: seq<byte>)
    ensures ChunksBeforeEnd(before + [Timeout] + after) == ChunksBeforeEnd(before + after)
    ensures ChunksBeforeEnd(before + [Failure] + after) == ChunksBeforeEnd(before)
    ensures ChunksBeforeEnd(before + [Chunk([])] + after) == ChunksBeforeEnd(before)
    ensures data != [] ==> ChunksBeforeEnd([Chunk(data)] + after) == [data] + ChunksBeforeEnd(after)
    decreases |before|
  {
    hide ChunksBeforeEnd;
    FirstReading(Chunk(data), after);
    if before == [] {
      FirstReading(Timeout, after);
      FirstReading(Failure, after);
      FirstReading(Chunk([]), after);
      NoMoreReadings([]);
      assert before + [Timeout] + after == [Timeout] + after && before + after == after;
      assert before + [Failure] + after == [Failure] + after;
      assert before + [Chunk([])] + after == [Chunk([])] + after;
    } else {
      var r, rest := before[0], before[1..];
      ReadingLaws(rest, after, data);
      FirstReading(r, rest + [Timeout] + after);
      FirstReading(r, rest + [Failure] + after);
      FirstReading(r, rest + [Chunk([])] + after);
      FirstReading(r, rest + after);
      FirstReading(r, rest);
      assert before + [Timeout] + after == [r] + (rest + [Timeout] + after) && before + after == [r] + (rest + after);
      assert before + [Failure] + after == [r] + (rest + [Failure] + after) && before == [r] + rest;
      assert before + [Chunk([])] + after == [r] + (rest + [Chunk([])] + after);
    }
  }

  lemma FirstReading(r: Reading, later: seq<Reading>)
    ensures ChunksBeforeEnd([r] + later) ==
      match r
      case Timeout => ChunksBeforeEnd(later)
      case Failure => []
      case Chunk(data) => if data == [] then [] else [data] + ChunksBeforeEnd(later)
  {
    hide ChunksBeforeEnd;
    NextReading([r] + later);
    assert ([r] + later)[1..] == later;
  }

  lemma NoMoreReadings(buf: seq<byte>)
    ensures ChunksBeforeEnd([]) == [] && ReadAll(buf, []) == Outcome([], buf)
  {
  }

  class TcpClient {
    var buf: seq<byte>
    var incoming: seq<Incoming>
    var seqByCid: map<int, int>

    constructor ()
      ensures buf == [] && incoming == [] && seqByCid == map[]
    {
      buf, incoming, seqByCid := [], [], map[];
    }

    method TryDecode() returns (r: Option<Incoming>)
      modifies `buf
      ensures buf == Attempt(old(buf)).1
      ensures match Attempt(old(buf)).0
        case None => r == None
        case Some(raw) => r == Some(Read(raw))
    {
      hide Le16;
      while buf != [] && buf[0] != SOF
        invariant FromSof(buf) == FromSof(old(buf))
        decreases |buf|
      {
        buf := buf[1..];
      }
      if |buf| < OVERHEAD {
        return None;
      }
      var dlc := Le16(buf[3], buf[4]);
      if dlc > MAX_PAYLOAD {
        buf := buf[1..];
        return None;
      }
      var frameLen := OVERHEAD + dlc;
      if |buf| < frameLen {
        return None;
      }
      var raw := buf[..frameLen];
      buf := buf[frameLen..];
      var payload := raw[HEADER..HEADER + dlc];
      var cidRaw := Le16(raw[HEADER + dlc], raw[HEADER + dlc + 1]);
      return Some(Incoming(Frame(raw[1], raw[2], dlc, cidRaw, payload), raw[|raw| - 1], raw));
    }

    /** The inner loop: frames are delivered until an attempt finds none. */
    method DrainBuffer()
      modifies `buf, `incoming
      ensures AllLong(Drain(old(buf)).wires)
      ensures buf == Drain(old(buf)).rest && incoming == old(incoming) + ReadEach(Drain(old(buf)).wires)
    {
      hide Attempt, Read;
      DrainWhole(buf);
      ghost var wires := [];
      while true
        invariant AllLong(wires) && AllLong(Drain(buf).wires)
        invariant Drain(old(buf)) == Outcome(wires + Drain(buf).wires, Drain(buf).rest)
        invariant incoming == old(incoming) + ReadEach(wires)
        decreases |buf|
      {
        ghost var before, raw := buf, Attempt(buf).0;
        var frame := TryDecode();
        if frame == None {
          assert Drain(before) == Outcome([], buf);
          assert wires + [] == wires;
          break;
        }
        assert Drain(before) == Outcome([raw.value] + Drain(buf).wires, Drain(buf).rest);
        assert wires + ([raw.value] + Drain(buf).wires) == wires + [raw.value] + Drain(buf).wires;
        assert ReadEach(wires + [raw.value]) == ReadEach(wires) + [Read(raw.value)];
        DrainWhole(buf);
        wires := wires + [raw.value];
        incoming := incoming + [frame.value];
      }
    }

    /** The reader thread over any run of socket reads. */
    method ReaderLoop(readings: seq<Reading>)
      modifies `buf, `incoming
      ensures AllLong(ReadAll(old(buf), ChunksBeforeEnd(readings)).wires)
      ensures var o := ReadAll(old(buf), ChunksBeforeEnd(readings));
        buf == o.rest && incoming == old(incoming) + ReadEach(o.wires)
    {
      hide Drain, Read, ReadAll, ReadEach, ChunksBeforeEnd;
      ghost var wires := [];
      var running, i := true, 0;
      assert readings[0..] == readings;
      NothingDelivered(buf, incoming, ReadAll(buf, ChunksBeforeEnd(readings)).wires);
      while running && i < |readings|
        invariant 0 <= i <= |readings| && AllLong(wires)
        invariant var o := ReadAll(buf, if running then ChunksBeforeEnd(readings[i..]) else []);
          ReadAll(old(buf), ChunksBeforeEnd(readings)) == Outcome(wires + o.wires, o.rest)
        invariant incoming == old(incoming) + ReadEach(wires)
        decreases |readings| - i
      {
        var reading := readings[i];
        assert readings[i..][0] == reading && readings[i..][1..] == readings[i + 1..];
        NextReading(readings[i..]);
        match reading {
          case Timeout =>
          case Failure =>
            running := false;
          case Chunk(data) =>
            if data == [] {
              running := false;
            } else {
              wires := DrainChunk(data, ChunksBeforeEnd(readings[i + 1..]), wires, old(incoming));
            }
        }
        i := i + 1;
      }
      assert readings[|readings|..] == [];
      NoMoreReadings(buf);
      assert wires + [] == wires;
    }

    /** A non-empty chunk is appended and drained. */
    method DrainChunk(
        data: seq<byte>, ghost later: seq<seq<byte>>, ghost wires: seq<seq<byte>>, ghost earlier: seq<Incoming>)
      returns (ghost more: seq<seq<byte>>)
      requires AllLong(wires) && incoming == earlier + ReadEach(wires)
      modifies `buf, `incoming
      ensures AllLong(more) && incoming == earlier + ReadEach(more)
      ensures var o, p := ReadAll(old(buf), [data] + later), ReadAll(buf, later);
        Outcome(wires + o.wires, o.rest) == Outcome(more + p.wires, p.rest)
    {
      hide Drain, Read;
      ghost var found := Drain(buf + data).wires;
      buf := buf + data;
      DrainBuffer();
      more := wires + found;
      ReadEachAppend(wires, found);
      Associated(earlier, ReadEach(wires), ReadEach(found));
      assert ([data] + later)[1..] == later;
      assert wires + (found + ReadAll(buf, later).wires) == more + ReadAll(buf, later).wires;
    }

    method NextSeq(cid: int) returns (curr: int)
      modifies `seqByCid
      ensures curr == NextSeqOf(old(seqByCid), cid) && seqByCid == old(seqByCid)[cid := curr]
    {
      curr := if cid in seqByCid then seqByCid[cid] else -1;
      curr := (curr + 1) % 16;
      seqByCid := seqByCid[cid := curr];
    }
  }

  // ----- Sequence numbers -----

  function NextSeqOf(m: map<int, int>, cid: int): int {
    ((if cid in m then m[cid] else -1) + 1) % 16
  }

  /** The dictionary and the numbers given out after calls for the given CIDs. */
  function Number(cids: seq<int>): (map<int, int>, seq<int>) {
    if cids == [] then (map[], [])
    else
      var n := |cids| - 1;
      var (m, seqs) := Number(cids[..n]);
      var s := NextSeqOf(m, cids[n]);
      (m[cids[n] := s], seqs + [s])
  }

  function Count(cids: seq<int>, cid: int): nat {
    if cids == [] then 0
    else
      var n := |cids| - 1;
      Count(cids[..n], cid) + if cids[n] == cid then 1 else 0
  }

  /** Each CID is numbered on its own, modulo 16, from zero. */
  lemma {:induction false} NumberedPerCid(cids: seq<int>, i: nat)
    requires i < |cids|
    ensures |Number(cids).1| == |cids| && Number(cids).1[i] == Count(cids[..i], cids[i]) % 16
  {
    hide Number, Count, NextSeqOf;
    var n := |cids| - 1;
    LastNumber(cids[..n]);
    LastNumber(cids);
    NumberSnoc(cids);
    if i < n {
      NumberedPerCid(cids[..n], i);
      assert cids[..n][..i] == cids[..i];
    } else {
      LastNumberOf(cids[..n], cids[n]);
      NextAfter(Number(cids[..n]).0, cids[n], Count(cids[..n], cids[n]));
    }
  }

  lemma NumberSnoc(cids: seq<int>)
    requires cids != []
    ensures var n := |cids| - 1;
      Number(cids).1 == Number(cids[..n]).1 + [NextSeqOf(Number(cids[..n]).0, cids[n])]
  {
    hide NextSeqOf;
  }

  lemma NextAfter(m: map<int, int>, cid: int, count: nat)
    requires (cid in m <==> count > 0) && (cid in m ==> m[cid] == (count - 1) % 16)
    ensures NextSeqOf(m, cid) == count % 16
  {
  }

  lemma {:induction false} LastNumber(cids: seq<int>)
    ensures |Number(cids).1| == |cids|
  {
    if cids != [] {
      LastNumber(cids[..|cids| - 1]);
    }
  }

  /** What the dictionary holds for a CID. */
  lemma {:induction false} LastNumberOf(cids: seq<int>, cid: int)
    ensures var m := Number(cids).0;
      (cid in m <==> Count(cids, cid) > 0) && (cid in m ==> m[cid] == (Count(cids, cid) - 1) % 16)
  {
    if cids != [] {
      var n := |cids| - 1;
      LastNumberOf(cids[..n], cid);
      LastNumberOf(cids[..n], cids[n]);
    }
  }
}
