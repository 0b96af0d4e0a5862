/** Whole runs of the firmware's receiver: what it finds, what it holds, and when it loses a frame. */
module FirmwareRuns {
  import opened Bytes
  import opened Folds
  import opened Wire
  import opened Scanner
  import opened RoundTrip
  import opened Firmware

  /** A chunk, and the byte that happens to lie behind the receive buffer when it is parsed. */
  datatype Arrival = Arrival(chunk: seq<byte>, beyond: byte)

  function Chunks(arrivals: seq<Arrival>): seq<seq<byte>> {
    Map((a: Arrival) => a.chunk, arrivals)
  }

  function Stream(arrivals: seq<Arrival>): seq<byte> {
    Flatten(Chunks(arrivals))
  }

  /** The memory and the frames found after a run. */
  datatype Result = Result(memory: Memory, found: seq<seq<byte>>)

  function RunFrom(m: Memory, arrivals: seq<Arrival>): (r: Result)
    requires m.Fits()
    ensures r.memory.Fits()
    decreases |arrivals|
  {
    if arrivals == [] then Result(m, [])
    else
      var a := arrivals[0];
      var r := RunFrom(Received(m, a.chunk, a.beyond), arrivals[1..]);
      Result(r.memory, Found(m, a.chunk, a.beyond) + r.found)
  }

  predicate Overflows(m: Memory, a: Arrival) {
    m.len + |a.chunk| > BUFFER
  }

  /** The parse after this arrival leaves a header cut after four bytes, and misreads it. */
  predicate MisreadAt(m: Memory, a: Arrival)
    requires m.Fits() && !Overflows(m, a)
  {
    var n := Appended(m, a.chunk);
    Misread(Scan(FIRMWARE, n.View()).rest, n.Stale(a.beyond))
  }

  predicate NeverMisread(m: Memory, arrivals: seq<Arrival>)
    requires m.Fits()
    decreases |arrivals|
  {
    arrivals == [] ||
    var a := arrivals[0];
    !Overflows(m, a) ==> !MisreadAt(m, a) && NeverMisread(Received(m, a.chunk, a.beyond), arrivals[1..])
  }

  predicate NeverOverflows(m: Memory, arrivals: seq<Arrival>)
    requires m.Fits()
    decreases |arrivals|
  {
    arrivals == [] ||
    var a := arrivals[0];
    !Overflows(m, a) && NeverOverflows(Received(m, a.chunk, a.beyond), arrivals[1..])
  }

  /** After every arrival at most `bound` bytes are held. */
  predicate HoldsAtMost(m: Memory, arrivals: seq<Arrival>, bound: nat)
    requires m.Fits()
    decreases |arrivals|
  {
    arrivals == [] ||
    var a := arrivals[0];
    var n := Received(m, a.chunk, a.beyond);
    n.len <= bound && HoldsAtMost(n, arrivals[1..], bound)
  }

  lemma StreamCons(arrivals: seq<Arrival>)
    requires arrivals != []
    ensures Stream(arrivals) == arrivals[0].chunk + Stream(arrivals[1..])
  {
    assert Chunks(arrivals)[1..] == Chunks(arrivals[1..]);
  }

  /** One arrival that neither overflows nor is misread does what the scan does. */
  lemma ArrivalAgrees(m: Memory, a: Arrival)
    requires m.Fits() && !Overflows(m, a) && !MisreadAt(m, a)
    ensures var o := Scan(FIRMWARE, m.View() + a.chunk);
      Found(m, a.chunk, a.beyond) == o.wires && Received(m, a.chunk, a.beyond).View() == o.rest
  {
    hide Scan, FirmwareScan, Misread;
    var n := Appended(m, a.chunk);
    ScanAgreesIff(n.View(), n.Stale(a.beyond));
    var rest := FirmwareScan(n.View(), n.Stale(a.beyond)).rest;
    FirmwareRestBound(n.View(), n.Stale(a.beyond));
    assert (rest + n.cells[|rest|..])[..|rest|] == rest;
  }

  lemma RunFromCons(m: Memory, arrivals: seq<Arrival>)
    requires m.Fits() && arrivals != []
    ensures var a := arrivals[0]; var n := Received(m, a.chunk, a.beyond); var r := RunFrom(n, arrivals[1..]);
      RunFrom(m, arrivals) == Result(r.memory, Found(m, a.chunk, a.beyond) + r.found)
  {
    hide Received, Found;
  }

  lemma NoArrivals(m: Memory, arrivals: seq<Arrival>)
    requires m.Fits() && arrivals == []
    ensures RunFrom(m, arrivals) == Result(m, []) && Stream(arrivals) == []
  {
  }

  lemma NeverAnything(m: Memory, arrivals: seq<Arrival>)
    requires m.Fits() && arrivals != []
    ensures var a := arrivals[0]; var n := Received(m, a.chunk, a.beyond);
      && (NeverOverflows(m, arrivals) <==> !Overflows(m, a) && NeverOverflows(n, arrivals[1..]))
      && (!Overflows(m, a) ==>
            (NeverMisread(m, arrivals) <==> !MisreadAt(m, a) && NeverMisread(n, arrivals[1..])))
  {
    hide Received, MisreadAt;
  }

  /**
   * Any chunking that neither overflows the buffer nor is misread hands on the same frames as one scan of the
   * whole stream, and keeps the same bytes.
   */
  lemma {:induction false} RunAgrees(m: Memory, before: seq<byte>, arrivals: seq<Arrival>)
    requires m.Fits() && m.View() == Scan(FIRMWARE, before).rest
    requires NeverOverflows(m, arrivals) && NeverMisread(m, arrivals)
    ensures var o := Scan(FIRMWARE, before); var p := Scan(FIRMWARE, before + Stream(arrivals));
      var r := RunFrom(m, arrivals);
      p == Outcome(o.wires + r.found, r.memory.View())
    decreases |arrivals|
  {
    hide Scan, MisreadAt, Found, Received, RunFrom, Stream, NeverOverflows, NeverMisread;
    var o := Scan(FIRMWARE, before);
    if arrivals == [] {
      NoArrivals(m, arrivals);
      assert before + [] == before;
      assert o.wires + [] == o.wires;
    } else {
      var a := arrivals[0];
      NeverAnything(m, arrivals);
      ArrivalAgrees(m, a);
      ScanSplit(FIRMWARE, before, a.chunk);
      var n := Received(m, a.chunk, a.beyond);
      RunAgrees(n, before + a.chunk, arrivals[1..]);
      StreamCons(arrivals);
      RunFromCons(m, arrivals);
      assert before + (a.chunk + Stream(arrivals[1..])) == before + a.chunk + Stream(arrivals[1..]);
      var f, g := Found(m, a.chunk, a.beyond), RunFrom(n, arrivals[1..]).found;
      assert o.wires + f + g == o.wires + (f + g);
    }
  }

  // ----- Streams of frames built by the gateway -----

  const GATEWAY_FRAME: nat := OVERHEAD + GATEWAY_LIMIT

  lemma CleanRest(frames: seq<Frame>, t: seq<byte>)
    requires AllSendable(GATEWAY, frames) && t <= EncodeAll(frames)
    ensures |Scan(FIRMWARE, t).rest| < GATEWAY_FRAME
  {
    hide Scan, Step, EncodeAll, EncodeEach;
    var k, u := Stretch(FIRMWARE, frames, t);
    PrefixOfFrames(FIRMWARE, frames[..k], u);
  }

  predicate Metered(arrivals: seq<Arrival>) {
    forall i :: 0 <= i < |arrivals| ==> |arrivals[i].chunk| <= CHUNK
  }

  /** One chunk of such a stream fits, and after its parse little enough is held. */
  lemma {:induction false} CleanArrivalFits(m: Memory, before: seq<byte>, a: Arrival, more: seq<byte>, frames: seq<Frame>)
    requires m.Fits() && m.View() == Scan(FIRMWARE, before).rest && |a.chunk| <= CHUNK
    requires AllSendable(GATEWAY, frames) && before + (a.chunk + more) <= EncodeAll(frames)
    ensures !Overflows(m, a)
    ensures !MisreadAt(m, a) ==> var n := Received(m, a.chunk, a.beyond);
      n.len < GATEWAY_FRAME && n.View() == Scan(FIRMWARE, before + a.chunk).rest
  {
    hide Scan, MisreadAt, Received, EncodeAll, Sendable;
    PrefixOfPrefix(before, a.chunk + more, EncodeAll(frames));
    assert before + (a.chunk + more) == before + a.chunk + more;
    PrefixOfPrefix(before + a.chunk, more, EncodeAll(frames));
    CleanRest(frames, before);
    CleanRest(frames, before + a.chunk);
    assert |m.View()| == m.len;
    if !MisreadAt(m, a) {
      ArrivalAgrees(m, a);
      ScanSplit(FIRMWARE, before, a.chunk);
      var n := Received(m, a.chunk, a.beyond);
      assert |n.View()| == n.len;
    }
  }

  lemma HoldsAtMostCons(m: Memory, arrivals: seq<Arrival>, bound: nat)
    requires m.Fits()
    ensures arrivals == [] ==> HoldsAtMost(m, arrivals, bound)
    ensures arrivals != [] ==> var n := Received(m, arrivals[0].chunk, arrivals[0].beyond);
      (HoldsAtMost(m, arrivals, bound) <==> n.len <= bound && HoldsAtMost(n, arrivals[1..], bound))
  {
    hide Received;
  }

  lemma NothingOverflows(m: Memory, arrivals: seq<Arrival>)
    requires m.Fits() && arrivals == []
    ensures NeverOverflows(m, arrivals)
  {
  }

  /**
   * A stream of gateway frames, cut anywhere into chunks of at most 64 bytes and never misread:
   * the overflow reset is never reached and at most 263 bytes are held after each parse.
   */
  lemma {:induction false} CleanRunFits(m: Memory, before: seq<byte>, arrivals: seq<Arrival>, frames: seq<Frame>)
    requires m.Fits() && m.View() == Scan(FIRMWARE, before).rest
    requires AllSendable(GATEWAY, frames) && before + Stream(arrivals) <= EncodeAll(frames)
    requires Metered(arrivals) && NeverMisread(m, arrivals)
    ensures NeverOverflows(m, arrivals) && HoldsAtMost(m, arrivals, GATEWAY_FRAME - 1)
    decreases |arrivals|
  {
    hide Scan, MisreadAt, Received, EncodeAll, Sendable, Stream, NeverOverflows, NeverMisread, HoldsAtMost;
    HoldsAtMostCons(m, arrivals, GATEWAY_FRAME - 1);
    if arrivals == [] {
      NothingOverflows(m, arrivals);
    } else {
      var a := arrivals[0];
      StreamCons(arrivals);
      CleanArrivalFits(m, before, a, Stream(arrivals[1..]), frames);
      NeverAnything(m, arrivals);
      assert before + (a.chunk + Stream(arrivals[1..])) == before + a.chunk + Stream(arrivals[1..]);
      CleanRunFits(Received(m, a.chunk, a.beyond), before + a.chunk, arrivals[1..], frames);
    }
  }

  // ----- Exactly when a clean stream arrives whole -----

  lemma {:induction false} ScanConserves(r: Receiver, buf: seq<byte>)
    ensures |Flatten(Scan(r, buf).wires)| + |Scan(r, buf).rest| <= |buf|
    decreases |buf|
  {
    hide Step;
    match Step(r, buf) {
      case Wait =>
      case Drop => ScanConserves(r, buf[1..]);
      case Emit(len) => ScanConserves(r, buf[len..]);
    }
  }

  lemma ArrivalConserves(m: Memory, a: Arrival)
    requires m.Fits()
    ensures |Flatten(Found(m, a.chunk, a.beyond))| + Received(m, a.chunk, a.beyond).len <= m.len + |a.chunk|
    ensures !Overflows(m, a) && MisreadAt(m, a) ==>
      |Flatten(Found(m, a.chunk, a.beyond))| + Received(m, a.chunk, a.beyond).len < m.len + |a.chunk|
  {
    hide Scan, FirmwareScan;
    if !Overflows(m, a) {
      var n := Appended(m, a.chunk);
      ScanAgreesIff(n.View(), n.Stale(a.beyond));
      ScanConserves(FIRMWARE, n.View());
    }
  }

  /** Bytes found as frames and bytes held never exceed what arrived, and fall short of it after a misreading. */
  lemma {:induction false} RunConserves(m: Memory, arrivals: seq<Arrival>)
    requires m.Fits()
    ensures var r := RunFrom(m, arrivals);
      |Flatten(r.found)| + r.memory.len <= m.len + |Stream(arrivals)| &&
      (!NeverMisread(m, arrivals) ==> |Flatten(r.found)| + r.memory.len < m.len + |Stream(arrivals)|)
    decreases |arrivals|
  {
    if arrivals != [] {
      hide Found, Received, MisreadAt;
      var a := arrivals[0];
      StreamCons(arrivals);
      ArrivalConserves(m, a);
      RunConserves(Received(m, a.chunk, a.beyond), arrivals[1..]);
      FlattenAppend(Found(m, a.chunk, a.beyond), RunFrom(Received(m, a.chunk, a.beyond), arrivals[1..]).found);
    }
  }

  /**
   * A stream of gateway frames reaches the firmware whole, frame for frame, exactly when no parse misreads a
   * header cut after its fourth byte.
   */
  lemma {:induction false} CleanDeliveryIff(m: Memory, arrivals: seq<Arrival>, frames: seq<Frame>)
    requires m.Fits() && m.len == 0 && Metered(arrivals)
    requires AllSendable(GATEWAY, frames) && Stream(arrivals) == EncodeAll(frames)
    ensures RunFrom(m, arrivals).found == EncodeEach(frames) <==> NeverMisread(m, arrivals)
    ensures NeverMisread(m, arrivals) ==>
      NeverOverflows(m, arrivals) && HoldsAtMost(m, arrivals, GATEWAY_FRAME - 1) && RunFrom(m, arrivals).memory.len == 0
  {
    hide Scan, NeverMisread, NeverOverflows, HoldsAtMost, RunFrom, EncodeEach, Step;
    assert m.View() == [];
    NothingScanned();
    RunConserves(m, arrivals);
    if NeverMisread(m, arrivals) {
      assert [] + Stream(arrivals) == Stream(arrivals);
      CleanRunFits(m, [], arrivals, frames);
      RunAgrees(m, [], arrivals);
      CleanRoundTrip(FIRMWARE, frames);
      assert [] + RunFrom(m, arrivals).found == RunFrom(m, arrivals).found;
      assert |RunFrom(m, arrivals).memory.View()| == 0;
    }
  }

  lemma NothingScanned()
    ensures Scan(FIRMWARE, []) == Outcome([], [])
  {
  }

  /** No chunk leaves exactly four undecided bytes. */
  predicate NoCutAtFour(before: seq<byte>, arrivals: seq<Arrival>) {
    forall n: nat :: n <= |arrivals| ==> |Scan(FIRMWARE, before + Stream(arrivals[..n])).rest| != 4
  }

  lemma NoCutAtFourStep(before: seq<byte>, arrivals: seq<Arrival>)
    requires arrivals != [] && NoCutAtFour(before, arrivals)
    ensures |Scan(FIRMWARE, before + arrivals[0].chunk).rest| != 4
    ensures NoCutAtFour(before + arrivals[0].chunk, arrivals[1..])
  {
    hide Scan, Stream;
    var now := before + arrivals[0].chunk;
    FirstChunk(arrivals);
    assert |Scan(FIRMWARE, before + Stream(arrivals[..1])).rest| != 4;
    forall n: nat | n <= |arrivals| - 1 ensures |Scan(FIRMWARE, now + Stream(arrivals[1..][..n])).rest| != 4 {
      MoreChunks(arrivals, n);
      assert now + Stream(arrivals[1..][..n]) == before + Stream(arrivals[..n + 1]);
    }
  }

  /** When no chunk ends four bytes into a frame, nothing can be misread, whatever the stale bytes are. */
  lemma {:induction false} NoFourByteCut(m: Memory, before: seq<byte>, arrivals: seq<Arrival>)
    requires m.Fits() && m.View() == Scan(FIRMWARE, before).rest
    requires NoCutAtFour(before, arrivals)
    ensures NeverMisread(m, arrivals)
    decreases |arrivals|
  {
    if arrivals != [] && !Overflows(m, arrivals[0]) {
      hide Scan, Received, Found, Step, NoCutAtFour;
      var a := arrivals[0];
      NoCutAtFourStep(before, arrivals);
      ScanSplit(FIRMWARE, before, a.chunk);
      ArrivalAgrees(m, a);
      NoFourByteCut(Received(m, a.chunk, a.beyond), before + a.chunk, arrivals[1..]);
    }
  }

  lemma FirstChunk(arrivals: seq<Arrival>)
    requires arrivals != []
    ensures Stream(arrivals[..1]) == arrivals[0].chunk
  {
    StreamCons(arrivals[..1]);
    assert arrivals[..1][1..] == [];
  }

  lemma MoreChunks(arrivals: seq<Arrival>, n: nat)
    requires n < |arrivals|
    ensures Stream(arrivals[..n + 1]) == arrivals[0].chunk + Stream(arrivals[1..][..n])
  {
    StreamCons(arrivals[..n + 1]);
    assert arrivals[..n + 1][1..] == arrivals[1..][..n];
  }

  // ----- Recovery -----

  /** A chunk that does not fit makes the firmware forget everything, itself included, and start over. */
  lemma OverflowForgets(m: Memory, a: Arrival, later: seq<Arrival>)
    requires m.Fits() && m.len + |a.chunk| > 512
    ensures RunFrom(m, [a] + later) == RunFrom(m.(len := 0), later)
  {
    hide RunFrom;
    RunFromCons(m, [a] + later);
    assert ([a] + later)[1..] == later;
    var r := RunFrom(m.(len := 0), later);
    assert [] + r.found == r.found;
  }

  /** A chunk that fits, up to the last byte, is appended and parsed. */
  lemma ExactFitIsParsed(m: Memory, a: Arrival)
    requires m.Fits() && m.len + |a.chunk| <= 512
    ensures Received(m, a.chunk, a.beyond) == Parsed(Appended(m, a.chunk), a.beyond)
  {
  }

  /**
   * Reception recovers from an overflow: whatever was held and whatever overflowed it, gateway frames that
   * follow in chunks of at most 64 bytes are all found, as long as no header is misread.
   */
  lemma {:induction false} OverflowRecovers(m: Memory, a: Arrival, later: seq<Arrival>, frames: seq<Frame>)
    requires m.Fits() && m.len + |a.chunk| > 512
    requires forall i :: 0 <= i < |later| ==> |later[i].chunk| <= 64
    requires AllSendable(GATEWAY, frames) && Stream(later) == EncodeAll(frames)
    requires NeverMisread(m.(len := 0), later)
    ensures RunFrom(m, [a] + later).found == EncodeEach(frames)
  {
    hide RunFrom, NeverMisread, Stream, EncodeAll, EncodeEach;
    OverflowForgets(m, a, later);
    CleanDeliveryIff(m.(len := 0), later, frames);
  }

  /** Gateway frames in chunks of at most 64 bytes leave no more than 263 of the 512 bytes in use. */
  lemma {:induction false} CleanRunFigures(m: Memory, arrivals: seq<Arrival>, frames: seq<Frame>)
    requires m.Fits() && m.len == 0 && forall i :: 0 <= i < |arrivals| ==> |arrivals[i].chunk| <= 64
    requires AllSendable(GATEWAY, frames) && Stream(arrivals) == EncodeAll(frames) && NeverMisread(m, arrivals)
    ensures HoldsAtMost(m, arrivals, 263) && |m.cells| == 512
  {
    hide RunFrom, NeverMisread, Stream, EncodeAll, EncodeEach, HoldsAtMost, NeverOverflows;
    CleanDeliveryIff(m, arrivals, frames);
  }

  /** With the array full to its end, the byte behind the array decides about a header cut after four bytes. */
  lemma {:induction false} ByteBehindDecides(m: Memory, a: Arrival)
    requires m.Fits() && m.len + |a.chunk| == 512
    ensures var rest := Scan(FIRMWARE, m.View() + a.chunk).rest;
      MisreadAt(m, a) <==> |rest| == 4 && rest[0] == 0xAA && rest[3] as int + 256 * (a.beyond as int) > 500
  {
    hide Scan;
  }
}
