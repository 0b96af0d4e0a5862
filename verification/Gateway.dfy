/** The gateway's UART side: the stream parser that feeds the sessions, and the worker that drains them. */
module Gateway {
  import opened Bytes
  import opened Crc8
  import opened Wire
  import opened Scanner
  import opened RoundTrip
  import opened Encoder
  import opened Routing
  import opened Sessions

  predicate AllGatewayFrames(wires: seq<seq<byte>>) {
    forall i :: 0 <= i < |wires| ==> IsWire(wires[i], GATEWAY.maxDlc, true)
  }

  /** The table after the frames in the slices have been dispatched in order. */
  function DispatchWires(t: Table, wires: seq<seq<byte>>): Table
    requires AllGatewayFrames(wires)
  {
    DispatchAll(t, DecodeEach(wires))
  }

  lemma OneMoreDispatched(t: Table, wires: seq<seq<byte>>, w: seq<byte>)
    requires AllGatewayFrames(wires) && IsWire(w, GATEWAY.maxDlc, true)
    ensures AllGatewayFrames(wires + [w])
    ensures DispatchWires(t, wires + [w]) == Dispatch(DispatchWires(t, wires), Decode(w))
  {
    hide Crc, Le16, Dispatch;
    assert DecodeEach(wires + [w]) == DecodeEach(wires) + [Decode(w)];
    assert (DecodeEach(wires) + [Decode(w)])[..|wires|] == DecodeEach(wires);
  }

  /** A slice that passes the gateway's tests, as the frame it holds. */
  lemma TakenSlice(buf: seq<byte>, len: nat)
    requires Step(GATEWAY, buf) == Emit(len)
    ensures IsWire(buf[..len], GATEWAY.maxDlc, true)
    ensures Decode(buf[..len]) ==
      Frame(buf[1], buf[2], DlcOf(buf), Le16(buf[len - 3], buf[len - 2]), buf[HEADER..len - 3])
    ensures Scan(GATEWAY, buf) ==
      Outcome([buf[..len]] + Scan(GATEWAY, buf[len..]).wires, Scan(GATEWAY, buf[len..]).rest)
  {
    hide Scan, Crc, Le16, Step;
    EmitIff(GATEWAY, buf, len);
    ScanEmit(GATEWAY, buf, len);
    SliceOfPrefix(buf, len, HEADER, len - 3);
  }

  class PacketParser {
    const manager: SessionManager
    var rxBuffer: seq<byte>

    constructor (manager: SessionManager)
      ensures this.manager == manager && rxBuffer == []
    {
      this.manager := manager;
      rxBuffer := [];
    }

    ghost predicate Valid()
      reads this, manager
    {
      manager.Valid() && this !in manager.Objects()
    }

    /** The buffer grows by the data, is parsed, and the frames found reach the sessions in order. */
    method Push(data: seq<byte>)
      requires Valid()
      modifies this, manager.Objects()
      ensures Valid()
      ensures AllGatewayFrames(Scan(GATEWAY, old(rxBuffer) + data).wires)
      ensures rxBuffer == Scan(GATEWAY, old(rxBuffer) + data).rest
      ensures manager.GetTable() ==
        DispatchWires(old(manager.GetTable()), Scan(GATEWAY, old(rxBuffer) + data).wires)
    {
      hide Scan, DispatchWires, AllGatewayFrames;
      rxBuffer := rxBuffer + data;
      Parse();
    }

    /**
     * How far a parse has come: the slices already handed on, followed by what a scan of the remaining buffer
     * would take, are what a scan of the buffer it started from takes; the sessions have been told.
     */
    ghost predicate ParsedSoFar(start: seq<byte>, before: Table, wires: seq<seq<byte>>)
      reads this, manager, manager.Objects()
    {
      && AllGatewayFrames(wires)
      && Scan(GATEWAY, start) == Outcome(wires + Scan(GATEWAY, rxBuffer).wires, Scan(GATEWAY, rxBuffer).rest)
      && manager.GetTable() == DispatchWires(before, wires)
    }

    lemma NothingParsed()
      ensures ParsedSoFar(rxBuffer, manager.GetTable(), [])
    {
    }

    lemma AllParsed(start: seq<byte>, before: Table, wires: seq<seq<byte>>)
      requires ParsedSoFar(start, before, wires) && Step(GATEWAY, rxBuffer) == Wait
      ensures Scan(GATEWAY, start) == Outcome(wires, rxBuffer)
      ensures AllGatewayFrames(wires) && manager.GetTable() == DispatchWires(before, wires)
    {
    }

    method Parse()
      requires Valid()
      modifies this, manager.Objects()
      ensures Valid()
      ensures AllGatewayFrames(Scan(GATEWAY, old(rxBuffer)).wires)
      ensures rxBuffer == Scan(GATEWAY, old(rxBuffer)).rest
      ensures manager.GetTable() ==
        DispatchWires(old(manager.GetTable()), Scan(GATEWAY, old(rxBuffer)).wires)
    {
      hide ParsedSoFar, Scan, Crc, Le16, DispatchWires, AllGatewayFrames;
      ghost var start, before := rxBuffer, manager.GetTable();
      ghost var wires: seq<seq<byte>> := [];
      NothingParsed();
      while |rxBuffer| >= HEADER
        invariant Valid() && ParsedSoFar(start, before, wires)
        decreases |rxBuffer|
      {
        if rxBuffer[0] != SOF {
          DropByte(start, before, wires);
          continue;
        }
        var dlc := Le16(rxBuffer[3], rxBuffer[4]);
        if dlc > MAX_PAYLOAD {
          DropByte(start, before, wires);
          continue;
        }
        var frameLen := OVERHEAD + dlc;
        if |rxBuffer| < frameLen {
          break;
        }
        var receivedCrc := rxBuffer[frameLen - 1];
        var expectedCrc := CalcCrc8(rxBuffer, 1, 6 + dlc);
        if receivedCrc != expectedCrc {
          DropByte(start, before, wires);
          continue;
        }
        wires := TakeFrame(frameLen, start, before, wires);
      }
      AllParsed(start, before, wires);
    }

    /** A verified frame is handed on and its bytes leave the buffer. */
    method TakeFrame(frameLen: nat, ghost start: seq<byte>, ghost before: Table, ghost wires: seq<seq<byte>>)
      returns (ghost more: seq<seq<byte>>)
      requires Valid() && Step(GATEWAY, rxBuffer) == Emit(frameLen) && ParsedSoFar(start, before, wires)
      modifies this, manager.Objects()
      ensures Valid() && rxBuffer == old(rxBuffer)[frameLen..]
      ensures more == wires + [old(rxBuffer)[..frameLen]] && ParsedSoFar(start, before, more)
    {
      hide Scan, Crc, Le16, Step, Dispatch, DispatchWires, AllGatewayFrames;
      TakenSlice(rxBuffer, frameLen);
      ghost var w := rxBuffer[..frameLen];
      OneMoreDispatched(before, wires, w);
      var dlc := Le16(rxBuffer[3], rxBuffer[4]);
      var cid := Le16(rxBuffer[frameLen - 3], rxBuffer[frameLen - 2]);
      OnFrame(Frame(rxBuffer[1], rxBuffer[2], dlc, cid, rxBuffer[HEADER..frameLen - 3]));
      rxBuffer := rxBuffer[frameLen..];
      assert wires + ([w] + Scan(GATEWAY, rxBuffer).wires) == wires + [w] + Scan(GATEWAY, rxBuffer).wires;
      more := wires + [w];
    }

    /** The byte in front is discarded, and the scan goes on as if it had never been there. */
    method DropByte(ghost start: seq<byte>, ghost before: Table, ghost wires: seq<seq<byte>>)
      requires Valid() && rxBuffer != [] && Step(GATEWAY, rxBuffer) == Drop && ParsedSoFar(start, before, wires)
      modifies `rxBuffer
      ensures Valid() && rxBuffer == old(rxBuffer)[1..] && ParsedSoFar(start, before, wires)
    {
      hide Scan, Step, DispatchWires, AllGatewayFrames;
      ScanDrop(GATEWAY, rxBuffer);
      rxBuffer := rxBuffer[1..];
    }

    /** Advertisements are broadcast; every other frame is routed by its SID. */
    method OnFrame(f: Frame)
      requires Valid() && f.dlc <= |f.payload|
      modifies manager.Objects()
      ensures Valid() && manager.GetTable() == Dispatch(old(manager.GetTable()), f)
    {
      if f.sid == ADVERTISE_SID {
        manager.DoBroadcast(f);
      } else {
        manager.RouteUartRxBySid(f);
      }
    }
  }

  lemma {:induction false} DispatchMore(t: Table, a: seq<seq<byte>>, b: seq<seq<byte>>)
    requires AllGatewayFrames(a) && AllGatewayFrames(b)
    ensures AllGatewayFrames(a + b) && DispatchWires(t, a + b) == DispatchWires(DispatchWires(t, a), b)
    decreases |b|
  {
    hide IsWire, Dispatch, Decode;
    if b == [] {
      assert a + b == a;
    } else {
      var n := |b| - 1;
      DispatchMore(t, a, b[..n]);
      assert a + b == a + b[..n] + [b[n]];
      assert b == b[..n] + [b[n]];
      OneMoreDispatched(t, a + b[..n], b[n]);
      OneMoreDispatched(DispatchWires(t, a), b[..n], b[n]);
    }
  }

  /** How far a run of reads has come: what one scan of everything read so far leaves and has dispatched. */
  predicate ReceivedSoFar(before: Table, arrived: seq<byte>, buffer: seq<byte>, t: Table) {
    var o := Scan(GATEWAY, arrived);
    AllGatewayFrames(o.wires) && buffer == o.rest && t == DispatchWires(before, o.wires)
  }

  lemma NothingReceived(t: Table, buffer: seq<byte>)
    requires Step(GATEWAY, buffer) == Wait
    ensures ReceivedSoFar(t, buffer, buffer, t)
  {
    hide Step, Scan;
    ScanWait(GATEWAY, buffer);
  }

  lemma MoreReceived(before: Table, arrived: seq<byte>, buffer: seq<byte>, t: Table, data: seq<byte>, u: Table)
    requires ReceivedSoFar(before, arrived, buffer, t)
    requires AllGatewayFrames(Scan(GATEWAY, buffer + data).wires) && u == DispatchWires(t, Scan(GATEWAY, buffer + data).wires)
    ensures ReceivedSoFar(before, arrived + data, Scan(GATEWAY, buffer + data).rest, u)
  {
    hide Scan, DispatchWires, AllGatewayFrames;
    ScanSplit(GATEWAY, arrived, data);
    DispatchMore(before, Scan(GATEWAY, arrived).wires, Scan(GATEWAY, buffer + data).wires);
  }

  /**
   * The reading thread over any run of reads, of which the empty ones brought nothing: buffer and sessions are
   * those of one push of all the bytes.
   */
  method RxWorker(parser: PacketParser, batches: seq<seq<byte>>)
    requires parser.Valid() && Step(GATEWAY, parser.rxBuffer) == Wait
    modifies parser, parser.manager.Objects()
    ensures parser.Valid()
    ensures ReceivedSoFar(old(parser.manager.GetTable()), old(parser.rxBuffer) + Flatten(batches),
                     parser.rxBuffer, parser.manager.GetTable())
  {
    hide ReceivedSoFar, Scan, Step, DispatchWires, AllGatewayFrames;
    ghost var before, arrived := parser.manager.GetTable(), parser.rxBuffer;
    NothingReceived(before, arrived);
    assert arrived + Flatten(batches[..0]) == arrived;
    for i := 0 to |batches|
      invariant parser.Valid() && parser.manager.Objects() == old(parser.manager.Objects())
      invariant ReceivedSoFar(before, arrived + Flatten(batches[..i]), parser.rxBuffer, parser.manager.GetTable())
    {
      ghost var buffer, t := parser.rxBuffer, parser.manager.GetTable();
      assert batches[..i + 1] == batches[..i] + [batches[i]];
      FlattenSnoc(batches[..i], batches[i]);
      assert arrived + Flatten(batches[..i + 1]) == arrived + Flatten(batches[..i]) + batches[i];
      if batches[i] != [] {
        parser.Push(batches[i]);
        MoreReceived(before, arrived + Flatten(batches[..i]), buffer, t, batches[i], parser.manager.GetTable());
      } else {
        assert arrived + Flatten(batches[..i]) + [] == arrived + Flatten(batches[..i]);
      }
    }
    assert batches[..|batches|] == batches;
  }

  predicate AllReadable(frames: seq<Frame>) {
    forall i :: 0 <= i < |frames| ==> frames[i].dlc <= |frames[i].payload|
  }

  /** The bytes the frames become on the line, one after the other. */
  function SerializeAll(frames: seq<Frame>): seq<byte>
    requires AllReadable(frames)
  {
    if frames == [] then [] else Serialized(frames[0]) + SerializeAll(frames[1..])
  }

  lemma {:induction false} SerializeAllIsEncodeAll(frames: seq<Frame>)
    requires AllSendable(GATEWAY, frames)
    ensures SerializeAll(frames) == EncodeAll(frames)
    decreases |frames|
  {
    if frames != [] {
      hide Serialized, Encode;
      SerializedIsEncoded(frames[0]);
      SerializeAllIsEncodeAll(frames[1..]);
      EncodeAllCons(frames);
    }
  }

  lemma BacklogAfterPop(t: Table)
    ensures var (next, u) := PopNext(t);
      && (Backlog(t, 0) == [] ==> next == None && Backlog(u, 0) == [])
      && (Backlog(t, 0) != [] ==> next == Some(Backlog(t, 0)[0]) && Backlog(u, 0) == Backlog(t, 0)[1..])
  {
    hide Backlog, NextCid, PopFrom;
    BacklogEmptyIff(t, 0);
    if NextCid(t, 0).Some? {
      PopTakesFirst(t, 0);
    }
  }

  /** Popping changes queues for the MCU only. */
  lemma PopKeepsRest(t: Table)
    ensures Drained(PopNext(t).1) == Drained(t)
  {
    hide NextCid;
  }

  lemma EmptyIsDrained(t: Table)
    requires Backlog(t, 0) == []
    ensures t == Drained(t)
  {
    hide Backlog, NextCid;
    BacklogEmptyIff(t, 0);
    var c := NextCid(t, 0);
    assert forall k :: k in t ==> t[k] == t[k].(toMcu := []);
  }

  class UartTransport {
    const manager: SessionManager
    var line: seq<byte>  // everything written to the serial port

    constructor (manager: SessionManager)
      ensures this.manager == manager && line == []
    {
      this.manager := manager;
      line := [];
    }

    ghost predicate Valid()
      reads this, manager
    {
      manager.Valid() && this !in manager.Objects()
    }

    ghost function Pending(): seq<Frame>
      reads manager, manager.Objects()
    {
      Backlog(manager.GetTable(), 0)
    }

    /** The next frame for the MCU, seen from the backlog. */
    method TakePending() returns (next: Option<Frame>)
      requires Valid()
      modifies manager.Objects()
      ensures Valid() && (next, manager.GetTable()) == PopNext(old(manager.GetTable()))
      ensures old(Pending()) == [] ==> next == None && Pending() == []
      ensures old(Pending()) != [] ==> next == Some(old(Pending())[0]) && Pending() == old(Pending())[1..]
    {
      hide Backlog, PopNext;
      BacklogAfterPop(manager.GetTable());
      next := manager.PopNextMcuFrame();
    }

    /** One turn of the worker: the first pending frame goes out, or there is none; nothing else changes. */
    method SendNext() returns (sent: bool)
      requires Valid() && AllReadable(Pending())
      modifies this, manager.Objects()
      ensures Valid() && sent == (old(Pending()) != [])
      ensures manager.GetTable() == PopNext(old(manager.GetTable())).1
      ensures match PopNext(old(manager.GetTable())).0
        case None => line == old(line)
        case Some(f) => line == old(line) + OnLine(f)
      ensures sent ==> Pending() == old(Pending())[1..] && line == old(line) + Serialized(old(Pending())[0])
      ensures !sent ==> Pending() == [] && line == old(line)
    {
      hide Serialized, Pending, PopNext, OnLine, SessionManager.GetTable;
      var next := TakePending();
      if next.None? {
        return false;
      }
      WriteFrame(next.value);
      return true;
    }

    /** A frame is built and written, unless there is nothing to write. */
    method WriteFrame(f: Frame)
      requires f.dlc <= |f.payload|
      modifies `line
      ensures line == old(line) + Serialized(f) == old(line) + OnLine(f)
    {
      hide Serialized;
      var data := BuildFrame(f.sid, f.kind, To(f.payload), f.dlc, f.cid);
      NeverEmpty(f, data);
      if data != [] {
        line := line + data;
      }
      assert data == [] ==> line == line + data;
    }

    lemma NothingPending()
      requires Pending() == []
      ensures manager.GetTable() == Drained(manager.GetTable())
    {
      EmptyIsDrained(manager.GetTable());
    }

    lemma NeverEmpty(f: Frame, data: seq<byte>)
      requires f.dlc <= |f.payload| && data == Built(f.sid, f.kind, To(f.payload), f.dlc, f.cid)
      ensures data == Serialized(f) && (f.dlc <= MAX_PAYLOAD ==> data != [])
    {
    }

    /** The worker's loop, until the sessions have nothing left to send; everything else in them is as before. */
    method TxWorker()
      requires Valid() && AllReadable(Pending())
      modifies this, manager.Objects()
      ensures Valid() && Pending() == [] && manager.GetTable() == Drained(old(manager.GetTable()))
      ensures line == old(line) + SerializeAll(old(Pending()))
    {
      hide Serialized, Pending, PopNext, OnLine, Drained, SessionManager.GetTable;
      ghost var goal := line + SerializeAll(Pending());
      var sent := true;
      while sent
        invariant Valid() && AllReadable(Pending())
        invariant line + SerializeAll(Pending()) == goal
        invariant Drained(manager.GetTable()) == Drained(old(manager.GetTable()))
        invariant !sent ==> Pending() == []
        decreases |Pending()|, sent
      {
        ghost var before := Pending();
        PopKeepsRest(manager.GetTable());
        sent := SendNext();
        if sent {
          assert SerializeAll(before) == Serialized(before[0]) + SerializeAll(Pending());
        }
      }
      NothingPending();
    }
  }
}
