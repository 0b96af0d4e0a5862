/** The firmware's receive task as an object: an array that each parse compacts in place. */
module FirmwareReceiver {
  import opened Bytes
  import opened Crc8
  import opened Wire
  import opened Scanner
  import opened RoundTrip
  import opened Firmware
  import opened FirmwareRuns

  datatype ParseResult = PARSE_OK | PARSE_INCOMPLETE | PARSE_INVALID

  class Receiver {
    const rxBuf: array<byte>
    var rxLen: nat
    var parsedPacket: Packet
    ghost var handled: seq<Frame>  // every frame passed to HandleFrame

    ghost predicate Valid()
      reads this, rxBuf
    {
      rxBuf.Length == BUFFER && rxLen < OVERHEAD + MAX_DLC
    }

    ghost function State(): Memory
      reads this, rxBuf
    {
      Memory(rxBuf[..], rxLen)
    }

    constructor ()
      ensures Valid() && fresh(rxBuf) && rxLen == 0 && handled == []
    {
      rxBuf := new byte[BUFFER];
      rxLen := 0;
      parsedPacket := Slot(0, 0, 0, seq(SLOT, _ => 0), 0);
      handled := [];
    }

    /** A frame for a known service and of the right length goes into the slot; any other leaves it alone. */
    method HandleFrame(f: Frame)
      requires f.Consistent()
      modifies `parsedPacket, `handled
      ensures handled == old(handled) + [f]
      ensures parsedPacket == Handled(old(parsedPacket), f)
    {
      var isValidDlc := false;
      if 0x20 <= f.sid <= 0x26 {
        isValidDlc := true;
      } else if f.sid == 0x10 || f.sid == 0x11 {
        if f.dlc == 1 { isValidDlc := true; }
      } else if f.sid == 0x13 {
        if f.dlc == 2 { isValidDlc := true; }
      } else if f.sid == 0x12 {
        if f.dlc == 5 { isValidDlc := true; }
      }
      if isValidDlc {
        var copyLen := if f.dlc > SLOT then SLOT else f.dlc;
        var payload := parsedPacket.payload;
        if f.dlc > 0 {
          payload := f.payload[..copyLen] + payload[copyLen..];
        }
        parsedPacket := Slot(f.sid, f.kind, f.dlc, payload, f.cid);
      }
      handled := handled + [f];
    }

    /**
     * The decision at `offset`, with `bufLen` bytes to go; `beyond` is the byte behind the array. A frame that
     * passes is handled before the method returns.
     */
    method ParseOneFrame(offset: nat, bufLen: nat, beyond: byte) returns (r: ParseResult, consumed: nat)
      requires 0 < bufLen && offset + bufLen <= rxBuf.Length
      modifies `parsedPacket, `handled
      ensures var view := rxBuf[offset..offset + bufLen];
        match FirmwareStep(view, if offset + bufLen < rxBuf.Length then rxBuf[offset + bufLen] else beyond)
        case Wait => r == PARSE_INCOMPLETE && consumed == 0 && handled == old(handled) && parsedPacket == old(parsedPacket)
        case Drop => r == PARSE_INVALID && consumed == 1 && handled == old(handled) && parsedPacket == old(parsedPacket)
        case Emit(len) =>
          r == PARSE_OK && consumed == len && Decode(view[..len]).Consistent() &&
          handled == old(handled) + [Decode(view[..len])] &&
          parsedPacket == Handled(old(parsedPacket), Decode(view[..len]))
    {
      hide Crc, Le16, Decode, Handled;
      ghost var view := rxBuf[offset..offset + bufLen];
      if rxBuf[offset] != SOF {
        return PARSE_INVALID, 1;
      }
      if bufLen < 4 {
        return PARSE_INCOMPLETE, 0;
      }
      var high := if offset + 4 < rxBuf.Length then rxBuf[offset + 4] else beyond;
      var dlc := Le16(rxBuf[offset + 3], high);
      if dlc > MAX_DLC {
        return PARSE_INVALID, 1;
      }
      var frameLen := OVERHEAD + dlc;
      if bufLen < frameLen {
        return PARSE_INCOMPLETE, 0;
      }
      var expected := CalcCrc8(rxBuf[offset..offset + bufLen], 1, 6 + dlc);
      assert expected == Crc(view[1..7 + dlc]);
      var got := rxBuf[offset + frameLen - 1];
      assert got == view[7 + dlc];
      if expected != got {
        return PARSE_INVALID, 1;
      }
      TakeFrame(offset, dlc);
      SliceOfSlice(rxBuf[..], offset, offset + bufLen, 0, frameLen);
      assert view[..frameLen] == rxBuf[..][offset..offset + frameLen];
      return PARSE_OK, frameLen;
    }

    /** The frame at `offset`, which has passed the test, is handled. */
    method TakeFrame(offset: nat, dlc: u16)
      requires offset + OVERHEAD + dlc <= rxBuf.Length && dlc == Le16(rxBuf[offset + 3], rxBuf[offset + 4])
      modifies `parsedPacket, `handled
      ensures var f := Decode(rxBuf[..][offset..offset + OVERHEAD + dlc]);
        f.Consistent() && handled == old(handled) + [f] && parsedPacket == Handled(old(parsedPacket), f)
    {
      hide Le16, Handled, Decode;
      var cid := Le16(rxBuf[offset + 5 + dlc], rxBuf[offset + 6 + dlc]);
      var f := Frame(rxBuf[offset + 1], rxBuf[offset + 2], dlc, cid, rxBuf[offset + 5..offset + 5 + dlc]);
      DecodeAt(rxBuf[..], offset, OVERHEAD + dlc);
      HandleFrame(f);
    }

    /** The parsing loop: every decidable frame is handled, and `offset` is where the first undecided one begins. */
    method ParseLoop(beyond: byte) returns (offset: nat)
      requires rxBuf.Length == BUFFER && rxLen <= BUFFER
      modifies `parsedPacket, `handled
      ensures offset <= rxLen
      ensures var o := FirmwareScan(State().View(), State().Stale(beyond));
        && AllCarryFrames(o.wires) && o.rest == rxBuf[offset..rxLen]
        && handled == old(handled) + DecodeEach(o.wires)
        && parsedPacket == HandledAll(old(parsedPacket), DecodeEach(o.wires))
    {
      hide FirmwareScan, FirmwareStep, Along, AllCarryFrames, Handled, Decode, DecodeEach, HandledAll;
      ghost var start, stale := State().View(), State().Stale(beyond);
      ghost var log := Log([], parsedPacket, handled);
      offset := 0;
      assert start == rxBuf[offset..rxLen];
      AlongStart(start, stale, parsedPacket, handled);
      while offset < rxLen
        invariant 0 <= offset <= rxLen
        invariant log.slot == parsedPacket && log.handled == handled
        invariant Along(start, stale, old(parsedPacket), old(handled), rxBuf[offset..rxLen], log)
        decreases rxLen - offset
      {
        ghost var view := rxBuf[offset..rxLen];
        var r, consumed := ParseOneFrame(offset, rxLen - offset, beyond);
        if r == PARSE_INCOMPLETE {
          break;
        }
        SliceOfSlice(rxBuf[..], offset, rxLen, consumed, rxLen - offset);
        assert rxBuf[offset + consumed..rxLen] == view[consumed..];
        log := AlongStep(start, stale, old(parsedPacket), old(handled), view, log);
        offset := offset + consumed;
      }
      AlongEnd(start, stale, old(parsedPacket), old(handled), rxBuf[offset..rxLen], log);
    }

    /** Everything decidable is handled, and the undecided bytes move to the front of the array. */
    method ParsePacket(beyond: byte)
      requires rxBuf.Length == BUFFER && rxLen <= BUFFER
      modifies this, rxBuf
      ensures Valid() && State() == Parsed(old(State()), beyond)
      ensures var wires := FirmwareScan(old(State().View()), old(State().Stale(beyond))).wires;
        && AllCarryFrames(wires)
        && handled == old(handled) + DecodeEach(wires)
        && parsedPacket == HandledAll(old(parsedPacket), DecodeEach(wires))
    {
      hide FirmwareScan, AllCarryFrames, HandledAll, DecodeEach;
      var offset := ParseLoop(beyond);
      FirmwareRestBound(State().View(), State().Stale(beyond));
      if offset > 0 {
        Compact(offset);
      }
      assert rxBuf[..] == old(rxBuf[..])[offset..old(rxLen)] + old(rxBuf[..])[old(rxLen) - offset..];
    }

    /** The unread bytes move to the front; the cells behind them keep what they held. */
    method Compact(offset: nat)
      requires offset <= rxLen <= rxBuf.Length
      modifies `rxLen, rxBuf
      ensures rxLen == old(rxLen) - offset
      ensures rxBuf[..] == old(rxBuf[..])[offset..old(rxLen)] + old(rxBuf[..])[rxLen..]
    {
      forall i | 0 <= i < rxLen - offset {
        rxBuf[i] := rxBuf[offset + i];
      }
      rxLen := rxLen - offset;
    }

    /** One turn of the receive task: the chunk is appended and parsed, or, if it does not fit, all is dropped. */
    method HandleChunk(temp: seq<byte>, beyond: byte)
      requires Valid() && 0 < |temp| <= CHUNK
      modifies this, rxBuf
      ensures Valid() && State() == Received(old(State()), temp, beyond)
      ensures old(rxLen) + |temp| > 512 ==> rxLen == 0 && rxBuf[..] == old(rxBuf[..]) && handled == old(handled)
      ensures var wires := Found(old(State()), temp, beyond);
        && AllCarryFrames(wires)
        && handled == old(handled) + DecodeEach(wires)
        && parsedPacket == HandledAll(old(parsedPacket), DecodeEach(wires))
    {
      hide FirmwareScan, Parsed, Along;
      if rxLen + |temp| > rxBuf.Length {
        rxLen := 0;
        NoFrames(parsedPacket);
        assert handled + [] == handled;
        return;
      }
      forall i | 0 <= i < |temp| {
        rxBuf[rxLen + i] := temp[i];
      }
      rxLen := rxLen + |temp|;
      assert State() == Appended(old(State()), temp);
      ParsePacket(beyond);
    }

    /** The receive task over any run of arrivals. */
    method ReceiveTask(arrivals: seq<Arrival>)
      requires Valid() && forall i :: 0 <= i < |arrivals| ==> 0 < |arrivals[i].chunk| <= CHUNK
      modifies this, rxBuf
      ensures Valid()
      ensures var r := RunFrom(old(State()), arrivals);
        && State() == r.memory
        && AllCarryFrames(r.found)
        && handled == old(handled) + DecodeEach(r.found)
        && parsedPacket == HandledAll(old(parsedPacket), DecodeEach(r.found))
    {
      hide FirmwareScan, Received, Found, Decode, HandledAll, RunFrom;
      ghost var start, found := State(), [];
      NoFrames(parsedPacket);
      assert handled + [] == handled;
      assert arrivals[0..] == arrivals;
      assert [] + RunFrom(start, arrivals).found == RunFrom(start, arrivals).found;
      for i := 0 to |arrivals|
        invariant Valid() && AllCarryFrames(found) && handled == old(handled) + DecodeEach(found)
        invariant parsedPacket == HandledAll(old(parsedPacket), DecodeEach(found))
        invariant var r := RunFrom(State(), arrivals[i..]);
          RunFrom(start, arrivals) == Result(r.memory, found + r.found)
      {
        ghost var before := State();
        RunFromCons(before, arrivals[i..]);
        assert arrivals[i..][1..] == arrivals[i + 1..];
        HandleChunk(arrivals[i].chunk, arrivals[i].beyond);
        ghost var more := Found(before, arrivals[i].chunk, arrivals[i].beyond);
        Associated(found, more, RunFrom(State(), arrivals[i + 1..]).found);
        Associated(old(handled), DecodeEach(found), DecodeEach(more));
        CarryFramesAppend(found, more);
        HandledInTwo(old(parsedPacket), DecodeEach(found), DecodeEach(more));
        found := found + more;
      }
      assert arrivals[|arrivals|..] == [];
      NoArrivals(State(), []);
      assert found + [] == found;
    }
  }

  lemma {:induction false} DecodeAt(cells: seq<byte>, offset: nat, len: nat)
    requires OVERHEAD <= len && offset + len <= |cells| && len == OVERHEAD + Le16(cells[offset + 3], cells[offset + 4])
    ensures var f := Decode(cells[offset..offset + len]);
      f.Consistent() &&
      f == Frame(cells[offset + 1], cells[offset + 2], len - OVERHEAD,
                 Le16(cells[offset + len - 3], cells[offset + len - 2]), cells[offset + HEADER..offset + len - 3])
  {
    hide Le16;
    SliceOfSlice(cells, offset, offset + len, HEADER, len - 3);
  }

  lemma NoFrames(p: Packet)
    ensures AllCarryFrames([]) && DecodeEach([]) == [] && HandledAll(p, []) == p
  {
  }

  lemma {:induction false} HandledInTwo(p: Packet, a: seq<Frame>, b: seq<Frame>)
    requires forall i :: 0 <= i < |a| ==> a[i].Consistent()
    requires forall i :: 0 <= i < |b| ==> b[i].Consistent()
    ensures HandledAll(p, a + b) == HandledAll(HandledAll(p, a), b)
    decreases |b|
  {
    hide Handled;
    if b == [] {
      assert a + b == a;
    } else {
      var n := |b| - 1;
      HandledInTwo(p, a, b[..n]);
      assert (a + b)[..|a| + n] == a + b[..n];
    }
  }

  lemma CarryFramesAppend(a: seq<seq<byte>>, b: seq<seq<byte>>)
    requires AllCarryFrames(a) && AllCarryFrames(b)
    ensures AllCarryFrames(a + b) && DecodeEach(a + b) == DecodeEach(a) + DecodeEach(b)
  {
  }

  predicate AllCarryFrames(wires: seq<seq<byte>>) {
    forall i :: 0 <= i < |wires| ==> |wires[i]| >= OVERHEAD && Decode(wires[i]).Consistent()
  }

  /** The slices taken so far, and what handling them has done to the slot and the record. */
  datatype Log = Log(wires: seq<seq<byte>>, slot: Packet, handled: seq<Frame>)

  /** A parse of `start` has reached `view`: the slices in the log, then those of `view`, are those of `start`. */
  predicate Along(start: seq<byte>, stale: byte, slot: Packet, handled: seq<Frame>, view: seq<byte>, log: Log) {
    && AllCarryFrames(log.wires)
    && (var o := FirmwareScan(view, stale); FirmwareScan(start, stale) == Outcome(log.wires + o.wires, o.rest))
    && log.handled == handled + DecodeEach(log.wires)
    && log.slot == HandledAll(slot, DecodeEach(log.wires))
  }

  lemma AlongStart(start: seq<byte>, stale: byte, slot: Packet, handled: seq<Frame>)
    ensures Along(start, stale, slot, handled, start, Log([], slot, handled))
  {
  }

  /** One decision other than waiting, and the log after it. */
  lemma AlongStep(start: seq<byte>, stale: byte, slot: Packet, handled: seq<Frame>, view: seq<byte>, log: Log)
    returns (next: Log)
    requires view != [] && Along(start, stale, slot, handled, view, log) && FirmwareStep(view, stale) != Wait
    ensures match FirmwareStep(view, stale)
      case Wait => true
      case Drop => next == log && Along(start, stale, slot, handled, view[1..], next)
      case Emit(len) => Decode(view[..len]).Consistent() ==>
        next == Log(log.wires + [view[..len]], Handled(log.slot, Decode(view[..len])),
                    log.handled + [Decode(view[..len])]) &&
        Along(start, stale, slot, handled, view[len..], next)
  {
    hide FirmwareStep, Handled, Decode;
    next := log;
    match FirmwareStep(view, stale) {
      case Drop =>
        DroppedScan(view, stale);
      case Emit(len) =>
        var w := view[..len];
        EmittedScan(view, stale, len);
        if Decode(w).Consistent() {
          hide FirmwareScan;
          next := Log(log.wires + [w], Handled(log.slot, Decode(w)), log.handled + [Decode(w)]);
          assert DecodeEach(log.wires + [w]) == DecodeEach(log.wires) + [Decode(w)];
          assert (DecodeEach(log.wires) + [Decode(w)])[..|log.wires|] == DecodeEach(log.wires);
          var o := FirmwareScan(view[len..], stale);
          assert log.wires + ([w] + o.wires) == log.wires + [w] + o.wires;
        }
    }
  }

  lemma DroppedScan(view: seq<byte>, stale: byte)
    requires view != [] && FirmwareStep(view, stale) == Drop
    ensures FirmwareScan(view, stale) == FirmwareScan(view[1..], stale)
  {
  }

  lemma EmittedScan(view: seq<byte>, stale: byte, len: nat)
    requires view != [] && FirmwareStep(view, stale) == Emit(len)
    ensures var o := FirmwareScan(view[len..], stale);
      FirmwareScan(view, stale) == Outcome([view[..len]] + o.wires, o.rest)
  {
  }

  lemma AlongEnd(start: seq<byte>, stale: byte, slot: Packet, handled: seq<Frame>, view: seq<byte>, log: Log)
    requires Along(start, stale, slot, handled, view, log)
    requires view == [] || FirmwareStep(view, stale) == Wait
    ensures AllCarryFrames(log.wires) && FirmwareScan(start, stale) == Outcome(log.wires, view)
    ensures log.handled == handled + DecodeEach(log.wires) && log.slot == HandledAll(slot, DecodeEach(log.wires))
  {
  }
}
