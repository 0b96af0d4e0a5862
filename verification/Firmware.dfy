/** The firmware's receiver: an array compacted in place, parsed frame by frame. */
module Firmware {
  import opened Bytes
  import opened Crc8
  import opened Wire
  import opened Scanner

  const BUFFER: nat := 512
  const CHUNK: nat := 64
  const MAX_DLC: nat := FIRMWARE_LIMIT
  const SLOT: nat := 16

  // ----- One position -----

  /**
   * The firmware's decision. Its guard lets a header of four bytes through although it reads a fifth: the high
   * DLC byte is then `stale`, whatever lies behind the received bytes.
   */
  function FirmwareStep(view: seq<byte>, stale: byte): (d: Decision)
    requires view != []
    ensures d.Emit? ==> OVERHEAD <= d.len <= |view|
  {
    if view[0] != SOF then Drop
    else if |view| < 4 then Wait
    else
      var dlc := Le16(view[3], if |view| == 4 then stale else view[4]);
      if dlc > MAX_DLC then Drop
      else if |view| < OVERHEAD + dlc then Wait
      else if view[7 + dlc] != Crc(view[1..7 + dlc]) then Drop
      else Emit(OVERHEAD + dlc)
  }

  function FirmwareScan(view: seq<byte>, stale: byte): Outcome
    decreases |view|
  {
    if view == [] then Outcome([], [])
    else
      match FirmwareStep(view, stale)
      case Wait => Outcome([], view)
      case Drop => FirmwareScan(view[1..], stale)
      case Emit(len) =>
        var o := FirmwareScan(view[len..], stale);
        Outcome([view[..len]] + o.wires, o.rest)
  }

  /** A header cut after its fourth byte whose stale fifth byte makes it look too long. */
  predicate Misread(rest: seq<byte>, stale: byte) {
    |rest| == 4 && rest[0] == SOF && Le16(rest[3], stale) > MAX_DLC
  }

  /** The firmware decides as a receiver with a five-byte guard would, except on a misread header. */
  lemma StepAgreesIff(view: seq<byte>, stale: byte)
    requires view != []
    ensures FirmwareStep(view, stale) == Step(FIRMWARE, view) <==> !Misread(view, stale)
    ensures Misread(view, stale) ==> FirmwareStep(view, stale) == Drop && Step(FIRMWARE, view) == Wait
  {
    hide Crc, Le16;
  }

  /** Three bytes or fewer hold no frame. */
  lemma {:induction false} ShortScan(view: seq<byte>, stale: byte)
    requires |view| < 4
    ensures FirmwareScan(view, stale).wires == []
    ensures |FirmwareScan(view, stale).rest| < 4
    decreases |view|
  {
    hide Crc, Le16;
    if view != [] && FirmwareStep(view, stale) == Drop {
      ShortScan(view[1..], stale);
    }
  }

  /**
   * Exactly when the firmware's parse of one buffer is the intended one: always the same frames, and the same
   * leftover unless that leftover is a header misread through its stale byte, which then loses its SOF.
   */
  lemma {:induction false} ScanAgreesIff(view: seq<byte>, stale: byte)
    ensures var o := Scan(FIRMWARE, view); var p := FirmwareScan(view, stale);
      && p.wires == o.wires
      && (p == o <==> !Misread(o.rest, stale))
      && (Misread(o.rest, stale) ==> |p.rest| < 4)
    decreases |view|
  {
    if view != [] {
      hide Crc, Le16, Step, FirmwareStep, Misread;
      StepAgreesIff(view, stale);
      if Misread(view, stale) {
        MisreadScan(view, stale);
      } else {
        match Step(FIRMWARE, view) {
          case Wait =>
          case Drop => ScanAgreesIff(view[1..], stale);
          case Emit(len) => ScanAgreesIff(view[len..], stale);
        }
      }
    }
  }

  lemma MisreadScan(view: seq<byte>, stale: byte)
    requires Misread(view, stale)
    ensures Scan(FIRMWARE, view) == Outcome([], view)
    ensures FirmwareScan(view, stale).wires == [] && |FirmwareScan(view, stale).rest| < 4
  {
    hide Crc, Le16, Step, FirmwareStep;
    StepAgreesIff(view, stale);
    ShortScan(view[1..], stale);
  }

  lemma {:induction false} FirmwareRestBound(view: seq<byte>, stale: byte)
    ensures |FirmwareScan(view, stale).rest| < OVERHEAD + MAX_DLC
    ensures |FirmwareScan(view, stale).rest| <= |view|
  {
    hide Scan, FirmwareScan, Misread;
    ScanAgreesIff(view, stale);
    RestBound(FIRMWARE, view);
    RestIsSuffix(FIRMWARE, view);
    FirmwareRestShorter(view, stale);
  }

  lemma {:induction false} FirmwareRestShorter(view: seq<byte>, stale: byte)
    ensures var rest := FirmwareScan(view, stale).rest;
      |rest| <= |view| && rest == view[|view| - |rest|..]
    decreases |view|
  {
    hide FirmwareStep;
    if view != [] {
      match FirmwareStep(view, stale) {
        case Wait =>
        case Drop => FirmwareRestShorter(view[1..], stale);
        case Emit(len) => FirmwareRestShorter(view[len..], stale);
      }
    }
  }

  // ----- The receive buffer -----

  /** The array and how much of it is filled; what lies behind stays there. */
  datatype Memory = Memory(cells: seq<byte>, len: nat) {
    predicate Fits() {
      |cells| == BUFFER && len <= BUFFER
    }

    function View(): seq<byte>
      requires Fits()
    {
      cells[..len]
    }

    /** The byte behind the filled part: an old cell, or the one past the array. */
    function Stale(beyond: byte): byte
      requires Fits()
    {
      if len < BUFFER then cells[len] else beyond
    }
  }

  /** A parse of the buffer: the leftover moves to the front, the cells behind it keep what they held. */
  function Parsed(m: Memory, beyond: byte): (r: Memory)
    requires m.Fits()
    ensures r.Fits() && r.len < OVERHEAD + MAX_DLC
  {
    FirmwareRestBound(m.View(), m.Stale(beyond));
    var rest := FirmwareScan(m.View(), m.Stale(beyond)).rest;
    Memory(rest + m.cells[|rest|..], |rest|)
  }

  function Appended(m: Memory, chunk: seq<byte>): (r: Memory)
    requires m.Fits() && m.len + |chunk| <= BUFFER
    ensures r.Fits() && r.View() == m.View() + chunk
  {
    var r := Memory(m.View() + chunk + m.cells[m.len + |chunk|..], m.len + |chunk|);
    assert r.cells[..r.len] == m.View() + chunk;
    r
  }

  /** A chunk from the stream buffer: parsed behind what is there, or, if it does not fit, everything is dropped. */
  function Received(m: Memory, chunk: seq<byte>, beyond: byte): (r: Memory)
    requires m.Fits()
    ensures r.Fits() && r.len < OVERHEAD + MAX_DLC
  {
    if m.len + |chunk| > BUFFER then m.(len := 0) else Parsed(Appended(m, chunk), beyond)
  }

  /** The frames found when the chunk arrives. */
  function Found(m: Memory, chunk: seq<byte>, beyond: byte): seq<seq<byte>>
    requires m.Fits()
  {
    if m.len + |chunk| > BUFFER then []
    else
      var a := Appended(m, chunk);
      FirmwareScan(a.View(), a.Stale(beyond)).wires
  }

  // ----- Handling a frame -----

  /** The one slot through which frames reach the worker tasks. */
  datatype Slot = Slot(sid: byte, kind: byte, dlc: u16, payload: seq<byte>, cid: u16)

  type Packet = p: Slot | |p.payload| == SLOT witness Slot(0, 0, 0, seq(SLOT, _ => 0), 0)

  datatype Target = Nobody | Rpc | Diag

  predicate ValidDlc(sid: byte, dlc: u16) {
    if 0x20 <= sid <= 0x26 then true
    else if sid == 0x10 || sid == 0x11 then dlc == 1
    else if sid == 0x13 then dlc == 2
    else if sid == 0x12 then dlc == 5
    else false
  }

  function TargetOf(sid: byte): Target {
    if 0x10 <= sid <= 0x1F then Rpc else if 0x20 <= sid <= 0x2F then Diag else Nobody
  }

  /** The slot after a frame: a short payload overwrites only the front of the old one. */
  function Stored(p: Packet, f: Frame): Packet
    requires f.Consistent()
  {
    var n := if f.dlc > SLOT then SLOT else f.dlc;
    Slot(f.sid, f.kind, f.dlc, f.payload[..n] + p.payload[n..], f.cid)
  }

  function Handled(p: Packet, f: Frame): Packet
    requires f.Consistent()
  {
    if ValidDlc(f.sid, f.dlc) then Stored(p, f) else p
  }

  function HandledAll(p: Packet, frames: seq<Frame>): Packet
    requires forall i :: 0 <= i < |frames| ==> frames[i].Consistent()
  {
    if frames == [] then p
    else
      var n := |frames| - 1;
      Handled(HandledAll(p, frames[..n]), frames[n])
  }

  /** The slot has sixteen payload bytes, and a shorter payload leaves the bytes behind it as they were. */
  lemma StoredFields(p: Packet, f: Frame)
    requires f.Consistent()
    ensures var q := Stored(p, f);
      && q.sid == f.sid && q.kind == f.kind && q.dlc == f.dlc && q.cid == f.cid && |q.payload| == 16
      && forall i :: 0 <= i < 16 ==> q.payload[i] == if i < f.dlc then f.payload[i] else p.payload[i]
  {
  }
}
