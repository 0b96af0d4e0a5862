/** A clean stream that the firmware does not receive whole. */
module FirmwareLoss {
  import opened Bytes
  import opened Wire
  import opened Crc8
  import opened Scanner
  import opened RoundTrip
  import opened Firmware
  import opened FirmwareRuns

  function Long(): Frame {
    Frame(0x20, 1, 20, 0x7000, seq(20, _ => 0xFF))
  }

  function First(): Frame {
    Frame(0x21, 1, 0, 0x7001, [])
  }

  function Second(): Frame {
    Frame(0x22, 1, 0, 0x7002, [])
  }

  function Empty(): Memory {
    Memory(seq(BUFFER, _ => 0), 0)
  }

  function CutAtFour(): seq<Arrival> {
    [Arrival(Encode(Long()), 0), Arrival(Encode(First()) + Encode(Second())[..4], 0), Arrival(Encode(Second())[4..], 0)]
  }

  lemma LongFrameArrives()
    ensures Empty().Fits() && Received(Empty(), Encode(Long()), 0).len == 0
    ensures Received(Empty(), Encode(Long()), 0).cells[12] == 0xFF
  {
    hide Crc, Lo, Hi, Scan, FirmwareScan, Step;
    var n := Appended(Empty(), Encode(Long()));
    CleanRoundTrip(FIRMWARE, [Long()]);
    OneFrame(Long());
    assert n.View() == Encode(Long()) by { assert Empty().View() == []; assert [] + Encode(Long()) == Encode(Long()); }
    ScanAgreesIff(n.View(), n.Stale(0));
    assert n.cells[12] == Encode(Long())[12] == 0xFF;
  }

  lemma OneFrame(f: Frame)
    ensures EncodeAll([f]) == Encode(f)
  {
    hide Encode;
    EncodeAllCons([f]);
    NothingEncoded([f][1..]);
  }

  /** The second chunk ends four bytes into a frame, and the cell behind them still holds 0xFF. */
  lemma SecondChunkMisread()
    ensures Empty().Fits()
    ensures var m := Received(Empty(), Encode(Long()), 0); var a := CutAtFour()[1];
      !Overflows(m, a) && MisreadAt(m, a)
  {
    hide Crc, Lo, Hi, Scan, Step, Received;
    LongFrameArrives();
    var m := Received(Empty(), Encode(Long()), 0);
    var a := CutAtFour()[1];
    var t := Encode(Second())[..4];
    PartialFrameWaits(FIRMWARE, Second(), 4);
    PrefixOfFrames(FIRMWARE, [First()], t);
    OneFrame(First());
    var n := Appended(m, a.chunk);
    assert n.View() == Encode(First()) + t;
    assert n.Stale(a.beyond) == m.cells[12];
    assert t[0] == SOF;
  }

  /** Three gateway frames, three chunks of at most 64 bytes, no overflow: and not all three are found. */
  lemma CleanStreamLosesAFrame()
    ensures Empty().Fits() && Empty().len == 0 && Metered(CutAtFour())
    ensures AllSendable(GATEWAY, [Long(), First(), Second()])
    ensures Stream(CutAtFour()) == EncodeAll([Long(), First(), Second()])
    ensures RunFrom(Empty(), CutAtFour()).found != EncodeEach([Long(), First(), Second()])
  {
    hide Crc, Lo, Hi, Scan, Step, Received, MisreadAt, RunFrom, EncodeEach, EncodeAll;
    var arrivals, frames := CutAtFour(), [Long(), First(), Second()];
    SecondChunkMisread();
    assert !NeverMisread(Empty(), arrivals) by {
      var m := Received(Empty(), Encode(Long()), 0);
      assert arrivals[1..][0] == arrivals[1];
      assert !NeverMisread(m, arrivals[1..]);
      assert arrivals[0] == Arrival(Encode(Long()), 0) && !Overflows(Empty(), arrivals[0]);
    }
    SameStream();
    CleanDeliveryIff(Empty(), arrivals, frames);
  }

  lemma SameStream()
    ensures Stream(CutAtFour()) == EncodeAll([Long(), First(), Second()])
  {
    hide Encode, Crc, EncodeAll, Stream;
    var arrivals, frames := CutAtFour(), [Long(), First(), Second()];
    StreamCons(arrivals);
    StreamCons(arrivals[1..]);
    StreamCons(arrivals[2..]);
    assert arrivals[1..][1..] == arrivals[2..] && arrivals[2..][1..] == [];
    NoStream();
    EncodeAllCons(frames);
    EncodeAllCons(frames[1..]);
    assert frames[1..][1..] == [Second()];
    OneFrame(Second());
    assert Encode(Second()) == Encode(Second())[..4] + Encode(Second())[4..];
  }

  lemma NoStream()
    ensures Stream([]) == []
  {
  }
}
