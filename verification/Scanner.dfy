/** Finding frames in a byte stream: the decision at one position, and the scan that repeats it. */
module Scanner {
  import opened Bytes
  import opened Crc8
  import opened Wire

  /**
   * How a receiver reads a stream: the largest DLC it takes, how many bytes it wants before it looks at a
   * header, whether it discards a byte that is not SOF before it has that many, and whether it tests the CRC.
   */
  datatype Settings = Settings(maxDlc: nat, need: nat, eager: bool, checked: bool)

  type Receiver = r: Settings | HEADER <= r.need <= OVERHEAD witness Settings(0, 5, false, false)

  const GATEWAY: Receiver := Settings(GATEWAY_LIMIT, HEADER, false, true)
  const FIRMWARE: Receiver := Settings(FIRMWARE_LIMIT, HEADER, true, true)
  const CLIENT: Receiver := Settings(CLIENT_LIMIT, OVERHEAD, true, false)

  datatype Decision = Wait | Drop | Emit(len: nat)

  /** What a receiver does with the unread bytes: wait for more, drop one byte, or take a frame. */
  function Step(r: Receiver, buf: seq<byte>): (d: Decision)
    ensures d.Drop? ==> buf != []
    ensures d.Emit? ==> OVERHEAD <= d.len <= |buf|
  {
    if r.eager && buf != [] && buf[0] != SOF then Drop
    else if |buf| < r.need then Wait
    else if buf[0] != SOF then Drop
    else if DlcOf(buf) > r.maxDlc then Drop
    else
      var len := OVERHEAD + DlcOf(buf);
      if |buf| < len then Wait
      else if r.checked && buf[len - 1] != Crc(buf[1..len - 1]) then Drop
      else Emit(len)
  }

  /** The slices taken as frames, and the bytes still undecided. */
  datatype Outcome = Outcome(wires: seq<seq<byte>>, rest: seq<byte>)

  function Scan(r: Receiver, buf: seq<byte>): Outcome
    decreases |buf|
  {
    match Step(r, buf)
    case Wait => Outcome([], buf)
    case Drop => Scan(r, buf[1..])
    case Emit(len) =>
      var o := Scan(r, buf[len..]);
      Outcome([buf[..len]] + o.wires, o.rest)
  }

  /** A receiver that holds `held` is given the chunks one by one. */
  function Feed(r: Receiver, held: seq<byte>, chunks: seq<seq<byte>>): Outcome
    decreases |chunks|
  {
    if chunks == [] then Outcome([], held)
    else
      var o := Scan(r, held + chunks[0]);
      var p := Feed(r, o.rest, chunks[1..]);
      Outcome(o.wires + p.wires, p.rest)
  }

  // ----- Chunk boundaries do not matter -----

  /** A decision other than waiting is final: later bytes do not change it. */
  lemma StepStable(r: Receiver, a: seq<byte>, b: seq<byte>)
    requires Step(r, a) != Wait
    ensures Step(r, a + b) == Step(r, a)
  {
    hide Crc, Le16;
    if |a| >= r.need && a[0] == SOF {
      var len := OVERHEAD + DlcOf(a);
      if len <= |a| {
        assert (a + b)[1..len - 1] == a[1..len - 1];
      }
    }
  }

  lemma ScanEmit(r: Receiver, buf: seq<byte>, len: nat)
    requires Step(r, buf) == Emit(len)
    ensures Scan(r, buf) == Outcome([buf[..len]] + Scan(r, buf[len..]).wires, Scan(r, buf[len..]).rest)
  {
  }

  lemma ScanDrop(r: Receiver, buf: seq<byte>)
    requires Step(r, buf) == Drop
    ensures Scan(r, buf) == Scan(r, buf[1..])
  {
  }

  lemma ScanWait(r: Receiver, buf: seq<byte>)
    requires Step(r, buf) == Wait
    ensures Scan(r, buf) == Outcome([], buf)
  {
  }

  /** Scanning in two parts is scanning at once. */
  lemma {:induction false} ScanSplit(r: Receiver, a: seq<byte>, b: seq<byte>)
    ensures var o := Scan(r, a); var p := Scan(r, o.rest + b);
      Scan(r, a + b) == Outcome(o.wires + p.wires, p.rest)
    decreases |a|
  {
    hide Step, Scan;
    match Step(r, a) {
      case Wait =>
        ScanWait(r, a);
      case Drop =>
        StepStable(r, a, b);
        ScanDrop(r, a);
        ScanDrop(r, a + b);
        assert (a + b)[1..] == a[1..] + b;
        ScanSplit(r, a[1..], b);
      case Emit(len) =>
        StepStable(r, a, b);
        ScanEmit(r, a, len);
        ScanEmit(r, a + b, len);
        assert (a + b)[len..] == a[len..] + b && (a + b)[..len] == a[..len];
        ScanSplit(r, a[len..], b);
        var o := Scan(r, a[len..]);
        var p := Scan(r, o.rest + b);
        assert [a[..len]] + (o.wires + p.wires) == ([a[..len]] + o.wires) + p.wires;
    }
  }

  lemma {:induction false} RestWaits(r: Receiver, buf: seq<byte>)
    ensures Step(r, Scan(r, buf).rest) == Wait
    decreases |buf|
  {
    hide Step;
    match Step(r, buf) {
      case Wait =>
      case Drop => RestWaits(r, buf[1..]);
      case Emit(len) => RestWaits(r, buf[len..]);
    }
  }

  /** However the stream is cut, the receiver takes the same frames and keeps the same bytes. */
  lemma {:induction false} ChunkIndependence(r: Receiver, held: seq<byte>, chunks: seq<seq<byte>>)
    requires Step(r, held) == Wait
    ensures Feed(r, held, chunks) == Scan(r, held + Flatten(chunks))
    decreases |chunks|
  {
    hide Step, Scan;
    if chunks == [] {
      assert held + Flatten(chunks) == held;
      ScanWait(r, held);
    } else {
      var o := Scan(r, held + chunks[0]);
      RestWaits(r, held + chunks[0]);
      ChunkIndependence(r, o.rest, chunks[1..]);
      ScanSplit(r, held + chunks[0], Flatten(chunks[1..]));
      assert held + Flatten(chunks) == held + chunks[0] + Flatten(chunks[1..]);
    }
  }

  // ----- What stays in the buffer -----

  lemma WaitBound(r: Receiver, buf: seq<byte>)
    requires Step(r, buf) == Wait
    ensures |buf| < OVERHEAD + r.maxDlc
  {
  }

  lemma {:induction false} RestIsSuffix(r: Receiver, buf: seq<byte>)
    ensures var rest := Scan(r, buf).rest; |rest| <= |buf| && rest == buf[|buf| - |rest|..]
    decreases |buf|
  {
    hide Step;
    match Step(r, buf) {
      case Wait =>
      case Drop => RestIsSuffix(r, buf[1..]);
      case Emit(len) => RestIsSuffix(r, buf[len..]);
    }
  }

  /** Every position is decided once one longest frame's worth of bytes has arrived from it on. */
  lemma RestBound(r: Receiver, buf: seq<byte>)
    ensures |Scan(r, buf).rest| < OVERHEAD + r.maxDlc
  {
    RestWaits(r, buf);
    WaitBound(r, Scan(r, buf).rest);
  }

  // ----- What the decision means, without the code -----

  predicate StartsFrame(r: Receiver, s: seq<byte>, n: nat) {
    n <= |s| && IsWire(s[..n], r.maxDlc, r.checked)
  }

  /** No frame begins with these bytes, whatever follows them. */
  ghost predicate NeverFrame(r: Receiver, s: seq<byte>) {
    forall more: seq<byte>, n: nat :: !StartsFrame(r, s + more, n)
  }

  /** The receiver has looked at the first of these bytes. */
  predicate Examined(r: Receiver, s: seq<byte>) {
    |s| >= r.need || (r.eager && s != [] && s[0] != SOF)
  }

  lemma EmitIff(r: Receiver, s: seq<byte>, n: nat)
    ensures Step(r, s) == Emit(n) <==> StartsFrame(r, s, n)
  {
    hide Crc, Le16;
    if n <= |s| && n >= OVERHEAD {
      SliceOfPrefix(s, n, 1, n - 1);
    }
  }

  lemma DropMeansNever(r: Receiver, s: seq<byte>)
    requires Step(r, s) == Drop
    ensures Examined(r, s) && NeverFrame(r, s)
  {
    hide Crc, Le16;
    forall more: seq<byte>, n: nat ensures !StartsFrame(r, s + more, n) {
      StepStable(r, s, more);
      EmitIff(r, s + more, n);
    }
  }

  /** The smallest completion of a header that announces an acceptable length. */
  function Completion(s: seq<byte>): (more: seq<byte>)
    requires |s| >= HEADER && |s| < OVERHEAD + DlcOf(s)
  {
    var padded := s + seq(OVERHEAD + DlcOf(s) - 1 - |s|, _ => 0);
    padded[|s|..] + [Crc(padded[1..])]
  }

  lemma WaitMeansPossible(r: Receiver, s: seq<byte>)
    requires Step(r, s) == Wait && |s| >= r.need
    ensures StartsFrame(r, s + Completion(s), OVERHEAD + DlcOf(s))
  {
    hide Crc, Le16;
    var n := OVERHEAD + DlcOf(s);
    var padded := s + seq(n - 1 - |s|, _ => 0);
    var w := s + Completion(s);
    assert padded[..|s|] == s;
    assert w[..|s|] == padded[..|s|] && w[|s|..n - 1] == padded[|s|..];
    assert w == padded + [Crc(padded[1..])];
    assert w[..n] == w && w[1..n - 1] == padded[1..];
  }

  /** The receiver drops a byte exactly when it has looked at it and no frame can ever begin there. */
  lemma DropIff(r: Receiver, s: seq<byte>)
    ensures Step(r, s) == Drop <==> Examined(r, s) && NeverFrame(r, s)
  {
    match Step(r, s) {
      case Drop => DropMeansNever(r, s);
      case Emit(n) =>
        EmitIff(r, s, n);
        assert s + [] == s;
        assert StartsFrame(r, s + [], n);
      case Wait =>
        if Examined(r, s) {
          WaitMeansPossible(r, s);
        }
    }
  }

  // ----- The three receivers, in figures -----

  /** The length a header announces. */
  function Announced(s: seq<byte>): nat
    requires |s| >= 5
  {
    s[3] as int + 256 * (s[4] as int)
  }

  /** The gateway looks at a header from five bytes on, takes up to 256 payload bytes, and tests the CRC. */
  lemma GatewayDecides(s: seq<byte>, n: nat)
    ensures Step(GATEWAY, s) == Wait <==>
      (|s| < 5 || (s[0] == 0xAA && Announced(s) <= 256 && |s| < 8 + Announced(s)))
    ensures Step(GATEWAY, s) == Emit(n) <==>
      && |s| >= 5 && s[0] == 0xAA && Announced(s) <= 256 && n == 8 + Announced(s) <= |s|
      && s[n - 1] == Crc(s[1..n - 1])
  {
    hide Crc;
  }

  /** The firmware's receiver was meant to do the same for up to 500 bytes, and drops a byte that is not SOF at once. */
  lemma FirmwareWaits(s: seq<byte>)
    ensures Step(FIRMWARE, s) == Wait <==>
      (s == [] || (s[0] == 0xAA && (|s| < 5 || (Announced(s) <= 500 && |s| < 8 + Announced(s)))))
  {
    hide Crc;
  }

  lemma FirmwareTakes(s: seq<byte>, n: nat)
    ensures Step(FIRMWARE, s) == Emit(n) <==>
      && |s| >= 5 && s[0] == 0xAA && Announced(s) <= 500 && n == 8 + Announced(s) <= |s|
      && s[n - 1] == Crc(s[1..n - 1])
  {
    hide Crc;
  }

  /** The client wants eight bytes before it looks, takes up to 4096 payload bytes, and tests no CRC. */
  lemma ClientDecides(s: seq<byte>, n: nat)
    ensures Step(CLIENT, s) == Wait <==>
      (s == [] || (s[0] == 0xAA && (|s| < 8 || (Announced(s) <= 4096 && |s| < 8 + Announced(s)))))
    ensures Step(CLIENT, s) == Emit(n) <==>
      (|s| >= 8 && s[0] == 0xAA && Announced(s) <= 4096 && n == 8 + Announced(s) <= |s|)
  {
    hide Crc;
  }

  /** What the buffers hold at most between two parses. */
  lemma HeldAtMost(s: seq<byte>)
    ensures |Scan(GATEWAY, s).rest| <= 263 && |Scan(FIRMWARE, s).rest| <= 507
  {
    hide Scan;
    RestBound(GATEWAY, s);
    RestBound(FIRMWARE, s);
  }
}
