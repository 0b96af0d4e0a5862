/** Receiving over TLS: frames read field by field, and the registration frame that opens a connection. */
module TlsReceiver {
  import opened Bytes
  import opened Wire
  import opened Scanner
  import opened RoundTrip
  import opened Encoder
  import opened Routing
  import opened Sessions
  import Limiter
  import TlsSender

  const REGISTER_SID: byte := 0x30

  // ----- What is in the stream -----

  /** The frame at the front of a client's bytes, if it is complete and not over-long; SOF and CRC are not looked at. */
  predicate HasRequest(s: seq<byte>) {
    |s| >= HEADER && DlcOf(s) <= MAX_PAYLOAD && |s| >= OVERHEAD + DlcOf(s)
  }

  function Requests(s: seq<byte>): seq<Frame>
    decreases |s|
  {
    if !HasRequest(s) then []
    else
      var n := OVERHEAD + DlcOf(s);
      [Decode(s[..n])] + Requests(s[n..])
  }

  lemma RequestsSendable(s: seq<byte>)
    requires HasRequest(s)
    ensures Sendable(GATEWAY, Decode(s[..OVERHEAD + DlcOf(s)]))
  {
    hide Le16;
  }

  /** Whatever bytes a client sends, every frame read from them has the announced length, and one the encoder takes. */
  lemma {:induction false} EveryRequestSendable(s: seq<byte>)
    ensures AllSendable(GATEWAY, Requests(s))
    decreases |s|
  {
    if HasRequest(s) {
      hide HasRequest, Decode, DlcOf, Sendable;
      RequestsSendable(s);
      EveryRequestSendable(s[OVERHEAD + DlcOf(s)..]);
    }
  }

  function ForwardAll(t: Table, cid: u16, frames: seq<Frame>): Table {
    if frames == [] then t else Forward(ForwardAll(t, cid, frames[..|frames| - 1]), cid, frames[|frames| - 1])
  }

  /** The client's CID and the length of its registration frame. */
  function Registration(s: seq<byte>): Option<(u16, nat)> {
    if |s| >= HEADER && s[0] == SOF && s[1] == REGISTER_SID && |s| >= OVERHEAD + DlcOf(s) then
      var n := OVERHEAD + DlcOf(s);
      Some((Le16(s[n - 3], s[n - 2]) / 16, n))
    else None
  }

  // ----- What a sequence of reads makes of it -----

  function Least(a: int, b: int): int {
    if a < b then a else b
  }

  /** The bytes still to come, and what each further read will at most return; a read of nothing has failed. */
  datatype Input = Input(pending: seq<byte>, script: seq<int>)

  /** Reading on until `len` bytes are there. */
  function Take(i: Input, len: nat): (r: Option<Input>)
    ensures r.Some? ==> len <= |i.pending| && r.value.pending == i.pending[len..]
    decreases len
  {
    if len == 0 then Some(i)
    else if i.script == [] || i.script[0] <= 0 || i.pending == [] then None
    else
      var n := Least(i.script[0], Least(len, |i.pending|));
      Take(Input(i.pending[n..], i.script[1..]), len - n)
  }

  lemma TakeStep(i: Input, len: nat, more: seq<byte>, j: Input)
    requires len > 0 && i.script != [] && i.script[0] > 0 && i.pending == more + j.pending && j.script == i.script[1..]
    requires |more| == Least(i.script[0], Least(len, |i.pending|)) > 0
    ensures Take(i, len) == Take(j, len - |more|)
  {
    assert i.pending[|more|..] == j.pending;
  }

  lemma TakeEnds(i: Input, len: nat)
    ensures len == 0 ==> Take(i, len) == Some(i)
    ensures len > 0 && (i.script == [] || i.script[0] <= 0 || i.pending == []) ==> Take(i, len) == None
  {
  }

  /** SOF and the header, read one after the other. */
  function TakeHeader(i: Input): (r: Option<Input>)
    ensures r.Some? ==> HEADER <= |i.pending| && r.value.pending == i.pending[HEADER..]
  {
    match Take(i, 1)
    case None => None
    case Some(a) => Take(a, 4)
  }

  /** Payload, CID and CRC. */
  function TakeRest(i: Input, dlc: u16): (r: Option<Input>)
    ensures r.Some? ==> dlc + 3 <= |i.pending| && r.value.pending == i.pending[dlc + 3..]
  {
    match Take(i, dlc)
    case None => None
    case Some(c) =>
      match Take(c, 2)
      case None => None
      case Some(d) => Take(d, 1)
  }

  /** One frame, field by field, each read to the end. */
  function TakeFields(i: Input): (r: Option<Input>)
    ensures r.Some? ==> |r.value.pending| + OVERHEAD <= |i.pending|
  {
    match TakeHeader(i)
    case None => None
    case Some(b) => if DlcOf(i.pending) > MAX_PAYLOAD then None else TakeRest(b, DlcOf(i.pending))
  }

  /** The frame in the bytes that have been read. */
  function RequestFrom(i: Input): (r: Option<(Frame, Input)>)
    ensures r.Some? ==> |r.value.1.pending| < |i.pending|
  {
    match TakeFields(i)
    case None => None
    case Some(e) => Some((Decode(i.pending[..|i.pending| - |e.pending|]), e))
  }

  /** A frame that can be read is the one at the front, and exactly it is consumed. */
  lemma {:induction false} RequestIsFront(i: Input)
    ensures RequestFrom(i).Some? ==>
      && HasRequest(i.pending)
      && var n := OVERHEAD + DlcOf(i.pending);
         RequestFrom(i).value.0 == Decode(i.pending[..n]) && RequestFrom(i).value.1.pending == i.pending[n..]
  {
    hide Take, TakeHeader, TakeRest, Decode, Le16;
    if RequestFrom(i).Some? {
      var dlc := DlcOf(i.pending);
      assert i.pending[HEADER..][dlc + 3..] == i.pending[OVERHEAD + dlc..];
    }
  }

  /** The frames read until a read fails, the bytes run out or a header is over-long. */
  function ServedFrom(i: Input): seq<Frame>
    decreases |i.pending|
  {
    match RequestFrom(i)
    case None => []
    case Some((f, j)) => [f] + ServedFrom(j)
  }

  /** No read fails before the bytes run out. */
  predicate Flowing(i: Input) {
    |i.script| >= |i.pending| && forall k :: 0 <= k < |i.script| ==> i.script[k] > 0
  }

  lemma {:induction false} FlowingTake(i: Input, len: nat)
    requires Flowing(i)
    ensures Take(i, len).Some? <==> len <= |i.pending|
    ensures Take(i, len).Some? ==> Flowing(Take(i, len).value)
    decreases len
  {
    if len > 0 && i.pending != [] {
      var n := Least(i.script[0], Least(len, |i.pending|));
      FlowingTake(Input(i.pending[n..], i.script[1..]), len - n);
    }
  }

  lemma {:induction false} FlowingRequest(i: Input)
    requires Flowing(i)
    ensures RequestFrom(i).Some? <==> HasRequest(i.pending)
    ensures RequestFrom(i).Some? ==> Flowing(RequestFrom(i).value.1)
  {
    hide Take, Flowing, Decode, Le16;
    FlowingTake(i, 1);
    if |i.pending| >= HEADER {
      var a := Take(i, 1).value;
      FlowingTake(a, 4);
      var b := Take(a, 4).value;
      FlowingTake(b, DlcOf(i.pending));
      if Take(b, DlcOf(i.pending)).Some? {
        var c := Take(b, DlcOf(i.pending)).value;
        FlowingTake(c, 2);
        if Take(c, 2).Some? {
          FlowingTake(Take(c, 2).value, 1);
        }
      }
    }
  }

  /** The frames read are the first of those in the stream, and all of them unless a read fails. */
  lemma {:induction false} ServedIsPrefix(i: Input)
    ensures ServedFrom(i) <= Requests(i.pending)
    ensures Flowing(i) ==> ServedFrom(i) == Requests(i.pending)
    decreases |i.pending|
  {
    hide RequestFrom, Flowing, Decode, DlcOf;
    if Flowing(i) {
      FlowingRequest(i);
    }
    if RequestFrom(i).Some? {
      RequestIsFront(i);
      ServedIsPrefix(RequestFrom(i).value.1);
    }
  }

  /** Every field of a registration arrives in one read. */
  predicate WholeReads(script: seq<int>, dlc: nat) {
    && |script| >= ReadsOf(dlc)
    && script[0] >= 1 && script[1] >= 4
    && (dlc > 0 ==> script[2] >= dlc)
    && script[ReadsOf(dlc) - 2] >= 2 && script[ReadsOf(dlc) - 1] >= 1
  }

  function ReadsOf(dlc: nat): nat {
    if dlc > 0 then 5 else 4
  }

  /** A registration from its two ends: five bytes that begin one, and the rest of it behind them. */
  lemma RegistrationEnds(s: seq<byte>)
    ensures Registration(s).Some? ==> |s| >= HEADER && s[0] == SOF && s[1] == REGISTER_SID
    ensures |s| >= HEADER && s[0] == SOF && s[1] == REGISTER_SID ==>
      && (Registration(s).Some? <==> |s| - HEADER >= DlcOf(s) + 3)
      && (Registration(s).Some? ==> var n := OVERHEAD + DlcOf(s);
            Registration(s) == Some((Le16(s[n - 3], s[n - 2]) / 16, n)))
  {
    hide Le16;
  }

  /** The reads of a registration: two for its first five bytes, the others for the rest. */
  lemma WholeReadsEnds(script: seq<int>, dlc: nat)
    ensures WholeReads(script, dlc) ==> |script| >= 2 && script[0] >= 1 && script[1] >= 4
    ensures |script| >= 2 ==> (WholeReads(script, dlc) <==> script[0] >= 1 && script[1] >= 4 && RestReads(script[2..], dlc))
    ensures WholeReads(script, dlc) ==> |script| >= ReadsOf(dlc) && script[2..][ReadsOf(dlc) - 2..] == script[ReadsOf(dlc)..]
  {
  }

  predicate RestReads(script: seq<int>, dlc: nat) {
    && |script| >= ReadsOf(dlc) - 2
    && (dlc > 0 ==> script[0] >= dlc)
    && script[ReadsOf(dlc) - 4] >= 2 && script[ReadsOf(dlc) - 3] >= 1
  }

  // ----- The connection -----

  class Connection {
    var pending: seq<byte>
    var script: seq<int>

    constructor (pending: seq<byte>, script: seq<int>)
      ensures State() == Input(pending, script)
    {
      this.pending, this.script := pending, script;
    }

    function State(): Input
      reads this
    {
      Input(pending, script)
    }

    method SslRead(len: nat) returns (data: seq<byte>)
      requires len > 0
      modifies this
      ensures |data| <= len && old(pending) == data + pending
      ensures script == if old(script) == [] then [] else old(script)[1..]
      ensures |data| == if old(script) == [] || old(script)[0] <= 0 then 0
                        else Least(old(script)[0], Least(len, |old(pending)|))
    {
      data := [];
      if script != [] {
        var most := script[0];
        script := script[1..];
        if most > 0 {
          var n := Least(most, Least(len, |pending|));
          data, pending := pending[..n], pending[n..];
        }
      }
    }

    /** A single read, which must bring everything. */
    method ReadExactly(len: nat) returns (data: Option<seq<byte>>)
      requires len > 0
      modifies this
      ensures data.Some? <==> old(script) != [] && old(script)[0] >= len && |old(pending)| >= len
      ensures data.Some? ==> |data.value| == len && old(pending) == data.value + pending && script == old(script)[1..]
    {
      var got := SslRead(len);
      if |got| != len {
        return None;
      }
      return Some(got);
    }

    /** Reads until `len` bytes are there, or fails. */
    method ReadAll(len: nat) returns (data: Option<seq<byte>>)
      modifies this
      ensures match Take(old(State()), len)
        case None => data == None
        case Some(i) => data == Some(old(pending)[..len]) && State() == i
    {
      hide Take;
      ghost var start := State();
      var got := [];
      while |got| < len
        invariant |got| <= len && start.pending == got + pending
        invariant Take(start, len) == Take(State(), len - |got|)
        decreases len - |got|
      {
        ghost var before := State();
        TakeEnds(before, len - |got|);
        var more := SslRead(len - |got|);
        if more == [] {
          return None;
        }
        TakeStep(before, len - |got|, more, State());
        Associated(got, more, pending);
        got := got + more;
      }
      TakeEnds(State(), 0);
      TwoParts(start.pending, got, pending);
      return Some(got);
    }
  }

  /** SOF and header of a registration, each in one read. */
  method ReadRegistrationHead(c: Connection) returns (dlc: Option<u16>)
    modifies c
    ensures var s, script := old(c.pending), old(c.script);
      && (dlc.Some? <==> |s| >= HEADER && s[0] == SOF && s[1] == REGISTER_SID &&
                         |script| >= 2 && script[0] >= 1 && script[1] >= 4)
      && (dlc.Some? ==> dlc.value == DlcOf(s) && c.State() == Input(s[HEADER..], script[2..]))
  {
    hide Le16;
    ghost var s, script := c.pending, c.script;
    var sof := c.ReadExactly(1);
    if sof == None || sof.value[0] != SOF {
      return None;
    }
    var hdr := c.ReadExactly(4);
    if hdr == None || hdr.value[0] != REGISTER_SID {
      return None;
    }
    assert s == sof.value + hdr.value + c.pending;
    assert script[1..][1..] == script[2..];
    return Some(Le16(hdr.value[2], hdr.value[3]));
  }

  /** Payload, CID and CRC of a registration, each in one read. */
  method ReadRegistrationRest(c: Connection, dlc: u16) returns (raw: Option<u16>)
    modifies c
    ensures var s, script := old(c.pending), old(c.script);
      && (raw.Some? <==> |s| >= dlc + 3 && RestReads(script, dlc))
      && (raw.Some? ==> raw.value == Le16(s[dlc], s[dlc + 1]) &&
                        c.State() == Input(s[dlc + 3..], script[ReadsOf(dlc) - 2..]))
  {
    hide Le16;
    ghost var s, script := c.pending, c.script;
    if dlc > 0 {
      var skipped := c.ReadExactly(dlc);
      if skipped == None {
        return None;
      }
    }
    assert c.pending == s[dlc..] && c.script == script[ReadsOf(dlc) - 4..];
    var cid := c.ReadExactly(2);
    if cid == None {
      return None;
    }
    var crc := c.ReadExactly(1);
    if crc == None {
      return None;
    }
    assert s[dlc..] == cid.value + crc.value + c.pending;
    assert s[dlc] == s[dlc..][0] && s[dlc + 1] == s[dlc..][1];
    assert s[dlc..][3..] == s[dlc + 3..];
    return Some(Le16(cid.value[0], cid.value[1]));
  }

  /**
   * The registration at the front of a new connection: accepted exactly if it is one and each of its fields
   * comes in a single read, and then it is all that has been consumed.
   */
  method ReceivedCidTls(c: Connection) returns (cid: Option<u16>)
    modifies c
    ensures cid.Some? <==>
      Registration(old(c.pending)).Some? && WholeReads(old(c.script), DlcOf(old(c.pending)))
    ensures cid.Some? ==> var n := OVERHEAD + DlcOf(old(c.pending));
      && n <= |old(c.pending)|
      && Registration(old(c.pending)) == Some((cid.value, n))
      && c.State() == Input(old(c.pending)[n..], old(c.script)[ReadsOf(DlcOf(old(c.pending)))..])
  {
    hide Le16, Registration, RestReads, WholeReads, DlcOf;
    ghost var s, script := c.pending, c.script;
    RegistrationEnds(s);
    if |s| >= HEADER {
      WholeReadsEnds(script, DlcOf(s));
    }
    var dlc := ReadRegistrationHead(c);
    if dlc == None {
      return None;
    }
    var raw := ReadRegistrationRest(c, dlc.value);
    if raw == None {
      return None;
    }
    ghost var n := OVERHEAD + dlc.value;
    assert s[HEADER..][dlc.value] == s[n - 3] && s[HEADER..][dlc.value + 1] == s[n - 2];
    assert s[HEADER..][dlc.value + 3..] == s[n..];
    assert Registration(s) == Some((raw.value / 16, n));
    assert WholeReads(script, dlc.value);
    return Some(raw.value / 16);
  }

  // ----- The receiving thread -----

  /** One turn of the receive loop, up to the frame. */
  method ReadRequest(c: Connection) returns (f: Option<Frame>)
    modifies c
    ensures match RequestFrom(old(c.State()))
      case None => f == None
      case Some((g, i)) => f == Some(g) && c.State() == i
  {
    hide Le16, Take;
    ghost var s := c.pending;
    var sof := c.ReadAll(1);
    if sof == None {
      return None;
    }
    var hdr := c.ReadAll(4);
    if hdr == None {
      return None;
    }
    assert hdr.value == s[1..HEADER];
    var dlc := Le16(hdr.value[2], hdr.value[3]);
    if dlc > MAX_PAYLOAD {
      return None;
    }
    var payload := c.ReadAll(dlc);
    if payload == None {
      return None;
    }
    var cid := c.ReadAll(2);
    if cid == None {
      return None;
    }
    var crc := c.ReadAll(1);
    if crc == None {
      return None;
    }
    f := Some(Frame(hdr.value[0], hdr.value[1], dlc, Le16(cid.value[0], cid.value[1]), payload.value));
    FieldsRead(s, hdr.value, payload.value, cid.value);
  }

  /** The frame at the front, from its fields as they are read. */
  lemma FieldsRead(s: seq<byte>, hdr: seq<byte>, payload: seq<byte>, cid: seq<byte>)
    requires |s| >= OVERHEAD + |payload| && hdr == s[1..HEADER] && |payload| == Le16(hdr[2], hdr[3])
    requires payload == s[HEADER..HEADER + |payload|] && cid == s[HEADER + |payload|..HEADER + |payload| + 2]
    ensures Decode(s[..OVERHEAD + |payload|]) == Frame(hdr[0], hdr[1], |payload|, Le16(cid[0], cid[1]), payload)
  {
    hide Le16;
    var n := OVERHEAD + |payload|;
    SliceOfPrefix(s, n, HEADER, n - 3);
  }

  lemma ForwardedSnoc(t: Table, cid: u16, frames: seq<Frame>, f: Frame)
    ensures ForwardAll(t, cid, frames + [f]) == Forward(ForwardAll(t, cid, frames), cid, f)
  {
    hide Forward;
    assert (frames + [f])[..|frames|] == frames;
  }

  /** The receive loop: the frames that can be read are forwarded, in order, under the registered CID. */
  method ServeRequests(c: Connection, cid: u16, manager: SessionManager)
    requires manager.Valid() && c !in manager.Objects()
    modifies c, manager.Objects()
    ensures manager.Valid() && manager.Objects() == old(manager.Objects())
    ensures manager.GetTable() == ForwardAll(old(manager.GetTable()), cid, ServedFrom(old(c.State())))
  {
    hide RequestFrom, Forward, ForwardAll, ServedFrom;
    ghost var start, before := c.State(), manager.GetTable();
    ghost var frames: seq<Frame> := [];
    NothingForwarded(before, cid);
    while true
      invariant manager.Valid() && manager.Objects() == old(manager.Objects())
      invariant manager.GetTable() == ForwardAll(before, cid, frames)
      invariant ServedFrom(start) == frames + ServedFrom(c.State())
      decreases |c.pending|
    {
      ServedStep(frames, c.State());
      var f := ServeOne(c, cid, manager);
      if f == None {
        break;
      }
      ForwardedSnoc(before, cid, frames, f.value);
      frames := frames + [f.value];
    }
  }

  /** One turn of the receive loop: the next frame, if there is one, is read and forwarded. */
  method ServeOne(c: Connection, cid: u16, manager: SessionManager) returns (f: Option<Frame>)
    requires manager.Valid() && c !in manager.Objects()
    modifies c, manager.Objects()
    ensures manager.Valid() && manager.Objects() == old(manager.Objects())
    ensures match RequestFrom(old(c.State()))
      case None => f == None && manager.GetTable() == old(manager.GetTable())
      case Some((g, i)) =>
        && f == Some(g) && c.State() == i && |c.pending| < |old(c.pending)|
        && manager.GetTable() == Forward(old(manager.GetTable()), cid, g)
  {
    hide RequestFrom, Forward, Decode, DlcOf;
    f := ReadRequest(c);
    if f.Some? {
      manager.ForwardToMcu(cid, f.value);
    }
  }

  /** What is served in front of the rest. */
  lemma ServedStep(frames: seq<Frame>, i: Input)
    ensures match RequestFrom(i)
      case None => frames + ServedFrom(i) == frames
      case Some((f, j)) => frames + ServedFrom(i) == frames + [f] + ServedFrom(j)
  {
    hide RequestFrom;
  }

  lemma NothingForwarded(t: Table, cid: u16)
    ensures ForwardAll(t, cid, []) == t
    ensures forall frames: seq<Frame> :: [] + frames == frames
  {
  }

  /** The receiving thread: the requests are forwarded, and then the session leaves with whatever still waits in it. */
  method RxLoop(c: Connection, cid: u16, manager: SessionManager)
    requires manager.Valid() && c !in manager.Objects()
    modifies c, manager, manager.Objects()
    ensures manager.Valid() && manager.GetTable() == Remove(old(manager.GetTable()), cid)
  {
    hide ForwardAll;
    ForwardedElsewhere(manager.GetTable(), cid, ServedFrom(c.State()));
    ServeRequests(c, cid, manager);
    manager.RemoveSession(cid);
  }

  /** Forwarding touches no session but its own. */
  lemma {:induction false} ForwardedElsewhere(t: Table, cid: u16, frames: seq<Frame>)
    ensures Remove(ForwardAll(t, cid, frames), cid) == Remove(t, cid)
    decreases |frames|
  {
    if frames != [] {
      ForwardedElsewhere(t, cid, frames[..|frames| - 1]);
    }
  }

  /**
   * A connection up to the end of its requests: unless its address is banned, a registration under a CID not
   * yet taken adds a session, to which every request behind it is forwarded; any other connection changes nothing.
   */
  method Accept(c: Connection, ip: string, blacklist: Limiter.Blacklist, transport: TlsSender.TlsTransport,
                manager: SessionManager)
    returns (cid: Option<u16>)
    requires manager.Valid() && transport !in manager.Objects() && transport.txQueue == []
    requires c !in manager.Objects() && c as object != transport
    modifies c, transport, manager, manager.Objects()
    ensures manager.Valid()
    ensures cid.Some? <==>
      && ip !in old(blacklist.ips)
      && Registration(old(c.pending)).Some?
      && WholeReads(old(c.script), DlcOf(old(c.pending)))
    ensures cid.Some? ==> Registration(old(c.pending)) == Some((cid.value, OVERHEAD + DlcOf(old(c.pending))))
    ensures cid.Some? && cid.value !in old(manager.GetTable()) ==>
      var n := OVERHEAD + DlcOf(old(c.pending));
      n <= |old(c.pending)| &&
      manager.GetTable() == ForwardAll(Add(old(manager.GetTable()), cid.value, []), cid.value,
        ServedFrom(Input(old(c.pending)[n..], old(c.script)[ReadsOf(DlcOf(old(c.pending)))..])))
    ensures cid.None? || cid.value in old(manager.GetTable()) ==> manager.GetTable() == old(manager.GetTable())
  {
    hide SessionManager.GetTable, DlcOf, Registration, ForwardAll, ServedFrom, Add, WholeReads, ReadsOf;
    var banned := blacklist.IsBanned(ip);
    if banned {
      return None;
    }
    cid := ReceivedCidTls(c);
    if cid.Some? {
      Admit(c, cid.value, transport, manager);
    }
  }

  /** A session for the CID, served as long as there are requests; a CID that is taken keeps the session it has. */
  method Admit(c: Connection, cid: u16, transport: TlsSender.TlsTransport, manager: SessionManager)
    requires manager.Valid() && transport !in manager.Objects() && transport.txQueue == []
    requires c !in manager.Objects() && c as object != transport
    modifies c, transport, manager, manager.Objects()
    ensures manager.Valid()
    ensures manager.GetTable() ==
      if cid in old(manager.GetTable()) then old(manager.GetTable())
      else ForwardAll(Add(old(manager.GetTable()), cid, []), cid, ServedFrom(old(c.State())))
  {
    hide ForwardAll, ServedFrom;
    var isNew := cid !in manager.sessions;
    manager.AddSession(cid, transport);
    if isNew {
      ServeRequests(c, cid, manager);
    }
  }

  // ----- What is looked at, and what is not -----

  /** The first byte of a request is read but not looked at; in a registration it has to be 0xAA, and the SID 0x30. */
  lemma FirstByteOfRequest(s: seq<byte>, x: byte)
    requires s != []
    ensures Requests([x] + s[1..]) == Requests(s)
  {
    var t := [x] + s[1..];
    SameBehindFirst(s, t);
    hide Decode, DlcOf, Le16;
  }

  lemma SameBehindFirst(s: seq<byte>, t: seq<byte>)
    requires |s| == |t| > 0 && s[1..] == t[1..]
    ensures HasRequest(s) <==> HasRequest(t)
    ensures HasRequest(s) ==> var n := OVERHEAD + DlcOf(s);
      DlcOf(t) == DlcOf(s) && Decode(s[..n]) == Decode(t[..n]) && s[n..] == t[n..]
  {
    hide Le16;
    assert forall i :: 1 <= i < |s| ==> s[i] == s[1..][i - 1] == t[1..][i - 1] == t[i];
    if HasRequest(s) {
      var n := OVERHEAD + DlcOf(s);
      SliceOfPrefix(s, n, HEADER, n - 3);
      SliceOfPrefix(t, n, HEADER, n - 3);
    }
  }

  /** A registration of any announced length, up to 65535 bytes, and of nothing but SID 0x30 behind 0xAA. */
  lemma RegistrationIff(s: seq<byte>)
    ensures Registration(s).Some? <==>
      (|s| >= 5 && s[0] == 0xAA && s[1] == 0x30 && |s| >= 8 + s[3] as int + 256 * (s[4] as int))
  {
  }

  /** A client's frame is read as a request exactly if it is complete and announces at most 256 bytes. */
  lemma HasRequestIff(s: seq<byte>)
    ensures HasRequest(s) <==>
      (|s| >= 5 && s[3] as int + 256 * (s[4] as int) <= 256 && |s| >= 8 + s[3] as int + 256 * (s[4] as int))
  {
  }

  /** A registration of eight bytes and its payload is read in fields of 1, 4, the payload's, 2 and 1 bytes. */
  lemma WholeReadsIff(script: seq<int>, dlc: nat)
    ensures var fields := if dlc == 0 then [1, 4, 2, 1] else [1, 4, dlc, 2, 1];
      WholeReads(script, dlc) <==>
        |fields| <= |script| && forall i :: 0 <= i < |fields| ==> script[i] >= fields[i]
  {
    var fields := if dlc == 0 then [1, 4, 2, 1] else [1, 4, dlc, 2, 1];
    if |fields| <= |script| && forall i :: 0 <= i < |fields| ==> script[i] >= fields[i] {
      assert script[0] >= fields[0] && script[1] >= fields[1] && script[2] >= fields[2] && script[3] >= fields[3];
      assert dlc > 0 ==> script[4] >= fields[4];
    }
  }
}
