/** From the client to the firmware and back. */
module EndToEnd {
  import opened Bytes
  import opened Crc8
  import opened Wire
  import opened Scanner
  import opened RoundTrip
  import opened Encoder
  import opened Routing
  import opened Gateway
  import opened History
  import opened Sessions
  import opened TlsReceiver
  import opened Firmware
  import opened FirmwareRuns
  import Client
  import Limiter
  import TlsSender

  /** Frames as clients put them on the wire: under check bytes of their own. */
  function StampedAll(frames: seq<Frame>, checks: seq<byte>): seq<byte>
    requires |checks| == |frames|
  {
    if frames == [] then [] else Client.Stamped(frames[0], checks[0]) + StampedAll(frames[1..], checks[1..])
  }

  /** Two slices that differ in their last byte at most carry the same frame. */
  lemma CheckIgnored(v: seq<byte>, w: seq<byte>)
    requires |v| == |w| >= OVERHEAD && forall i :: 0 <= i < |w| - 1 ==> v[i] == w[i]
    ensures v[0] == w[0] && v[1] == w[1] && DlcOf(v) == DlcOf(w) && Decode(v) == Decode(w)
  {
    hide Le16;
    assert v[HEADER..|v| - 3] == w[HEADER..|w| - 3];
  }

  lemma StampedIsEncoded(f: Frame, check: byte)
    ensures var v, w := Client.Stamped(f, check), Encode(f);
      |v| == |w| == OVERHEAD + |f.payload| && forall i :: 0 <= i < |w| - 1 ==> v[i] == w[i]
  {
    hide Crc, Body;
  }

  lemma FrontOf(s: seq<byte>, w: seq<byte>, tail: seq<byte>)
    requires s == w + tail && |w| >= OVERHEAD
    ensures s[..|w|] == w && s[|w|..] == tail && s[0] == w[0] && s[1] == w[1] && DlcOf(s) == DlcOf(w)
  {
  }

  /** The check byte plays no part in what the gateway reads. */
  lemma StampedReads(f: Frame, check: byte, tail: seq<byte>)
    requires f.Consistent()
    ensures var s := Client.Stamped(f, check) + tail; var n := OVERHEAD + f.dlc;
      |s| >= n && s[0] == SOF && s[1] == f.sid && DlcOf(s) == f.dlc && Decode(s[..n]) == f && s[n..] == tail
  {
    hide Encode, Client.Stamped, Crc, Body, Le16;
    var w := Client.Stamped(f, check);
    DecodeEncode(f);
    StampedIsEncoded(f, check);
    CheckIgnored(w, Encode(f));
    FrontOf(w + tail, w, tail);
  }

  lemma EncodedIsStamped(sid: byte, kind: byte, payload: seq<byte>, cid: int, number: int)
    requires |payload| <= Client.MAX_PAYLOAD
    ensures var f := Client.Asked(sid, kind, payload, cid, number);
      Client.EncodePacket(sid as int, kind as int, payload, cid, number) ==
        Client.Packet(Client.Stamped(f, Client.Checksum([SOF] + Body(f))))
  {
  }

  lemma StampedLength(f: Frame, check: byte)
    ensures |Client.Stamped(f, check)| == OVERHEAD + |f.payload|
  {
  }

  /** The client's codec undoes itself: a packet comes back as the frame, the CID and the number that went in. */
  lemma CodecRoundTrip(sid: byte, kind: byte, payload: seq<byte>, cid: int, number: int)
    requires |payload| <= Client.MAX_PAYLOAD
    ensures var e := Client.EncodePacket(sid as int, kind as int, payload, cid, number);
      && e.Packet?
      && Client.Attempt(e.bytes) == (Some(e.bytes), [])
      && |e.bytes| >= OVERHEAD
      && var f := Client.Read(e.bytes).frame;
         f.sid == sid && f.kind == kind && f.payload == payload &&
         Client.CidOf(f.cid) == cid % 0x1000 && Client.SeqOf(f.cid) == number % 16
  {
    hide Body, DlcOf, Decode, Client.Checksum, Client.EncodePacket, Client.Stamped;
    hide Client.CidOf, Client.SeqOf, Client.RawCid;
    EncodedIsStamped(sid, kind, payload, cid, number);
    var f := Client.Asked(sid, kind, payload, cid, number);
    var w := Client.Stamped(f, Client.Checksum([SOF] + Body(f)));
    StampedReads(f, Client.Checksum([SOF] + Body(f)), []);
    StampedLength(f, Client.Checksum([SOF] + Body(f)));
    assert w + [] == w && |w| == OVERHEAD + |payload|;
    assert w[..|w|] == w;
    Client.RawCidFields(cid, number);
  }

  /** The gateway reads a client's packet as a request exactly if its payload is within the gateway's own limit. */
  lemma {:induction false} PacketIsRequestIff(sid: byte, kind: byte, payload: seq<byte>, cid: int, number: int)
    requires |payload| <= Client.MAX_PAYLOAD
    ensures var e := Client.EncodePacket(sid as int, kind as int, payload, cid, number);
      e.Packet? &&
      Requests(e.bytes) == if |payload| <= MAX_PAYLOAD then [Client.Asked(sid, kind, payload, cid, number)] else []
  {
    hide Body, Client.Checksum, Client.EncodePacket, Client.RawCid, DlcOf, Decode, Client.Stamped;
    EncodedIsStamped(sid, kind, payload, cid, number);
    var f := Client.Asked(sid, kind, payload, cid, number);
    var check := Client.Checksum([SOF] + Body(f));
    var w := Client.Stamped(f, check);
    StampedReads(f, check, []);
    StampedLength(f, check);
    assert w + [] == w && |w| == OVERHEAD + |payload|;
    assert w[|w|..] == [];
  }

  lemma {:induction false} RequestInFront(f: Frame, check: byte, tail: seq<byte>)
    requires Sendable(GATEWAY, f)
    ensures Requests(Client.Stamped(f, check) + tail) == [f] + Requests(tail)
  {
    hide Decode, DlcOf, Body;
    StampedReads(f, check, tail);
  }

  /** A valid registration from the client that the gateway refuses, because its header comes in four reads. */
  lemma SplitRegistrationRefused(reg: Frame, check: byte)
    requires reg.Consistent() && reg.sid == REGISTER_SID
    ensures var s := Client.Stamped(reg, check); var script := seq(|s|, _ => 1);
      && Registration(s) == Some((reg.cid / 16, |s|))
      && Flowing(Input(s, script))
      && DlcOf(s) == reg.dlc && !WholeReads(script, reg.dlc)
  {
    hide Client.Stamped, DlcOf, Registration, Decode;
    var s := Client.Stamped(reg, check);
    assert s + [] == s;
    StampedLength(reg, check);
    StampedReads(reg, check, []);
    RegistrationInFront(reg, check, []);
    var script := seq(|s|, _ => 1);
    assert script[1] == 1;
  }

  /** The frames before the first whose payload is too long for the gateway. */
  function Acceptable(frames: seq<Frame>): seq<Frame> {
    if frames == [] || frames[0].dlc > MAX_PAYLOAD then [] else [frames[0]] + Acceptable(frames[1..])
  }

  lemma {:induction false} AcceptableIff(frames: seq<Frame>)
    requires forall i :: 0 <= i < |frames| ==> frames[i].Consistent()
    ensures Acceptable(frames) == frames <==> AllSendable(GATEWAY, frames)
  {
    if frames != [] {
      AcceptableIff(frames[1..]);
      if frames[0].dlc <= MAX_PAYLOAD {
        assert frames == [frames[0]] + frames[1..];
      }
    }
  }

  lemma OverLongInFront(f: Frame, check: byte, tail: seq<byte>)
    requires f.Consistent() && f.dlc > MAX_PAYLOAD
    ensures Requests(Client.Stamped(f, check) + tail) == []
  {
    hide Decode, DlcOf, Body;
    StampedReads(f, check, tail);
  }

  /** Of what clients write, the gateway reads back the frames before the first over-long one, whatever the check bytes. */
  lemma {:induction false} RequestsAreAcceptable(frames: seq<Frame>, checks: seq<byte>)
    requires |checks| == |frames| && forall i :: 0 <= i < |frames| ==> frames[i].Consistent()
    ensures Requests(StampedAll(frames, checks)) == Acceptable(frames)
    decreases |frames|
  {
    if frames != [] {
      hide Requests, Client.Stamped;
      if frames[0].dlc > MAX_PAYLOAD {
        OverLongInFront(frames[0], checks[0], StampedAll(frames[1..], checks[1..]));
      } else {
        RequestInFront(frames[0], checks[0], StampedAll(frames[1..], checks[1..]));
        RequestsAreAcceptable(frames[1..], checks[1..]);
      }
    } else {
      assert StampedAll(frames, checks) == [] && !HasRequest([]);
    }
  }

  /** The gateway reads back exactly the requests the clients wrote if and only if none is too long for it. */
  lemma {:induction false} RequestsAreTheClients(frames: seq<Frame>, checks: seq<byte>)
    requires |checks| == |frames| && forall i :: 0 <= i < |frames| ==> frames[i].Consistent()
    ensures Requests(StampedAll(frames, checks)) == frames <==> AllSendable(GATEWAY, frames)
  {
    hide Requests, StampedAll, Acceptable, Sendable;
    RequestsAreAcceptable(frames, checks);
    AcceptableIff(frames);
  }

  lemma RegistrationInFront(reg: Frame, check: byte, tail: seq<byte>)
    requires reg.Consistent() && reg.sid == REGISTER_SID
    ensures Registration(Client.Stamped(reg, check) + tail) == Some((reg.cid / 16, OVERHEAD + reg.dlc))
  {
    hide DlcOf, Body, Le16;
    var s, n := Client.Stamped(reg, check) + tail, OVERHEAD + reg.dlc;
    StampedReads(reg, check, tail);
    assert Decode(s[..n]).cid == Le16(s[n - 3], s[n - 2]);
  }

  /**
   * A connection that opens with a registration: the client's 12-bit CID is recognised, exactly the
   * registration is consumed, and the requests after it are read in order.
   */
  lemma {:induction false} RegistrationThenRequests(
    reg: Frame, check: byte, cid: int, number: int, frames: seq<Frame>, checks: seq<byte>)
    requires reg.Consistent() && reg.sid == REGISTER_SID && reg.cid == Client.RawCid(cid, number)
    requires |checks| == |frames| && AllSendable(GATEWAY, frames)
    ensures var s := Client.Stamped(reg, check) + StampedAll(frames, checks);
      var n := OVERHEAD + reg.dlc;
      Registration(s) == Some((cid % 0x1000, n)) && n <= |s| && Requests(s[n..]) == frames
  {
    hide Requests, Registration, Client.Stamped, Decode, DlcOf;
    var tail := StampedAll(frames, checks);
    RegistrationInFront(reg, check, tail);
    StampedReads(reg, check, tail);
    RequestsAreTheClients(frames, checks);
  }

  /** Requests forwarded to a live session join its queues in order; nothing else changes. */
  lemma {:induction false} ForwardedTable(t: Table, cid: u16, frames: seq<Frame>)
    requires cid in t
    ensures ForwardAll(t, cid, frames) ==
      t[cid := t[cid].(toMcu := t[cid].toMcu + frames, requested := t[cid].requested + DiagSids(frames))]
    decreases |frames|
  {
    if frames == [] {
      assert t[cid].toMcu + [] == t[cid].toMcu && t[cid].requested + [] == t[cid].requested;
    } else {
      var n := |frames| - 1;
      ForwardedTable(t, cid, frames[..n]);
      assert t[cid].toMcu + frames == t[cid].toMcu + frames[..n] + [frames[n]];
      var asked := t[cid].requested + DiagSids(frames[..n]);
      assert t[cid].requested + DiagSids(frames) == if IsDiagSid(frames[n].sid) then asked + [frames[n].sid] else asked;
    }
  }

  /**
   * A client's connection, run by the gateway's own code: after a registration in whole reads, and requests in
   * reads of any size, a session under the client's 12-bit CID holds exactly the requests, and awaits the
   * replies to the diagnostic ones; no other session has changed.
   */
  method ServeClient(
      c: Connection, ip: string, blacklist: Limiter.Blacklist, transport: TlsSender.TlsTransport, manager: SessionManager,
      ghost reg: Frame, ghost check: byte, ghost cid: int, ghost number: int,
      ghost frames: seq<Frame>, ghost checks: seq<byte>)
    returns (registered: Option<u16>)
    requires manager.Valid() && transport !in manager.Objects() && transport.txQueue == []
    requires c !in manager.Objects() && c as object != transport
    requires reg.Consistent() && reg.sid == REGISTER_SID && reg.cid == Client.RawCid(cid, number)
    requires |checks| == |frames| && AllSendable(GATEWAY, frames)
    requires c.pending == Client.Stamped(reg, check) + StampedAll(frames, checks)
    requires ip !in blacklist.ips && cid % 0x1000 !in manager.GetTable()
    requires WholeReads(c.script, reg.dlc) && Flowing(Input(StampedAll(frames, checks), c.script[ReadsOf(reg.dlc)..]))
    modifies c, transport, manager, manager.Objects()
    ensures manager.Valid() && registered == Some(cid % 0x1000)
    ensures manager.GetTable() ==
      old(manager.GetTable())[cid % 0x1000 := SessionState(DiagSids(frames), frames, false, [])]
  {
    hide Registration, Client.Stamped, StampedAll, Requests, DiagSids, Flowing, DlcOf, ServedFrom, ForwardAll;
    ghost var t := manager.GetTable();
    ghost var u := Add(t, cid % 0x1000, []);
    RegistrationThenRequests(reg, check, cid, number, frames, checks);
    RegistrationRest(reg, check, StampedAll(frames, checks));
    ServedIsPrefix(Input(StampedAll(frames, checks), c.script[ReadsOf(reg.dlc)..]));
    ForwardedTable(u, cid % 0x1000, frames);
    assert [] + frames == frames && [] + DiagSids(frames) == DiagSids(frames);
    registered := Accept(c, ip, blacklist, transport, manager);
  }

  lemma RegistrationRest(reg: Frame, check: byte, tail: seq<byte>)
    requires reg.Consistent()
    ensures var s := Client.Stamped(reg, check) + tail;
      OVERHEAD + reg.dlc <= |s| && DlcOf(s) == reg.dlc && s[OVERHEAD + reg.dlc..] == tail
  {
    hide Client.Stamped, DlcOf, Decode;
    StampedReads(reg, check, tail);
  }

  /**
   * Gateway and firmware agree on what calls for a reply: the gateway remembers a SID exactly if the firmware gives
   * such a frame, of whatever length, to its diagnostic worker.
   */
  lemma RememberedIffDiagnosed(sid: byte, dlc: u16)
    ensures IsDiagSid(sid) <==> ValidDlc(sid, dlc) && TargetOf(sid) == Diag
    ensures 0x10 <= sid <= 0x13 ==> TargetOf(sid) == Rpc && !IsDiagSid(sid)
  {
  }

  /** What the client reads off a frame: its check byte and its raw bytes as well. */
  lemma RawIsKept(f: Frame, check: byte)
    requires f.Consistent()
    ensures var raw := Client.Stamped(f, check);
      |raw| >= OVERHEAD && Client.Read(raw) == Client.Incoming(f, check, raw)
  {
    hide Client.Stamped, Decode, DlcOf;
    StampedReads(f, check, []);
    StampedLength(f, check);
    var raw := Client.Stamped(f, check);
    assert raw + [] == raw && raw[..|raw|] == raw;
    LastIsCheck(f, check);
  }

  lemma LastIsCheck(f: Frame, check: byte)
    ensures Client.Stamped(f, check)[|f.payload| + 7] == check
  {
    hide Body;
  }

  /** What the worker writes when it drains the sessions. */
  predicate DrainedTo(t: Table, line: seq<byte>) {
    AllReadable(Backlog(t, 0)) && line == SerializeAll(Backlog(t, 0))
  }

  /** The frames the firmware's frame handler is given over a run of arrivals. */
  predicate Delivered(m: Memory, arrivals: seq<Arrival>, frames: seq<Frame>)
    requires m.Fits()
  {
    var found := RunFrom(m, arrivals).found;
    AllLong(found) && DecodeEach(found) == frames
  }

  /**
   * Everything waiting in the sessions reaches the firmware's frame handler, frame for frame and in order,
   * whatever the chunks of the serial line, as long as none is misread.
   */
  lemma {:induction false} BacklogReachesFirmware(t: Table, m: Memory, arrivals: seq<Arrival>)
    requires AllSendable(GATEWAY, Backlog(t, 0))
    requires m.Fits() && m.len == 0 && Metered(arrivals) && NeverMisread(m, arrivals)
    requires DrainedTo(t, Stream(arrivals))
    ensures Delivered(m, arrivals, Backlog(t, 0))
  {
    hide RunFrom, NeverMisread, Serialized, Encode, Decode;
    var frames := Backlog(t, 0);
    SerializeAllIsEncodeAll(frames);
    CleanDeliveryIff(m, arrivals, frames);
    DecodeEachEncodeEach(frames);
  }

  lemma {:induction false} BacklogOfOne(t: Table, cid: u16, from: nat)
    requires cid in t && forall c :: c in t && c != cid ==> t[c].toMcu == []
    ensures Backlog(t, from) == if from <= cid then t[cid].toMcu else []
    decreases CIDS - from
  {
    if from < CIDS {
      BacklogOfOne(t, cid, from + 1);
    }
  }

  /**
   * From the client's encoder to the firmware's frame handler: requests of at most 256 bytes, read by the
   * gateway in any reads that do not fail, queued, popped, encoded anew and received in any chunks without a
   * misread header, arrive with the SID, type, payload and raw CID the client gave them, whatever its check
   * bytes were.
   */
  lemma {:induction false} ClientToFirmware(
    t: Table, cid: u16, i: Input, frames: seq<Frame>, checks: seq<byte>, m: Memory, arrivals: seq<Arrival>)
    requires cid in t && forall c :: c in t ==> t[c].toMcu == []
    requires |checks| == |frames| && AllSendable(GATEWAY, frames)
    requires i.pending == StampedAll(frames, checks) && Flowing(i)
    requires m.Fits() && m.len == 0 && Metered(arrivals)
    ensures DrainedTo(ForwardAll(t, cid, ServedFrom(i)), Stream(arrivals)) && NeverMisread(m, arrivals) ==>
      Delivered(m, arrivals, frames)
  {
    hide DrainedTo, Delivered, Requests, ServedFrom, ForwardAll, Backlog, NeverMisread, StampedAll, Flowing, DiagSids;
    RequestsAreTheClients(frames, checks);
    ServedIsPrefix(i);
    ForwardedTable(t, cid, frames);
    assert t[cid].toMcu + frames == frames;
    BacklogOfOne(ForwardAll(t, cid, frames), cid, 0);
    if DrainedTo(ForwardAll(t, cid, frames), Stream(arrivals)) && NeverMisread(m, arrivals) {
      BacklogReachesFirmware(ForwardAll(t, cid, frames), m, arrivals);
    }
  }

  // ----- Over every run -----

  /** In every run the frames popped for a live client are the first requests in the bytes it has sent. */
  lemma {:induction false} PoppedAreRequests(events: seq<Event>, c: u16)
    requires c in Run(events).table
    ensures c in Run(events).links
    ensures var l := Run(events).links[c]; l.popped <= Requests(l.consumed + l.unread)
  {
    hide Run, Requests, Balanced, Sendable, ReadOff;
    EveryRunAccounts(events);
    EveryRunReads(events, c);
    assert Accounted(Run(events).table[c], Run(events).links[c]);
  }

  /** In every run the firmware's frame handler is given exactly the frames popped, in any chunks without a misreading. */
  lemma {:induction false} FirmwareReadsWhatWasPopped(events: seq<Event>, m: Memory, arrivals: seq<Arrival>)
    requires m.Fits() && m.len == 0 && Metered(arrivals) && NeverMisread(m, arrivals)
    requires Stream(arrivals) == Run(events).line
    ensures Delivered(m, arrivals, Run(events).written)
  {
    hide Run, NeverMisread, Encode, Decode, RunFrom, EncodeAll, EncodeEach;
    EveryRunAccounts(events);
    CleanDeliveryIff(m, arrivals, Run(events).written);
    DecodeEachEncodeEach(Run(events).written);
    AllLongEncodings(Run(events).written);
  }

  lemma AllLongEncodings(frames: seq<Frame>)
    ensures |EncodeEach(frames)| == |frames|
    ensures forall i :: 0 <= i < |frames| ==> EncodeEach(frames)[i] == Encode(frames[i])
  {
    hide Encode;
  }

  /** What the firmware is given for a client: the frames written since it joined that are its own. */
  function ServedBy(w: World, c: u16): seq<Frame>
    requires c in w.links && |w.owners| == |w.written| && w.links[c].since <= |w.written|
  {
    Owned(w.written[w.links[c].since..], w.owners[w.links[c].since..], c)
  }

  /**
   * From every client to the firmware, over every run: of the frames the firmware's handler gets, in any chunks
   * without a misreading, those of a live client are the first requests in the bytes that client has sent, in
   * order and each once, and all of them once nothing of it is queued or still to be read.
   */
  lemma {:induction false} EveryRunClientToFirmware(events: seq<Event>, c: u16, m: Memory, arrivals: seq<Arrival>)
    requires c in Run(events).table && Stream(arrivals) == Run(events).line
    requires m.Fits() && m.len == 0 && Metered(arrivals) && NeverMisread(m, arrivals)
    ensures var w := Run(events);
      && Delivered(m, arrivals, w.written)
      && c in w.links && |w.owners| == |w.written| && w.links[c].since <= |w.written|
      && var asked := Requests(w.links[c].consumed + w.links[c].unread);
         && ServedBy(w, c) <= asked
         && (w.table[c].toMcu == [] && !HasRequest(w.links[c].unread) ==> ServedBy(w, c) == asked)
  {
    hide Run, NeverMisread, Delivered, Requests, Owned, Balanced, Sendable, ReadOff;
    FirmwareReadsWhatWasPopped(events, m, arrivals);
    EveryRunAccounts(events);
    EveryRunReads(events, c);
    var w := Run(events);
    var l := w.links[c];
    assert Accounted(w.table[c], l) && HasItsShare(l, c, w.written, w.owners);
    if w.table[c].toMcu == [] && !HasRequest(l.unread) {
      NothingToRead(l.unread);
      assert l.popped + [] == l.popped && l.forwarded + [] == l.forwarded;
    }
  }

  lemma NothingToRead(s: seq<byte>)
    requires !HasRequest(s)
    ensures Requests(s) == []
  {
  }

  /** The same of the client's own encoder: its requests, with SID, type, payload and raw CID, whatever its check bytes. */
  lemma {:induction false} EveryClientIsServed(
      events: seq<Event>, c: u16, frames: seq<Frame>, checks: seq<byte>, m: Memory, arrivals: seq<Arrival>)
    requires c in Run(events).table && c in Run(events).links && Stream(arrivals) == Run(events).line
    requires |checks| == |frames| && AllSendable(GATEWAY, frames)
    requires Run(events).links[c].consumed + Run(events).links[c].unread == StampedAll(frames, checks)
    requires m.Fits() && m.len == 0 && Metered(arrivals) && NeverMisread(m, arrivals)
    ensures var w := Run(events);
      && Delivered(m, arrivals, w.written)
      && |w.owners| == |w.written| && w.links[c].since <= |w.written|
      && ServedBy(w, c) <= frames
      && (w.table[c].toMcu == [] && !HasRequest(w.links[c].unread) ==> ServedBy(w, c) == frames)
  {
    hide Run, NeverMisread, Delivered, Requests, HasRequest, ServedBy, StampedAll;
    EveryRunClientToFirmware(events, c, m, arrivals);
    RequestsAreTheClients(frames, checks);
  }

  lemma WireIsFront(s: SessionState, l: Link)
    requires Balanced(SenderOf(s, l)) && l.lost == 0
    ensures l.wire <= EncodeAll(l.sent)
    ensures l.unsent == [] && s.outbox == [] ==> l.wire == EncodeAll(l.sent)
  {
    hide EncodeAll;
    assert l.wire + (l.unsent + Flatten(s.outbox)) == EncodeAll(l.sent);
    assert l.wire + [] + [] == l.wire;
  }

  /** A frame handed to the firmware whole needs no condition at all, whatever lies behind it in memory. */
  lemma FedWhole(f: Frame, check: byte, stale: byte)
    requires Sendable(GATEWAY, f)
    ensures Requests(Client.Stamped(f, check)) == [f]
    ensures var w := Serialized(f);
      w != [] && FirmwareStep(w, stale) == Emit(|w|) && Decode(w) == f
  {
    hide Requests, Client.Stamped, Serialized, Encode, Decode, Step, FirmwareStep;
    RequestsAreTheClients([f], [check]);
    assert StampedAll([f], [check]) == Client.Stamped(f, check) + [] == Client.Stamped(f, check);
    SerializedIsEncoded(f);
    DecodeEncode(f);
    StepAtFrame(FIRMWARE, f, []);
    assert Encode(f) + [] == Encode(f);
    StepAgreesIff(Encode(f), stale);
  }

  // ----- Back to the clients -----

  /** What a client is sent for a frame from the serial line is the received slice itself, if it is sent anything. */
  lemma RelayedBytes(t: Table, w: seq<byte>, c: u16)
    requires IsWire(w, GATEWAY.maxDlc, true) && c in t
    ensures var f := Decode(w);
      && f.Consistent()
      && c in Dispatch(t, f)
      && Dispatch(t, f)[c].outbox ==
           t[c].outbox + if f.sid == ADVERTISE_SID || Awaits(t[c], f.sid) then [w] else []
  {
    hide IsWire, Decode, Encode, Serialized;
    EncodeDecode(w, GATEWAY.maxDlc);
    SerializedIsEncoded(Decode(w));
  }

  predicate AllAdverts(frames: seq<Frame>) {
    forall i :: 0 <= i < |frames| ==> frames[i].sid == ADVERTISE_SID
  }

  lemma AdvertQueued(t: Table, f: Frame, c: u16)
    requires Sendable(GATEWAY, f) && f.sid == ADVERTISE_SID && c in t
    ensures c in Dispatch(t, f) && Dispatch(t, f)[c].outbox == t[c].outbox + [Encode(f)]
  {
    hide Serialized, Encode;
    SerializedIsEncoded(f);
  }

  lemma NothingQueued(t: Table, frames: seq<Frame>, c: u16)
    requires frames == [] && c in t
    ensures c in DispatchAll(t, frames) && DispatchAll(t, frames)[c].outbox == t[c].outbox + EncodeEach(frames)
  {
    NothingEncoded(frames);
  }

  lemma OneMoreQueued(t: Table, frames: seq<Frame>, f: Frame, c: u16)
    requires AllSendable(GATEWAY, frames) && Sendable(GATEWAY, f) && f.sid == ADVERTISE_SID && c in t
    requires c in DispatchAll(t, frames) && DispatchAll(t, frames)[c].outbox == t[c].outbox + EncodeEach(frames)
    ensures AllSendable(GATEWAY, frames + [f]) && c in DispatchAll(t, frames + [f])
    ensures DispatchAll(t, frames + [f])[c].outbox == t[c].outbox + EncodeEach(frames + [f])
  {
    hide Encode, EncodeEach, EncodeAll, Dispatch;
    AdvertQueued(DispatchAll(t, frames), f, c);
    SnocEncodeEach(frames, f);
    Associated(t[c].outbox, EncodeEach(frames), [Encode(f)]);
    assert (frames + [f])[..|frames|] == frames;
  }

  /** Broadcasting appends the very bytes of each frame to every session's outgoing queue. */
  lemma {:induction false} AdvertsQueued(t: Table, frames: seq<Frame>, c: u16)
    requires AllSendable(GATEWAY, frames) && AllAdverts(frames) && c in t
    ensures c in DispatchAll(t, frames)
    ensures DispatchAll(t, frames)[c].outbox == t[c].outbox + EncodeEach(frames)
    decreases |frames|
  {
    if frames == [] {
      NothingQueued(t, frames, c);
    } else {
      hide Encode, EncodeEach, DispatchAll;
      var n := |frames| - 1;
      var before, f := frames[..n], frames[n];
      assert frames == before + [f];
      assert AllSendable(GATEWAY, before) && AllAdverts(before) && Sendable(GATEWAY, f) && f.sid == ADVERTISE_SID;
      hide AllSendable, AllAdverts, Sendable;
      AdvertsQueued(t, before, c);
      OneMoreQueued(t, before, f, c);
    }
  }

  /** No header in a stream of frames is over-long for the client. */
  lemma {:induction false} FramesFit(frames: seq<Frame>)
    requires AllSendable(CLIENT, frames)
    ensures Client.HeadersFit(EncodeAll(frames))
    decreases |frames|
  {
    if frames == [] {
    } else {
      hide Step, Encode, EncodeEach, EncodeAll;
      EncodeAllCons(frames);
      var w, tail := Encode(frames[0]), EncodeAll(frames[1..]);
      StepAtFrame(CLIENT, frames[0], tail);
      assert (w + tail)[|w|..] == tail;
      FramesFit(frames[1..]);
    }
  }

  /** A client that is given a front part of a stream of frames delivers the whole ones in it. */
  lemma {:induction false} FrontIsRead(frames: seq<Frame>, chunks: seq<seq<byte>>)
    requires AllSendable(CLIENT, frames) && Flatten(chunks) <= EncodeAll(frames)
    ensures Client.ReadAll([], chunks).wires <= EncodeEach(frames)
    ensures Flatten(chunks) == EncodeAll(frames) ==> Client.ReadAll([], chunks).wires == EncodeEach(frames)
  {
    hide Scan, Step, EncodeAll, EncodeEach, Client.ReadAll, Client.HeadersFit;
    var t := Flatten(chunks);
    assert [] + t == t;
    FramesFit(frames);
    assert t + EncodeAll(frames)[|t|..] == EncodeAll(frames);
    Client.HeadersFitSplit(t, EncodeAll(frames)[|t|..]);
    NothingWaits(CLIENT);
    Client.ReaderIdeal([], chunks);
    var k, u := Stretch(CLIENT, frames, t);
    PrefixOfFrames(CLIENT, frames[..k], u);
    EncodeEachFront(frames, k);
    CleanRoundTrip(CLIENT, frames);
  }

  lemma EncodeEachFront(frames: seq<Frame>, k: nat)
    requires k <= |frames|
    ensures k <= |EncodeEach(frames)| && EncodeEach(frames[..k]) == EncodeEach(frames)[..k]
  {
    hide Encode;
    assert EncodeEach(frames[..k]) == EncodeEach(frames)[..k];
  }

  /**
   * In every run in which no write to a client has failed: whatever the chunks in which it receives the bytes
   * written so far, it delivers the first of the frames sent to it, and all of them once nothing waits to be
   * written. Advertisement or reply, each is one of the slices that came over the serial line since it joined,
   * and no advertisement among those is missing.
   */
  lemma {:induction false} FirmwareToClient(events: seq<Event>, c: u16, chunks: seq<seq<byte>>)
    requires var w := Run(events);
      c in w.table && c in w.links && w.links[c].lost == 0 && Flatten(chunks) == w.links[c].wire
    ensures var w := Run(events); var l := w.links[c];
      && Client.ReadAll([], chunks).wires <= EncodeEach(l.sent)
      && (l.unsent == [] && w.table[c].outbox == [] ==> Client.ReadAll([], chunks).wires == EncodeEach(l.sent))
      && (forall i :: 0 <= i < |l.sent| ==> l.sent[i] in l.seen)
      && Adverts(l.sent) == Adverts(l.seen)
      && |l.seen| <= |w.dispatched| && EncodeEach(l.seen) == w.dispatched[|w.dispatched| - |l.seen|..]
      && w.dispatched <= Scan(GATEWAY, w.serial).wires
  {
    hide Run, Scan, Encode, EncodeAll, EncodeEach, Client.ReadAll, Balanced, SenderOf, ReadOff, Adverts, Sendable;
    EveryRunAccounts(events);
    EveryRunDispatches(events);
    var w := Run(events);
    assert Accounted(w.table[c], w.links[c]) && FromMcu(w.links[c], w.dispatched);
    WireIsFront(w.table[c], w.links[c]);
    SendableToClient(w.links[c].sent);
    FrontIsRead(w.links[c].sent, chunks);
  }

  lemma SendableToClient(frames: seq<Frame>)
    requires AllSendable(GATEWAY, frames)
    ensures AllSendable(CLIENT, frames)
  {
  }

  /** Frames the MCU sends amid text, all of them parsed: each is dispatched once, in order, and nothing else is. */
  lemma {:induction false} EveryMcuFrameDispatched(events: seq<Event>, noise: seq<seq<byte>>, frames: seq<Frame>)
    requires |noise| == |frames| + 1 && forall i :: 0 <= i < |noise| ==> NoSof(noise[i])
    requires AllSendable(GATEWAY, frames)
    requires Run(events).serial == Interleave(noise, frames) && Step(GATEWAY, Run(events).rx) == Wait
    ensures Run(events).dispatched == EncodeEach(frames)
  {
    hide Run, Scan, Step, Interleave, EncodeEach;
    EveryRunDispatches(events);
    NoisyRoundTrip(GATEWAY, noise, frames);
  }

}
