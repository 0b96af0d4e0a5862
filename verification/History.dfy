/** Every run of the gateway, from the bytes that come in on both sides to the bytes that go out on both sides. */
module History {
  import opened Bytes
  import opened Wire
  import opened Scanner
  import opened RoundTrip
  import opened Encoder
  import opened Gateway
  import opened Routing
  import opened Sessions
  import opened TlsReceiver
  import TlsSender

  /**
   * What may happen next, in any order: clients come, write and go; bytes arrive on the serial line; and each
   * thread takes a turn that ends where it gives up its lock.
   */
  datatype Event =
    | Join(cid: u16)
    | Leave(cid: u16)
    | Arrive(cid: u16, data: seq<byte>)
    | Serve(cid: u16)
    | Deliver(cid: u16, sent: int)
    | Serial(data: seq<byte>)
    | Parse
    | Pop
    | Block(cid: u16, on: bool)

  /**
   * A client's connection: its bytes, read and still unread; the packet being sent to it, what has been written
   * and how much was given up; and, as history, the frames forwarded, popped for the MCU and sent to it, and
   * the frames that have come from the MCU since it joined, and how many had been written to it before.
   */
  datatype Link = Link(
    consumed: seq<byte>, unread: seq<byte>, unsent: seq<byte>, wire: seq<byte>, lost: nat,
    forwarded: seq<Frame>, popped: seq<Frame>, sent: seq<Frame>, seen: seq<Frame>, since: nat)

  /**
   * The sessions and their connections; the serial bytes, received and still to be parsed, and the slices taken
   * from them; and the line to the MCU, with the frames written to it and the CIDs they were popped for.
   */
  datatype World = World(
    table: Table, links: map<u16, Link>,
    serial: seq<byte>, rx: seq<byte>, dispatched: seq<seq<byte>>,
    line: seq<byte>, written: seq<Frame>, owners: seq<u16>)

  const EMPTY: World := World(map[], map[], [], [], [], [], [], [])

  function NewLink(since: nat): Link {
    Link([], [], [], [], 0, [], [], [], [], since)
  }

  // ----- Events -----

  /** The receiving thread takes the frame at the front, if it is there. */
  function Served(l: Link): Link {
    if !HasRequest(l.unread) then l
    else
      var n := OVERHEAD + DlcOf(l.unread);
      l.(consumed := l.consumed + l.unread[..n], unread := l.unread[n..],
         forwarded := l.forwarded + [Decode(l.unread[..n])])
  }

  /** The sending side of a connection, with everything ever queued for it. */
  function SenderOf(s: SessionState, l: Link): TlsSender.Sender {
    TlsSender.Sender(s.outbox, l.unsent, l.wire, EncodeAll(l.sent), l.lost)
  }

  predicate GetsFrame(s: SessionState, f: Frame) {
    f.sid == ADVERTISE_SID || Awaits(s, f.sid)
  }

  function AfterParse(w: World): World {
    match Step(GATEWAY, w.rx)
    case Wait => w
    case Drop => w.(rx := w.rx[1..])
    case Emit(len) =>
      var slice := w.rx[..len];
      SliceIsFrame(w.rx, len);
      var f := Decode(slice);
      w.(rx := w.rx[len..], dispatched := w.dispatched + [slice], table := Dispatch(w.table, f),
         links := map c | c in w.links :: Witnessed(w.links[c], f, c in w.table && GetsFrame(w.table[c], f)))
  }

  function Witnessed(l: Link, f: Frame, gets: bool): Link {
    l.(seen := l.seen + [f], sent := if gets then l.sent + [f] else l.sent)
  }

  lemma SliceIsFrame(buf: seq<byte>, len: nat)
    requires Step(GATEWAY, buf) == Emit(len)
    ensures IsWire(buf[..len], GATEWAY.maxDlc, true) && Encode(Decode(buf[..len])) == buf[..len]
    ensures Sendable(GATEWAY, Decode(buf[..len]))
  {
    hide Step, IsWire, Encode, Decode;
    EmitIff(GATEWAY, buf, len);
    EncodeDecode(buf[..len], GATEWAY.maxDlc);
  }

  function AfterPop(w: World): World {
    match PopNext(w.table)
    case (None, _) => w
    case (Some(f), t) =>
      var c := NextCid(w.table, 0).value;
      w.(table := t, line := w.line + OnLine(f), written := w.written + [f], owners := w.owners + [c],
         links := if c in w.links then w.links[c := w.links[c].(popped := w.links[c].popped + [f])] else w.links)
  }

  function Next(w: World, e: Event): World {
    match e
    case Join(cid) =>
      if cid in w.table then w else w.(table := Add(w.table, cid, []), links := w.links[cid := NewLink(|w.written|)])
    case Leave(cid) => w.(table := Remove(w.table, cid), links := w.links - {cid})
    case Arrive(cid, data) =>
      if cid !in w.links then w else w.(links := w.links[cid := w.links[cid].(unread := w.links[cid].unread + data)])
    case Serve(cid) =>
      if cid !in w.links || !HasRequest(w.links[cid].unread) then w
      else
        var s := w.links[cid].unread;
        w.(table := Forward(w.table, cid, Decode(s[..OVERHEAD + DlcOf(s)])),
           links := w.links[cid := Served(w.links[cid])])
    case Deliver(cid, sent) =>
      if cid !in w.links || cid !in w.table then w
      else
        var s := TlsSender.Next(SenderOf(w.table[cid], w.links[cid]), TlsSender.Turn(sent));
        w.(table := w.table[cid := w.table[cid].(outbox := s.queue)],
           links := w.links[cid := w.links[cid].(unsent := s.unsent, wire := s.wire, lost := s.lost)])
    case Serial(data) => w.(serial := w.serial + data, rx := w.rx + data)
    case Parse => AfterParse(w)
    case Pop => AfterPop(w)
    case Block(cid, on) =>
      if cid in w.table then w.(table := w.table[cid := w.table[cid].(blocked := on)]) else w
  }

  function Run(events: seq<Event>): World {
    if events == [] then EMPTY else Next(Run(events[..|events| - 1]), events[|events| - 1])
  }

  // ----- The account of a session -----

  /** The diagnostic SIDs among the frames, in order. */
  function DiagSids(frames: seq<Frame>): seq<byte> {
    if frames == [] then []
    else
      var n := |frames| - 1;
      DiagSids(frames[..n]) + if IsDiagSid(frames[n].sid) then [frames[n].sid] else []
  }

  /** The SIDs of the replies among the frames sent to a client: everything but advertisements. */
  function ReplySids(frames: seq<Frame>): seq<byte> {
    if frames == [] then []
    else
      var n := |frames| - 1;
      ReplySids(frames[..n]) + if frames[n].sid != ADVERTISE_SID then [frames[n].sid] else []
  }

  function Adverts(frames: seq<Frame>): seq<Frame> {
    if frames == [] then []
    else
      var n := |frames| - 1;
      Adverts(frames[..n]) + if frames[n].sid == ADVERTISE_SID then [frames[n]] else []
  }

  /** The bytes consumed are whole requests, namely these. */
  ghost predicate ReadOff(consumed: seq<byte>, frames: seq<Frame>) {
    forall more: seq<byte> :: Requests(consumed + more) == frames + Requests(more)
  }

  /** What was queued is written, in hand or still queued, in that order; failed writes are all that is missing. */
  predicate Balanced(s: TlsSender.Sender) {
    && |TlsSender.Account(s)| + s.lost == |s.asked|
    && (s.lost == 0 ==> TlsSender.Account(s) == s.asked)
  }

  ghost predicate Accounted(s: SessionState, l: Link) {
    && ReplySids(l.sent) + s.requested == DiagSids(l.forwarded)
    && l.popped + s.toMcu == l.forwarded
    && ReadOff(l.consumed, l.forwarded) && AllSendable(GATEWAY, l.forwarded)
    && Balanced(SenderOf(s, l)) && AllSendable(GATEWAY, l.sent)
    && Adverts(l.sent) == Adverts(l.seen)
  }

  lemma SnocSids(frames: seq<Frame>, f: Frame)
    ensures DiagSids(frames + [f]) == DiagSids(frames) + if IsDiagSid(f.sid) then [f.sid] else []
    ensures ReplySids(frames + [f]) == ReplySids(frames) + if f.sid != ADVERTISE_SID then [f.sid] else []
    ensures Adverts(frames + [f]) == Adverts(frames) + if f.sid == ADVERTISE_SID then [f] else []
  {
    assert (frames + [f])[..|frames|] == frames;
  }

  lemma SnocEncodeEach(frames: seq<Frame>, f: Frame)
    ensures EncodeEach(frames + [f]) == EncodeEach(frames) + [Encode(f)]
    ensures EncodeAll(frames + [f]) == EncodeAll(frames) + Encode(f)
  {
    hide Encode;
    assert EncodeEach(frames + [f]) == EncodeEach(frames) + [Encode(f)];
    FlattenSnoc(EncodeEach(frames), Encode(f));
  }

  lemma NewAccounted(since: nat)
    ensures Accounted(SessionState([], [], false, []), NewLink(since))
  {
    hide Requests;
    forall more: seq<byte> ensures Requests([] + more) == [] + Requests(more) {
      assert [] + more == more;
    }
  }

  lemma ReadOneMore(consumed: seq<byte>, frames: seq<Frame>, unread: seq<byte>)
    requires ReadOff(consumed, frames) && HasRequest(unread)
    ensures var n := OVERHEAD + DlcOf(unread); ReadOff(consumed + unread[..n], frames + [Decode(unread[..n])])
  {
    hide Requests, Decode, DlcOf;
    var n := OVERHEAD + DlcOf(unread);
    var w := unread[..n];
    forall more: seq<byte> ensures Requests(consumed + w + more) == frames + [Decode(w)] + Requests(more) {
      FrontRequest(unread, more);
      assert consumed + w + more == consumed + (w + more);
      assert frames + ([Decode(w)] + Requests(more)) == frames + [Decode(w)] + Requests(more);
    }
  }

  /** A whole request in front of any bytes is the first one read. */
  lemma FrontRequest(s: seq<byte>, more: seq<byte>)
    requires HasRequest(s)
    ensures var w := s[..OVERHEAD + DlcOf(s)]; Requests(w + more) == [Decode(w)] + Requests(more)
  {
    hide Decode, Le16;
    var n := OVERHEAD + DlcOf(s);
    var w := s[..n];
    assert (w + more)[3] == s[3] && (w + more)[4] == s[4];
    assert (w + more)[..n] == w && (w + more)[n..] == more;
  }

  lemma ServeAccounted(s: SessionState, l: Link)
    requires Accounted(s, l) && HasRequest(l.unread)
    ensures Accounted(Enqueue(s, Decode(l.unread[..OVERHEAD + DlcOf(l.unread)])), Served(l))
  {
    hide DiagSids, ReplySids, Adverts, Decode, ReadOff, Balanced, Sendable, SenderOf, DlcOf;
    var f := Decode(l.unread[..OVERHEAD + DlcOf(l.unread)]);
    SnocSids(l.forwarded, f);
    ReadOneMore(l.consumed, l.forwarded, l.unread);
    RequestsSendable(l.unread);
    SameSender(s, l, Enqueue(s, f), Served(l));
    assert l.popped + (s.toMcu + [f]) == l.forwarded + [f];
    assert ReplySids(l.sent) + (s.requested + [f.sid]) == DiagSids(l.forwarded) + [f.sid];
  }

  lemma SameSender(s: SessionState, l: Link, t: SessionState, m: Link)
    requires t.outbox == s.outbox && m.unsent == l.unsent && m.wire == l.wire && m.lost == l.lost && m.sent == l.sent
    ensures SenderOf(t, m) == SenderOf(s, l)
  {
  }

  lemma PopAccounted(s: SessionState, l: Link)
    requires Accounted(s, l) && s.toMcu != []
    ensures Accounted(s.(toMcu := s.toMcu[1..]), l.(popped := l.popped + [s.toMcu[0]]))
    ensures Sendable(GATEWAY, s.toMcu[0])
  {
    hide DiagSids, ReplySids, Adverts, ReadOff, Balanced, Sendable, SenderOf;
    var t, m := s.(toMcu := s.toMcu[1..]), l.(popped := l.popped + [s.toMcu[0]]);
    SameSender(s, l, t, m);
    assert l.popped + [s.toMcu[0]] + s.toMcu[1..] == l.popped + s.toMcu;
    assert l.forwarded[|l.popped|] == s.toMcu[0];
  }

  /** One more frame queued for the client is one more frame asked of the sender. */
  lemma QueuedBalanced(s: SessionState, l: Link, f: Frame)
    requires Balanced(SenderOf(s, l)) && Sendable(GATEWAY, f)
    ensures Balanced(SenderOf(Send(s, f), l.(sent := l.sent + [f])))
  {
    hide Serialized, Encode, TlsSender.Account, EncodeAll;
    SnocEncodeEach(l.sent, f);
    SerializedIsEncoded(f);
    TlsSender.NextAccount(SenderOf(s, l), TlsSender.Enqueue(Encode(f)));
  }

  lemma SentAccounted(s: SessionState, l: Link, f: Frame)
    requires Accounted(s, l) && Sendable(GATEWAY, f) && GetsFrame(s, f)
    ensures Accounted(if f.sid == ADVERTISE_SID then Send(s, f) else Answer(s, f), Witnessed(l, f, true))
  {
    hide DiagSids, ReplySids, Adverts, ReadOff, Balanced, SenderOf, Serialized;
    var m := Witnessed(l, f, true);
    SnocSids(l.sent, f);
    SnocSids(l.seen, f);
    QueuedBalanced(s, l, f);
    SameSender(Send(s, f), l.(sent := l.sent + [f]), Send(s, f), m);
    if f.sid != ADVERTISE_SID {
      SameSender(Send(s, f), m, Answer(s, f), m);
      assert ReplySids(l.sent) + [f.sid] + s.requested[1..] == ReplySids(l.sent) + s.requested;
    }
  }

  lemma DeliverAccounted(s: SessionState, l: Link, sent: int)
    requires Accounted(s, l)
    ensures var t := TlsSender.Next(SenderOf(s, l), TlsSender.Turn(sent));
      Accounted(s.(outbox := t.queue), l.(unsent := t.unsent, wire := t.wire, lost := t.lost))
  {
    hide DiagSids, ReplySids, Adverts, ReadOff, Sendable, TlsSender.Account, EncodeAll;
    TlsSender.NextAccount(SenderOf(s, l), TlsSender.Turn(sent));
  }

  // ----- The account of the gateway -----

  ghost predicate SessionsAccounted(w: World) {
    && w.links.Keys == w.table.Keys
    && forall c :: c in w.table ==> Accounted(w.table[c], w.links[c])
  }

  /** The slices dispatched, then those a scan of the unparsed bytes would take, are those of all serial bytes. */
  predicate ParserAccounted(w: World) {
    Scan(GATEWAY, w.serial) == Outcome(w.dispatched + Scan(GATEWAY, w.rx).wires, Scan(GATEWAY, w.rx).rest)
  }

  predicate LineAccounted(w: World) {
    w.line == EncodeAll(w.written) && AllSendable(GATEWAY, w.written)
  }

  /** The frames whose owner is c. */
  function Owned(frames: seq<Frame>, owners: seq<u16>, c: u16): seq<Frame>
    requires |owners| == |frames|
  {
    if frames == [] then []
    else
      var n := |frames| - 1;
      Owned(frames[..n], owners[..n], c) + if owners[n] == c then [frames[n]] else []
  }

  /** The frames popped for a client are those written for it since it joined. */
  predicate HasItsShare(l: Link, c: u16, written: seq<Frame>, owners: seq<u16>) {
    && |owners| == |written| && l.since <= |written|
    && l.popped == Owned(written[l.since..], owners[l.since..], c)
  }

  /** Each frame on the line was popped for the CID that owns it: the line is an interleaving of what was popped. */
  predicate LineShared(w: World) {
    |w.owners| == |w.written| && forall c :: c in w.links ==> HasItsShare(w.links[c], c, w.written, w.owners)
  }

  /** No client was sent anything but what came from the MCU since it joined. */
  predicate SentFromMcu(w: World) {
    forall c :: c in w.links ==> FromMcu(w.links[c], w.dispatched)
  }

  predicate FromMcu(l: Link, dispatched: seq<seq<byte>>) {
    && |l.seen| <= |dispatched| && EncodeEach(l.seen) == dispatched[|dispatched| - |l.seen|..]
    && forall i :: 0 <= i < |l.sent| ==> l.sent[i] in l.seen
  }

  ghost predicate Inv(w: World) {
    SessionsAccounted(w) && ParserAccounted(w) && LineAccounted(w) && LineShared(w) && SentFromMcu(w)
  }

  lemma ParseKeepsSessions(w: World)
    requires SessionsAccounted(w)
    ensures SessionsAccounted(AfterParse(w))
  {
    hide Accounted, Step, Decode, GetsFrame, Answer, Send;
    if Step(GATEWAY, w.rx).Emit? {
      var len := Step(GATEWAY, w.rx).len;
      SliceIsFrame(w.rx, len);
      var f := Decode(w.rx[..len]);
      var v := AfterParse(w);
      forall c | c in w.table ensures Accounted(v.table[c], v.links[c]) {
        SessionDispatched(w.table[c], w.links[c], f);
      }
    }
  }

  /** A frame from the MCU, seen from one session. */
  lemma SessionDispatched(s: SessionState, l: Link, f: Frame)
    requires Accounted(s, l) && Sendable(GATEWAY, f)
    ensures Accounted(
      if f.sid == ADVERTISE_SID then Send(s, f) else Answer(s, f),
      Witnessed(l, f, GetsFrame(s, f)))
  {
    hide Accounted, Answer, Send, GetsFrame;
    if GetsFrame(s, f) {
      SentAccounted(s, l, f);
    } else {
      NothingSent(s, l, f);
    }
  }

  lemma NothingSent(s: SessionState, l: Link, f: Frame)
    requires f.Consistent() && !GetsFrame(s, f) && Accounted(s, l)
    ensures f.sid != ADVERTISE_SID && Answer(s, f) == s && Accounted(s, Witnessed(l, f, false))
  {
    hide DiagSids, ReplySids, Adverts, ReadOff, Balanced, SenderOf, Serialized, Sendable;
    SnocSids(l.seen, f);
    SameSender(s, l, s, Witnessed(l, f, false));
    assert Adverts(l.seen) + [] == Adverts(l.seen);
  }

  lemma ParseKeepsParser(w: World)
    requires ParserAccounted(w)
    ensures ParserAccounted(AfterParse(w))
  {
    hide Step, Scan, Decode, Dispatch;
    match Step(GATEWAY, w.rx) {
      case Wait =>
      case Drop => ScanDrop(GATEWAY, w.rx);
      case Emit(len) =>
        ScanEmit(GATEWAY, w.rx, len);
        var o := Scan(GATEWAY, w.rx[len..]);
        assert w.dispatched + ([w.rx[..len]] + o.wires) == w.dispatched + [w.rx[..len]] + o.wires;
    }
  }

  lemma SerialKeepsParser(w: World, data: seq<byte>)
    requires ParserAccounted(w)
    ensures ParserAccounted(Next(w, Serial(data)))
  {
    hide Scan;
    ScanSplit(GATEWAY, w.serial, data);
    ScanSplit(GATEWAY, w.rx, data);
    var o := Scan(GATEWAY, w.rx);
    var p := Scan(GATEWAY, o.rest + data);
    assert w.dispatched + o.wires + p.wires == w.dispatched + (o.wires + p.wires);
  }

  lemma ParseKeepsSent(w: World)
    requires SentFromMcu(w)
    ensures SentFromMcu(AfterParse(w))
  {
    hide Step, Encode, Decode, Dispatch, GetsFrame, FromMcu, Witnessed;
    if Step(GATEWAY, w.rx).Emit? {
      var len := Step(GATEWAY, w.rx).len;
      SliceIsFrame(w.rx, len);
      var f := Decode(w.rx[..len]);
      forall c | c in w.links ensures FromMcu(AfterParse(w).links[c], AfterParse(w).dispatched) {
        WitnessedFromMcu(w.links[c], w.dispatched, f, c in w.table && GetsFrame(w.table[c], f));
      }
    }
  }

  lemma WitnessedFromMcu(l: Link, dispatched: seq<seq<byte>>, f: Frame, gets: bool)
    requires FromMcu(l, dispatched)
    ensures FromMcu(Witnessed(l, f, gets), dispatched + [Encode(f)])
  {
    hide Encode, EncodeEach, EncodeAll;
    SnocEncodeEach(l.seen, f);
    var m, d := Witnessed(l, f, gets), dispatched + [Encode(f)];
    assert d[|d| - |m.seen|..] == dispatched[|dispatched| - |l.seen|..] + [Encode(f)];
    assert m.seen[|l.seen|] == f;
    assert forall i :: 0 <= i < |l.seen| ==> m.seen[i] == l.seen[i];
  }

  lemma PopKeepsInv(w: World)
    requires SessionsAccounted(w) && LineAccounted(w)
    ensures SessionsAccounted(AfterPop(w)) && LineAccounted(AfterPop(w))
  {
    hide Accounted, NextCid, EncodeAll, Serialized, Sendable;
    if NextCid(w.table, 0).Some? {
      var c := NextCid(w.table, 0).value;
      PopAccounted(w.table[c], w.links[c]);
      OneMoreOnLine(w.written, w.table[c].toMcu[0]);
    }
  }

  lemma OwnedSnoc(frames: seq<Frame>, owners: seq<u16>, f: Frame, owner: u16, c: u16)
    requires |owners| == |frames|
    ensures Owned(frames + [f], owners + [owner], c) == Owned(frames, owners, c) + if owner == c then [f] else []
  {
    assert (frames + [f])[..|frames|] == frames && (owners + [owner])[..|owners|] == owners;
  }

  lemma ShareGrows(l: Link, c: u16, written: seq<Frame>, owners: seq<u16>, f: Frame, owner: u16)
    requires HasItsShare(l, c, written, owners)
    ensures HasItsShare(if owner == c then l.(popped := l.popped + [f]) else l, c, written + [f], owners + [owner])
  {
    hide Owned;
    OwnedSnoc(written[l.since..], owners[l.since..], f, owner, c);
    assert (written + [f])[l.since..] == written[l.since..] + [f];
    assert (owners + [owner])[l.since..] == owners[l.since..] + [owner];
    assert l.popped + [] == l.popped;
  }

  lemma PopKeepsShares(w: World)
    requires LineShared(w)
    ensures LineShared(AfterPop(w))
  {
    hide HasItsShare, NextCid, PopFrom, OnLine;
    var v := AfterPop(w);
    if PopNext(w.table).0.Some? {
      var f, owner := PopNext(w.table).0.value, NextCid(w.table, 0).value;
      forall c | c in v.links ensures HasItsShare(v.links[c], c, v.written, v.owners) {
        ShareGrows(w.links[c], c, w.written, w.owners, f, owner);
      }
    }
  }

  lemma ParseKeepsShares(w: World)
    requires LineShared(w)
    ensures LineShared(AfterParse(w))
  {
    hide HasItsShare, Step, Decode, Dispatch, GetsFrame;
    var v := AfterParse(w);
    forall c | c in v.links ensures HasItsShare(v.links[c], c, v.written, v.owners) {
      SameShare(w.links[c], v.links[c], c, w.written, w.owners);
    }
  }

  lemma SameShare(l: Link, m: Link, c: u16, written: seq<Frame>, owners: seq<u16>)
    requires HasItsShare(l, c, written, owners) && m.since == l.since && m.popped == l.popped
    ensures HasItsShare(m, c, written, owners)
  {
  }

  lemma NoShareYet(c: u16, written: seq<Frame>, owners: seq<u16>)
    requires |owners| == |written|
    ensures HasItsShare(NewLink(|written|), c, written, owners)
  {
  }

  lemma SharesUnchanged(w: World, e: Event)
    requires LineShared(w) && !e.Parse? && !e.Pop?
    ensures LineShared(Next(w, e))
  {
    hide HasItsShare, HasRequest, Decode, Forward, TlsSender.Next;
    var v := Next(w, e);
    forall c | c in v.links ensures HasItsShare(v.links[c], c, v.written, v.owners) {
      if c in w.links && v.links[c].since == w.links[c].since && v.links[c].popped == w.links[c].popped {
        SameShare(w.links[c], v.links[c], c, w.written, w.owners);
      } else {
        assert v.links[c] == NewLink(|w.written|);
        NoShareYet(c, w.written, w.owners);
      }
    }
  }

  lemma OneMoreOnLine(written: seq<Frame>, f: Frame)
    requires Sendable(GATEWAY, f)
    ensures EncodeAll(written + [f]) == EncodeAll(written) + OnLine(f)
  {
    hide Serialized, Encode, EncodeAll;
    SnocEncodeEach(written, f);
    SerializedIsEncoded(f);
  }

  lemma OtherEventsKeepSessions(w: World, e: Event)
    requires SessionsAccounted(w) && !e.Parse? && !e.Pop? && !e.Serve? && !e.Deliver?
    ensures SessionsAccounted(Next(w, e))
  {
    hide Accounted;
    match e {
      case Join(cid) => NewAccounted(|w.written|);
      case Arrive(cid, data) =>
        if cid in w.links {
          ArriveAccounted(w.table[cid], w.links[cid], data);
        }
      case Block(cid, on) =>
        if cid in w.table {
          BlockAccounted(w.table[cid], w.links[cid], on);
        }
      case _ =>
    }
  }

  lemma ArriveAccounted(s: SessionState, l: Link, data: seq<byte>)
    requires Accounted(s, l)
    ensures Accounted(s, l.(unread := l.unread + data))
  {
    hide DiagSids, ReplySids, Adverts, ReadOff, Balanced, Sendable, SenderOf;
    SameSender(s, l, s, l.(unread := l.unread + data));
  }

  lemma BlockAccounted(s: SessionState, l: Link, on: bool)
    requires Accounted(s, l)
    ensures Accounted(s.(blocked := on), l)
  {
    hide DiagSids, ReplySids, Adverts, ReadOff, Balanced, Sendable, SenderOf;
    SameSender(s, l, s.(blocked := on), l);
  }

  lemma TurnsKeepSessions(w: World, e: Event)
    requires SessionsAccounted(w) && (e.Serve? || e.Deliver?)
    ensures SessionsAccounted(Next(w, e))
  {
    hide Accounted, HasRequest, Decode, DlcOf, Enqueue, Served, TlsSender.Next, SenderOf;
    match e {
      case Serve(cid) =>
        if cid in w.links && HasRequest(w.links[cid].unread) {
          ServeAccounted(w.table[cid], w.links[cid]);
        }
      case Deliver(cid, sent) =>
        if cid in w.table {
          DeliverAccounted(w.table[cid], w.links[cid], sent);
        }
    }
  }

  lemma SentUnchanged(w: World, e: Event)
    requires SentFromMcu(w) && !e.Parse?
    ensures SentFromMcu(Next(w, e))
  {
    hide FromMcu, HasRequest, Decode, Forward, TlsSender.Next, NextCid;
    var v := Next(w, e);
    forall c | c in v.links ensures FromMcu(v.links[c], v.dispatched) {
      if c in w.links && v.links[c].seen == w.links[c].seen && v.links[c].sent == w.links[c].sent {
        SameFromMcu(w.links[c], v.links[c], w.dispatched);
      } else {
        assert v.links[c] == NewLink(|w.written|);
        NothingFromMcu(|w.written|, w.dispatched);
      }
    }
  }

  lemma SameFromMcu(l: Link, m: Link, dispatched: seq<seq<byte>>)
    requires FromMcu(l, dispatched) && m.seen == l.seen && m.sent == l.sent
    ensures FromMcu(m, dispatched)
  {
  }

  lemma NothingFromMcu(since: nat, dispatched: seq<seq<byte>>)
    ensures FromMcu(NewLink(since), dispatched)
  {
    assert EncodeEach([]) == dispatched[|dispatched|..];
  }

  /** Every turn of every thread keeps the whole account. */
  lemma {:induction false} StepKeepsInv(w: World, e: Event)
    requires Inv(w)
    ensures Inv(Next(w, e))
  {
    hide SessionsAccounted, ParserAccounted, LineAccounted, LineShared, SentFromMcu, AfterParse, AfterPop;
    match e {
      case Parse =>
        ParseKeepsSessions(w);
        ParseKeepsParser(w);
        ParseKeepsSent(w);
        ParseKeepsLine(w);
        ParseKeepsShares(w);
      case Pop =>
        PopKeepsInv(w);
        PopKeepsParser(w);
        PopKeepsShares(w);
        SentUnchanged(w, e);
      case Serial(data) =>
        SerialKeepsParser(w, data);
        RestUnchanged(w, e);
      case _ =>
        RestUnchanged(w, e);
    }
  }

  lemma ParseKeepsLine(w: World)
    requires LineAccounted(w)
    ensures LineAccounted(AfterParse(w))
  {
    hide Step, Decode, Dispatch, EncodeAll;
  }

  lemma PopKeepsParser(w: World)
    requires ParserAccounted(w)
    ensures ParserAccounted(AfterPop(w))
  {
    hide Scan, NextCid;
  }

  lemma RestUnchanged(w: World, e: Event)
    requires Inv(w) && !e.Parse? && !e.Pop?
    ensures SessionsAccounted(Next(w, e)) && LineAccounted(Next(w, e)) && LineShared(Next(w, e)) && SentFromMcu(Next(w, e))
    ensures !e.Serial? ==> ParserAccounted(Next(w, e))
  {
    hide SessionsAccounted, SentFromMcu, LineShared, Scan, EncodeAll, HasRequest, Decode, Forward, TlsSender.Next;
    SentUnchanged(w, e);
    SharesUnchanged(w, e);
    if e.Serve? || e.Deliver? {
      TurnsKeepSessions(w, e);
    } else {
      OtherEventsKeepSessions(w, e);
    }
  }

  /**
   * Over every run, from nothing. For each live session: the SIDs of the replies sent, followed by those still
   * awaited, are the diagnostic SIDs it asked for, in order; the frames popped, followed by those queued, are
   * the frames forwarded, and these are the requests in the bytes read from it; written, in hand and queued
   * bytes are the encodings of the frames sent to it, unless a write failed; and of all that came from the MCU
   * since it joined it was sent every advertisement. On the serial side: the slices
   * dispatched are those of one scan of everything received; the line carries the encodings of the frames
   * written, each of them written for one CID, and those written for a session since it joined are exactly the
   * frames popped for it, in order.
   */
  lemma {:induction false} EveryRunAccounts(events: seq<Event>)
    ensures Inv(Run(events))
  {
    if events == [] {
      NothingYet();
    } else {
      hide Inv, Next;
      EveryRunAccounts(events[..|events| - 1]);
      StepKeepsInv(Run(events[..|events| - 1]), events[|events| - 1]);
    }
  }

  lemma NothingYet()
    ensures Inv(EMPTY)
  {
    assert EncodeEach([]) == [];
  }

  lemma {:induction false} BacklogSendable(t: Table, from: nat)
    requires forall c :: c in t ==> AllSendable(GATEWAY, t[c].toMcu)
    ensures AllSendable(GATEWAY, Backlog(t, from))
    decreases CIDS - from
  {
    if from < CIDS {
      BacklogSendable(t, from + 1);
    }
  }

  /** Whatever bytes clients send and whatever has happened, no frame waiting for the MCU is one the encoder refuses. */
  lemma {:induction false} EveryRunQueuesSendable(events: seq<Event>)
    ensures AllSendable(GATEWAY, Backlog(Run(events).table, 0))
  {
    hide Run, Backlog, Sendable, Balanced, ReadOff;
    EveryRunAccounts(events);
    var w := Run(events);
    forall c | c in w.table ensures AllSendable(GATEWAY, w.table[c].toMcu) {
      var l := w.links[c];
      assert Accounted(w.table[c], l);
      assert forall i :: 0 <= i < |w.table[c].toMcu| ==> w.table[c].toMcu[i] == l.forwarded[|l.popped| + i];
    }
    BacklogSendable(w.table, 0);
  }

  /** In every run: what is forwarded for a client, and what it still has to say, are the requests in all its bytes. */
  lemma {:induction false} EveryRunReads(events: seq<Event>, c: u16)
    requires c in Run(events).table
    ensures c in Run(events).links
    ensures var l := Run(events).links[c]; l.forwarded + Requests(l.unread) == Requests(l.consumed + l.unread)
  {
    hide Run, Requests, Balanced, Sendable;
    EveryRunAccounts(events);
    assert Accounted(Run(events).table[c], Run(events).links[c]);
  }

  /** In every run the slices dispatched are the first frames of everything received, and all of them once it is parsed. */
  lemma {:induction false} EveryRunDispatches(events: seq<Event>)
    ensures var w := Run(events);
      && w.dispatched <= Scan(GATEWAY, w.serial).wires
      && (Step(GATEWAY, w.rx) == Wait ==> w.dispatched == Scan(GATEWAY, w.serial).wires)
  {
    hide Run, Scan, Step, SessionsAccounted, LineShared, SentFromMcu;
    EveryRunAccounts(events);
    var w := Run(events);
    if Step(GATEWAY, w.rx) == Wait {
      ScanWait(GATEWAY, w.rx);
      assert w.dispatched + [] == w.dispatched;
    }
  }

  /** The frames the pops of a run have found, each with the CID of the session that had it. */
  function Pops(events: seq<Event>): seq<(u16, Frame)> {
    if events == [] then []
    else
      var n := |events| - 1;
      var t := Run(events[..n]).table;
      var c := NextCid(t, 0);
      Pops(events[..n]) + if events[n].Pop? && c.Some? then [(c.value, t[c.value].toMcu[0])] else []
  }

  /** In every run the frames written are those the pops have found, one for each, with their CIDs. */
  lemma {:induction false} EveryRunWrites(events: seq<Event>)
    ensures var w := Run(events);
      && |Pops(events)| == |w.written| == |w.owners|
      && forall i :: 0 <= i < |w.written| ==> Pops(events)[i] == (w.owners[i], w.written[i])
  {
    if events != [] {
      hide Run;
      var n := |events| - 1;
      EveryRunWrites(events[..n]);
      RunSnoc(events);
      WritesOf(Run(events[..n]), events[n]);
    }
  }

  lemma RunSnoc(events: seq<Event>)
    requires events != []
    ensures Run(events) == Next(Run(events[..|events| - 1]), events[|events| - 1])
  {
    hide Next;
  }

  lemma WritesOf(w: World, e: Event)
    ensures var v := Next(w, e); var c := NextCid(w.table, 0);
      && v.written == w.written + (if e.Pop? && c.Some? then [w.table[c.value].toMcu[0]] else [])
      && v.owners == w.owners + if e.Pop? && c.Some? then [c.value] else []
  {
    hide NextCid, PopFrom, OnLine, HasRequest, Decode, Forward, Step, TlsSender.Next;
  }

  /** A pop in a run does what a turn of the worker does: the same table, and the same bytes on the line. */
  method PopBySendNext(uart: UartTransport, ghost w: World)
    requires uart.Valid() && AllReadable(uart.Pending())
    requires w.table == uart.manager.GetTable() && w.line == uart.line
    modifies uart, uart.manager.Objects()
    ensures uart.manager.GetTable() == Next(w, Pop).table && uart.line == Next(w, Pop).line
  {
    hide PopNext, OnLine, SessionManager.GetTable;
    PopOf(w);
    var sent := uart.SendNext();
  }

  lemma PopOf(w: World)
    ensures Next(w, Pop).table == PopNext(w.table).1
    ensures match PopNext(w.table).0
      case None => Next(w, Pop).line == w.line
      case Some(f) => Next(w, Pop).line == w.line + OnLine(f)
  {
    hide NextCid, PopFrom, OnLine;
  }
}
