/** Session routing, on values: what each locked operation of the session manager does to the table. */
module Routing {
  import opened Bytes
  import opened Wire
  import opened Encoder

  const NO_SID: byte := 0xFF
  const ADVERTISE_SID: byte := 0x01
  const CIDS: nat := 0x1_0000

  /** A session: the diagnostic SIDs it waits for, its frames for the MCU, and the bytes queued to its client. */
  datatype SessionState = SessionState(requested: seq<byte>, toMcu: seq<Frame>, blocked: bool, outbox: seq<seq<byte>>)

  type Table = map<u16, SessionState>

  predicate IsDiagSid(sid: byte) {
    0x20 <= sid <= 0x26
  }

  /** Despite its name in the source, the oldest SID still waiting, not the latest. */
  function OldestRequestedSid(s: SessionState): byte {
    if s.requested == [] then NO_SID else s.requested[0]
  }

  predicate Awaits(s: SessionState, sid: byte) {
    !s.blocked && OldestRequestedSid(s) != NO_SID && OldestRequestedSid(s) == sid
  }

  function Send(s: SessionState, f: Frame): SessionState
    requires f.dlc <= |f.payload|
  {
    s.(outbox := s.outbox + [Serialized(f)])
  }

  function Answer(s: SessionState, f: Frame): SessionState
    requires f.dlc <= |f.payload|
  {
    if Awaits(s, f.sid) then Send(s, f).(requested := s.requested[1..]) else s
  }

  function Enqueue(s: SessionState, f: Frame): SessionState {
    s.(requested := if IsDiagSid(f.sid) then s.requested + [f.sid] else s.requested, toMcu := s.toMcu + [f])
  }

  function Add(t: Table, cid: u16, outbox: seq<seq<byte>>): Table {
    if cid in t then t else t[cid := SessionState([], [], false, outbox)]
  }

  function Remove(t: Table, cid: u16): Table {
    t - {cid}
  }

  function Forward(t: Table, cid: u16, f: Frame): Table {
    if cid in t then t[cid := Enqueue(t[cid], f)] else t
  }

  function Broadcast(t: Table, f: Frame): Table
    requires f.dlc <= |f.payload|
  {
    map c | c in t :: Send(t[c], f)
  }

  function Route(t: Table, f: Frame): Table
    requires f.dlc <= |f.payload|
  {
    map c | c in t :: Answer(t[c], f)
  }

  /** A frame from the UART: advertisements go to everyone, anything else to the sessions that await its SID. */
  function Dispatch(t: Table, f: Frame): Table
    requires f.dlc <= |f.payload|
  {
    if f.sid == ADVERTISE_SID then Broadcast(t, f) else Route(t, f)
  }

  function DispatchAll(t: Table, frames: seq<Frame>): Table
    requires forall i :: 0 <= i < |frames| ==> frames[i].dlc <= |frames[i].payload|
  {
    if frames == [] then t else Dispatch(DispatchAll(t, frames[..|frames| - 1]), frames[|frames| - 1])
  }

  /** The first session, in ascending CID order from `from` on, that has a frame for the MCU. */
  function NextCid(t: Table, from: nat): (c: Option<u16>)
    ensures c.Some? ==> from <= c.value && c.value in t && t[c.value].toMcu != []
    ensures c.Some? ==> forall k :: k in t && from <= k < c.value ==> t[k].toMcu == []
    ensures c.None? ==> forall k :: k in t && from <= k ==> t[k].toMcu == []
    decreases CIDS - from
  {
    if from >= CIDS then None
    else if from in t && t[from].toMcu != [] then Some(from)
    else NextCid(t, from + 1)
  }

  lemma NextCidIs(t: Table, c: u16)
    requires c in t && t[c].toMcu != []
    requires forall k :: k in t && k < c ==> t[k].toMcu == []
    ensures NextCid(t, 0) == Some(c)
  {
    var n := NextCid(t, 0);
  }

  lemma NoNextCid(t: Table)
    requires forall k :: k in t ==> t[k].toMcu == []
    ensures NextCid(t, 0) == None
  {
  }

  function PopFrom(t: Table, cid: u16): Table
    requires cid in t && t[cid].toMcu != []
  {
    t[cid := t[cid].(toMcu := t[cid].toMcu[1..])]
  }

  /** The next frame for the MCU, if there is one, and the table without it. */
  function PopNext(t: Table): (Option<Frame>, Table) {
    match NextCid(t, 0)
    case None => (None, t)
    case Some(c) => (Some(t[c].toMcu[0]), PopFrom(t, c))
  }

  /** The table with nothing waiting for the MCU, and otherwise as it is. */
  function Drained(t: Table): Table {
    map c | c in t :: t[c].(toMcu := [])
  }

  /** Everything waiting for the MCU: the queues in ascending CID order, each in FIFO order. */
  function Backlog(t: Table, from: nat): seq<Frame>
    decreases CIDS - from
  {
    if from >= CIDS then []
    else (if from in t then t[from].toMcu else []) + Backlog(t, from + 1)
  }

  lemma {:induction false} BacklogSame(t: Table, u: Table, from: nat)
    requires forall k: u16 :: from <= k ==> (k in t <==> k in u) && (k in t ==> t[k].toMcu == u[k].toMcu)
    ensures Backlog(t, from) == Backlog(u, from)
    decreases CIDS - from
  {
    if from < CIDS {
      BacklogSame(t, u, from + 1);
    }
  }

  lemma {:induction false} BacklogEmptyIff(t: Table, from: nat)
    ensures Backlog(t, from) == [] <==> NextCid(t, from) == None
    decreases CIDS - from
  {
    if from < CIDS {
      hide Backlog;
      BacklogStep(t, from);
      BacklogEmptyIff(t, from + 1);
    }
  }

  lemma BacklogStep(t: Table, from: nat)
    requires from < CIDS
    ensures from in t ==> Backlog(t, from) == t[from].toMcu + Backlog(t, from + 1)
    ensures from !in t || t[from].toMcu == [] ==> Backlog(t, from) == Backlog(t, from + 1)
  {
  }

  /** Popping takes the first frame of the backlog and leaves the rest of it. */
  lemma {:induction false} PopTakesFirst(t: Table, from: nat)
    requires NextCid(t, from).Some?
    ensures var c := NextCid(t, from).value;
      Backlog(t, from) == [t[c].toMcu[0]] + Backlog(PopFrom(t, c), from)
    decreases CIDS - from
  {
    var c := NextCid(t, from).value;
    var u := PopFrom(t, c);
    BacklogStep(t, from);
    BacklogStep(u, from);
    if from == c {
      hide Backlog;
      BacklogSame(t, u, from + 1);
      assert t[c].toMcu == [t[c].toMcu[0]] + u[c].toMcu;
    } else {
      hide Backlog;
      PopTakesFirst(t, from + 1);
    }
  }

  /** Exactly the unblocked sessions whose oldest pending SID is the frame's change, each by one pop and one send. */
  lemma RouteTouches(t: Table, f: Frame, c: u16)
    requires f.dlc <= |f.payload| && c in t
    ensures c in Route(t, f)
    ensures Route(t, f)[c] != t[c] <==>
      !t[c].blocked && t[c].requested != [] && t[c].requested[0] == f.sid && f.sid != NO_SID
    ensures Route(t, f)[c] != t[c] ==>
      Route(t, f)[c] == SessionState(t[c].requested[1..], t[c].toMcu, false, t[c].outbox + [Serialized(f)])
  {
  }

  /** Routing as the comment beside it has it: the reply's CID must be the session's own as well. */
  function RouteByCid(t: Table, f: Frame): Table
    requires f.dlc <= |f.payload|
  {
    map c | c in t :: if f.cid / 16 == c then Answer(t[c], f) else t[c]
  }

  lemma AnswerChanges(s: SessionState, f: Frame)
    requires f.dlc <= |f.payload|
    ensures Answer(s, f) != s <==> Awaits(s, f.sid)
  {
    hide Serialized;
    if Awaits(s, f.sid) {
      assert |Answer(s, f).outbox| == |s.outbox| + 1;
    }
  }

  /** The code and its comment agree exactly on frames that no session of another CID awaits. */
  lemma RouteAgreesIff(t: Table, f: Frame)
    requires f.dlc <= |f.payload|
    ensures Route(t, f) == RouteByCid(t, f) <==> forall c :: c in t && Awaits(t[c], f.sid) ==> f.cid / 16 == c
  {
    hide Answer, Awaits;
    forall c | c in t ensures Answer(t[c], f) != t[c] <==> Awaits(t[c], f.sid) {
      AnswerChanges(t[c], f);
    }
    if c :| c in t && Awaits(t[c], f.sid) && f.cid / 16 != c {
      assert Route(t, f)[c] != RouteByCid(t, f)[c];
    }
  }

  /** Two sessions that await the same SID are both answered by one reply, which carries the CID of neither or of one. */
  lemma OneReplyAnswersBoth(f: Frame, a: u16, b: u16)
    requires f.dlc <= |f.payload| && f.sid != NO_SID && a != b
    ensures var s := SessionState([f.sid], [], false, []);
      var t := map[a := s, b := s];
      && Route(t, f)[a].outbox == Route(t, f)[b].outbox == [Serialized(f)]
      && Route(t, f) != RouteByCid(t, f)
  {
    hide Serialized;
    var s := SessionState([f.sid], [], false, []);
    var t := map[a := s, b := s];
    RouteAgreesIff(t, f);
    assert a in t && b in t && Awaits(t[a], f.sid) && Awaits(t[b], f.sid);
  }

  // ----- What a request and its reply do together -----

  /**
   * A session with nothing pending asks and the MCU replies with the same SID: the reply is sent to it exactly
   * if the SID is one from 0x20 to 0x26, and to nobody because of a session that does not exist.
   */
  lemma ReplyComesBackIff(t: Table, cid: u16, request: Frame, reply: Frame)
    requires cid in t && !t[cid].blocked && t[cid].requested == []
    requires reply.dlc <= |reply.payload| && reply.sid == request.sid
    ensures Route(Forward(t, cid, request), reply)[cid].outbox ==
      t[cid].outbox + if 0x20 <= request.sid <= 0x26 then [Serialized(reply)] else []
  {
    hide Serialized;
  }

  /** Forwarding remembers the SID of a frame from 0x20 to 0x26, behind those it has, and of no other. */
  lemma SidRemembered(t: Table, cid: u16, f: Frame)
    requires cid in t
    ensures Forward(t, cid, f)[cid].requested == t[cid].requested + if 0x20 <= f.sid <= 0x26 then [f.sid] else []
    ensures Forward(t, cid, f)[cid].toMcu == t[cid].toMcu + [f]
  {
  }

  lemma NobodyIsCreated(t: Table, cid: u16, f: Frame)
    ensures Forward(t, cid, f).Keys == t.Keys && (cid !in t ==> Forward(t, cid, f) == t)
  {
  }

  /** A frame with SID 0x01 is for everybody, blocked or not; any other only for sessions that are not blocked. */
  lemma DispatchedTo(t: Table, f: Frame, c: u16)
    requires f.dlc <= |f.payload| && c in t
    ensures f.sid == 0x01 ==> Dispatch(t, f)[c] == t[c].(outbox := t[c].outbox + [Serialized(f)])
    ensures f.sid != 0x01 && t[c].requested != [] && t[c].requested[0] == f.sid && f.sid != 0xFF && !t[c].blocked ==>
      Dispatch(t, f)[c].outbox == t[c].outbox + [Serialized(f)] && Dispatch(t, f)[c].requested == t[c].requested[1..]
    ensures f.sid != 0x01 && (t[c].blocked || t[c].requested == [] || t[c].requested[0] != f.sid || f.sid == 0xFF) ==>
      Dispatch(t, f)[c] == t[c]
  {
    hide Serialized;
  }
}
