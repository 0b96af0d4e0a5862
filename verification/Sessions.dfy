/** The session manager and its sessions, as objects; each locked method is proved against the table operation. */
module Sessions {
  import opened Bytes
  import opened Wire
  import opened Encoder
  import opened Routing
  import TlsSender

  class Session {
    const cid: u16
    const transport: TlsSender.TlsTransport
    var requestedSids: seq<byte>
    var toMcu: seq<Frame>
    var blocked: bool

    function State(): SessionState
      reads this, transport
    {
      SessionState(requestedSids, toMcu, blocked, transport.txQueue)
    }

    constructor (cid: u16, transport: TlsSender.TlsTransport)
      ensures this.cid == cid && this.transport == transport
      ensures requestedSids == [] && toMcu == [] && !blocked
    {
      this.cid, this.transport := cid, transport;
      requestedSids, toMcu, blocked := [], [], false;
    }

    method UpdateLastRequestedSid(sid: byte)
      modifies this
      ensures State() == old(State()).(requested := old(requestedSids) + [sid])
    {
      requestedSids := requestedSids + [sid];
    }

    method GetLastRequestedSid() returns (sid: byte)
      ensures sid == OldestRequestedSid(State())
    {
      if requestedSids == [] {
        return NO_SID;
      }
      sid := requestedSids[0];
    }

    method PopRequestedSid()
      modifies this
      ensures State() == old(State()).(requested := if old(requestedSids) == [] then [] else old(requestedSids)[1..])
    {
      if requestedSids != [] {
        requestedSids := requestedSids[1..];
      }
    }

    method EnqueueToMcu(f: Frame)
      modifies this
      ensures State() == old(State()).(toMcu := old(toMcu) + [f])
    {
      toMcu := toMcu + [f];
    }

    method PopMcuFrame() returns (out: Option<Frame>)
      modifies this
      ensures old(toMcu) == [] ==> out == None && State() == old(State())
      ensures old(toMcu) != [] ==> out == Some(old(toMcu)[0]) && State() == old(State()).(toMcu := old(toMcu)[1..])
    {
      if toMcu == [] {
        return None;
      }
      out := Some(toMcu[0]);
      toMcu := toMcu[1..];
    }

    method SetBlocked(b: bool)
      modifies this
      ensures State() == old(State()).(blocked := b)
    {
      blocked := b;
    }

    method SendFrame(f: Frame)
      requires f.dlc <= |f.payload|
      modifies transport
      ensures State() == Send(old(State()), f)
    {
      var data := BuildFrame(f.sid, f.kind, To(f.payload), f.dlc, f.cid);
      transport.SendData(data);
    }

    /** A client's frame: its SID is remembered if it calls for a reply, and it waits for the MCU. */
    method TakeRequest(f: Frame)
      modifies this
      ensures State() == Enqueue(old(State()), f)
    {
      if IsDiagSid(f.sid) {
        UpdateLastRequestedSid(f.sid);
      }
      EnqueueToMcu(f);
    }

    /** One turn of the routing loop. */
    method AnswerIfAwaited(f: Frame)
      requires f.dlc <= |f.payload|
      modifies this, transport
      ensures State() == Answer(old(State()), f)
    {
      if blocked {
        return;
      }
      var expected := GetLastRequestedSid();
      if expected != NO_SID && expected == f.sid {
        SendFrame(f);
        PopRequestedSid();
      }
    }
  }

  /** The smallest CID of a non-empty set: where an ordered map's iteration stands. */
  lemma {:induction false} Smallest(cids: set<u16>) returns (m: u16)
    requires cids != {}
    ensures m in cids && forall d :: d in cids ==> m <= d
    decreases |cids|
  {
    m :| m in cids;
    var others := cids - {m};
    if others != {} {
      var c := Smallest(others);
      assert forall d :: d in cids ==> d == m || d in others;
      if c < m {
        m := c;
      }
    }
  }

  /** The session at which an ordered iteration over these stands. */
  method Front(cids: set<u16>) returns (c: u16)
    requires cids != {}
    ensures c in cids && forall d :: d in cids ==> c <= d
  {
    ghost var m := Smallest(cids);
    c :| c in cids && forall d :: d in cids ==> c <= d;
  }

  // ----- Loops over the sessions: which have had their turn -----

  predicate BroadcastSoFar(before: Table, now: Table, todo: set<u16>, f: Frame)
    requires f.dlc <= |f.payload|
  {
    now.Keys == before.Keys && forall c :: c in before ==> now[c] == if c in todo then before[c] else Send(before[c], f)
  }

  lemma BroadcastStart(before: Table, f: Frame)
    requires f.dlc <= |f.payload|
    ensures BroadcastSoFar(before, before, before.Keys, f)
  {
  }

  lemma BroadcastStep(before: Table, now: Table, todo: set<u16>, f: Frame, c: u16)
    requires f.dlc <= |f.payload| && BroadcastSoFar(before, now, todo, f) && c in todo && c in before
    ensures c in now && BroadcastSoFar(before, now[c := Send(now[c], f)], todo - {c}, f)
  {
    hide Send;
  }

  lemma BroadcastEnd(before: Table, now: Table, f: Frame)
    requires f.dlc <= |f.payload| && BroadcastSoFar(before, now, {}, f)
    ensures now == Broadcast(before, f)
  {
    hide Send;
  }

  predicate RoutedSoFar(before: Table, now: Table, todo: set<u16>, f: Frame)
    requires f.dlc <= |f.payload|
  {
    now.Keys == before.Keys && forall c :: c in before ==> now[c] == if c in todo then before[c] else Answer(before[c], f)
  }

  lemma RouteStart(before: Table, f: Frame)
    requires f.dlc <= |f.payload|
    ensures RoutedSoFar(before, before, before.Keys, f)
  {
  }

  lemma RouteStep(before: Table, now: Table, todo: set<u16>, f: Frame, c: u16)
    requires f.dlc <= |f.payload| && RoutedSoFar(before, now, todo, f) && c in todo && c in before
    ensures c in now && RoutedSoFar(before, now[c := Answer(now[c], f)], todo - {c}, f)
  {
    hide Answer;
  }

  lemma RouteEnd(before: Table, now: Table, f: Frame)
    requires f.dlc <= |f.payload| && RoutedSoFar(before, now, {}, f)
    ensures now == Route(before, f)
  {
    hide Answer;
  }

  /** The sessions passed over had nothing for the MCU and come before those still to be asked. */
  predicate PassedOver(t: Table, todo: set<u16>) {
    forall c :: c in t && c !in todo ==> t[c].toMcu == [] && forall d :: d in todo ==> c < d
  }

  lemma NonePassed(t: Table)
    ensures PassedOver(t, t.Keys)
  {
  }

  lemma PassStep(t: Table, todo: set<u16>, c: u16)
    requires PassedOver(t, todo) && c in todo && c in t && t[c].toMcu == [] && forall d :: d in todo ==> c <= d
    ensures PassedOver(t, todo - {c})
  {
  }

  lemma FirstFound(t: Table, todo: set<u16>, c: u16)
    requires PassedOver(t, todo) && c in todo && c in t && t[c].toMcu != [] && forall d :: d in todo ==> c <= d
    ensures PopNext(t) == (Some(t[c].toMcu[0]), PopFrom(t, c))
  {
    hide NextCid, PopFrom;
    NextCidIs(t, c);
  }

  lemma NothingFound(t: Table)
    requires PassedOver(t, {})
    ensures PopNext(t) == (None, t)
  {
    hide NextCid;
    NoNextCid(t);
  }

  class SessionManager {
    var sessions: map<u16, Session>

    constructor ()
      ensures Valid() && sessions == map[]
    {
      sessions := map[];
    }

    /** The objects the manager owns. */
    ghost function Objects(): set<object>
      reads this
    {
      (set c | c in sessions :: sessions[c] as object) + (set c | c in sessions :: sessions[c].transport as object)
    }

    /** Every session and every transport belongs to one CID only. */
    ghost predicate Valid()
      reads this
    {
      && (forall c, d :: c in sessions && d in sessions && c != d ==>
            sessions[c] != sessions[d] && sessions[c].transport != sessions[d].transport)
      && (forall c, d :: c in sessions && d in sessions ==> sessions[c] as object != sessions[d].transport)
    }

    ghost function GetTable(): Table
      reads this, Objects()
    {
      map c | c in sessions :: sessions[c].State()
    }

    method AddSession(cid: u16, transport: TlsSender.TlsTransport)
      requires Valid() && transport !in Objects()
      modifies this
      ensures Valid() && GetTable() == Add(old(GetTable()), cid, transport.txQueue)
      ensures fresh(Objects() - old(Objects()) - {transport})
    {
      if cid !in sessions {
        var s := new Session(cid, transport);
        Insert(cid, s);
      }
    }

    /** A session under a CID of its own. */
    method Insert(cid: u16, s: Session)
      requires Valid() && cid !in sessions && s !in Objects() && s.transport !in Objects()
      modifies this
      ensures Valid() && sessions == old(sessions)[cid := s]
      ensures GetTable() == old(GetTable())[cid := s.State()]
      ensures forall o :: o in Objects() ==> o in old(Objects()) || o == s || o == s.transport
    {
      sessions := sessions[cid := s];
    }

    method RemoveSession(cid: u16)
      requires Valid()
      modifies this
      ensures Valid() && GetTable() == Remove(old(GetTable()), cid)
      ensures sessions == old(sessions) - {cid}
    {
      sessions := sessions - {cid};
    }

    method ForwardToMcu(cid: u16, f: Frame)
      requires Valid()
      modifies Objects()
      ensures Valid() && GetTable() == Forward(old(GetTable()), cid, f)
      ensures cid in old(GetTable()) ==>
        && cid in GetTable()
        && GetTable()[cid].requested == old(GetTable())[cid].requested + if 0x20 <= f.sid <= 0x26 then [f.sid] else []
    {
      if cid !in sessions {
        return;
      }
      hide Enqueue;
      ghost var before := GetTable();
      SidRemembered(before, cid, f);
      sessions[cid].TakeRequest(f);
      assert forall c :: c in sessions && c != cid ==> sessions[c].State() == before[c];
    }

    /** One turn of the broadcast loop. */
    method SendToOne(cid: u16, f: Frame)
      requires Valid() && cid in sessions && f.dlc <= |f.payload|
      modifies sessions[cid].transport
      ensures GetTable() == old(GetTable())[cid := Send(old(GetTable())[cid], f)]
    {
      hide Send;
      ghost var before := GetTable();
      sessions[cid].SendFrame(f);
      assert forall c :: c in sessions && c != cid ==> sessions[c].State() == before[c];
    }

    /** One turn of the routing loop. */
    method AnswerOne(cid: u16, f: Frame)
      requires Valid() && cid in sessions && f.dlc <= |f.payload|
      modifies sessions[cid], sessions[cid].transport
      ensures GetTable() == old(GetTable())[cid := Answer(old(GetTable())[cid], f)]
    {
      hide Answer;
      ghost var before := GetTable();
      sessions[cid].AnswerIfAwaited(f);
      assert forall c :: c in sessions && c != cid ==> sessions[c].State() == before[c];
    }

    method DoBroadcast(f: Frame)
      requires Valid() && f.dlc <= |f.payload|
      modifies Objects()
      ensures Valid() && GetTable() == Broadcast(old(GetTable()), f)
    {
      hide GetTable, BroadcastSoFar;
      ghost var before := GetTable();
      TableKeys();
      var todo := sessions.Keys;
      BroadcastStart(before, f);
      while todo != {}
        invariant todo <= sessions.Keys == before.Keys
        invariant BroadcastSoFar(before, GetTable(), todo, f)
        decreases todo
      {
        var c := Front(todo);
        BroadcastStep(before, GetTable(), todo, f, c);
        SendToOne(c, f);
        todo := todo - {c};
      }
      BroadcastEnd(before, GetTable(), f);
    }

    method RouteUartRxBySid(f: Frame)
      requires Valid() && f.dlc <= |f.payload|
      modifies Objects()
      ensures Valid() && GetTable() == Route(old(GetTable()), f)
    {
      hide GetTable, RoutedSoFar;
      ghost var before := GetTable();
      TableKeys();
      var todo := sessions.Keys;
      RouteStart(before, f);
      while todo != {}
        invariant todo <= sessions.Keys == before.Keys
        invariant RoutedSoFar(before, GetTable(), todo, f)
        decreases todo
      {
        var c := Front(todo);
        RouteStep(before, GetTable(), todo, f, c);
        AnswerOne(c, f);
        todo := todo - {c};
      }
      RouteEnd(before, GetTable(), f);
    }

    /** One turn of the popping loop. */
    method PopFromSession(cid: u16) returns (out: Option<Frame>)
      requires Valid() && cid in sessions
      modifies sessions[cid]
      ensures var t := old(GetTable());
        if t[cid].toMcu == [] then out == None && GetTable() == t
        else out == Some(t[cid].toMcu[0]) && GetTable() == PopFrom(t, cid)
    {
      ghost var before := GetTable();
      out := sessions[cid].PopMcuFrame();
      assert forall c :: c in sessions && c != cid ==> sessions[c].State() == before[c];
    }

    method PopNextMcuFrame() returns (out: Option<Frame>)
      requires Valid()
      modifies Objects()
      ensures Valid()
      ensures (out, GetTable()) == PopNext(old(GetTable()))
    {
      hide PopNext, PopFrom, GetTable, PassedOver;
      ghost var before := GetTable();
      TableKeys();
      var todo := sessions.Keys;
      NonePassed(before);
      while todo != {}
        invariant todo <= sessions.Keys == before.Keys && GetTable() == before
        invariant PassedOver(before, todo)
        decreases todo
      {
        var c := Front(todo);
        out := PopFromSession(c);
        if out.Some? {
          FirstFound(before, todo, c);
          return;
        }
        PassStep(before, todo, c);
        todo := todo - {c};
      }
      NothingFound(before);
      out := None;
    }

    lemma TableKeys()
      ensures GetTable().Keys == sessions.Keys
    {
    }
  }
}
