/**
 * One packet slot between the firmware's parser and its two workers, under fixed-priority preemption. Every step
 * below is one access to what the tasks share, and any ready task of the highest ready priority may take the next.
 */
module Handoff {
  import opened Bytes
  import opened Wire
  import opened Firmware

  type Sound = f: Frame | f.Consistent() witness Frame(0, 0, 0, 0, [])

  datatype Task = Parser | RpcTask | DiagTask

  datatype Priorities = Priorities(parser: nat, rpc: nat, diag: nat) {
    function Of(t: Task): nat {
      match t
      case Parser => parser
      case RpcTask => rpc
      case DiagTask => diag
    }
  }

  /** The priorities the firmware configures. */
  const CONFIGURED := Priorities(11, 12, 12)

  datatype Parsing = Idle | Copying(f: Sound, copied: nat)

  /** Running: about to wait. Woken: notified while blocked. Selecting: back from the wait, the SID not yet read. */
  datatype Activity = Running | Blocked | Woken | Selecting | Reading(sid: byte, got: seq<byte>)

  datatype Worker = Worker(at: Activity, pending: bool) {
    function Waiting(): Worker {
      if pending then Worker(Selecting, false) else Worker(Blocked, false)
    }

    /** A notification of a woken task merges with the one that woke it. */
    function Notified(): Worker {
      if at == Blocked then Worker(Woken, false) else if at == Woken then this else Worker(at, true)
    }
  }

  /** One service carried out, with the payload bytes it read, in the order it read them. */
  datatype Record = Record(who: Target, sid: byte, read: seq<byte>)

  datatype State = State(
    inbox: seq<Sound>, taken: seq<Sound>, slot: Packet, parser: Parsing, rpc: Worker, diag: Worker,
    log: seq<Record>, halted: bool)

  datatype Event = Arrive(f: Sound) | Run(t: Task)

  function Start(slot: Packet): State {
    State([], [], slot, Idle, Worker(Running, false), Worker(Running, false), [], false)
  }

  // ----- Steps -----

  function Copied(f: Frame): nat {
    if f.dlc > SLOT then SLOT else f.dlc
  }

  function ParserStep(s: State): State {
    match s.parser
    case Idle =>
      if s.inbox == [] then s
      else
        var f := s.inbox[0];
        var t := s.(inbox := s.inbox[1..], taken := s.taken + [f]);
        if !ValidDlc(f.sid, f.dlc) then t
        else t.(slot := Slot(f.sid, f.kind, f.dlc, s.slot.payload, f.cid), parser := Copying(f, 0))
    case Copying(f, k) =>
      if k < Copied(f) then s.(slot := s.slot.(payload := s.slot.payload[k := f.payload[k]]), parser := Copying(f, k + 1))
      else
        match TargetOf(f.sid)
        case Rpc => s.(parser := Idle, rpc := s.rpc.Notified())
        case Diag => s.(parser := Idle, diag := s.diag.Notified())
        case Nobody => s.(parser := Idle)
  }

  /** Which payload byte a service reads next, given what it has read. */
  function NextRead(sid: byte, got: seq<byte>): (r: Option<nat>)
    ensures r.Some? ==> r.value < SLOT
  {
    if sid == 0x10 || sid == 0x11 then if got == [] then Some(0) else None
    else if sid == 0x12 then
      if got == [] then Some(0) else if got[0] == 1 && |got| < 5 then Some(|got|) else None
    else if sid == 0x13 then if got == [] then Some(1) else if |got| == 1 then Some(0) else None
    else None
  }

  predicate Serves(who: Target, sid: byte) {
    (who == Rpc && 0x10 <= sid <= 0x13) || (who == Diag && 0x20 <= sid <= 0x26)
  }

  function WorkerStep(who: Target, w: Worker, slot: Packet): (Worker, Option<Record>) {
    match w.at
    case Running => (w.Waiting(), None)
    case Blocked => (w, None)
    case Woken => (Worker(Selecting, false), None)
    case Selecting => (w.(at := Reading(slot.sid, [])), None)
    case Reading(sid, got) =>
      if Serves(who, sid) && NextRead(sid, got).Some? then
        (w.(at := Reading(sid, got + [slot.payload[NextRead(sid, got).value]])), None)
      else (w.(at := Running), if Serves(who, sid) then Some(Record(who, sid, got)) else None)
  }

  function Logged(s: State, r: Option<Record>): State {
    if r.None? then s
    else s.(log := s.log + [r.value], halted := r.value.sid == 0x11 && r.value.read == [1])
  }

  function Next(s: State, e: Event): State {
    match e
    case Arrive(f) => s.(inbox := s.inbox + [f])
    case Run(Parser) => ParserStep(s)
    case Run(RpcTask) =>
      var (w, r) := WorkerStep(Rpc, s.rpc, s.slot);
      Logged(s.(rpc := w), r)
    case Run(DiagTask) =>
      var (w, r) := WorkerStep(Diag, s.diag, s.slot);
      Logged(s.(diag := w), r)
  }

  // ----- Scheduling -----

  predicate Ready(s: State, t: Task) {
    match t
    case Parser => s.parser != Idle || s.inbox != []
    case RpcTask => s.rpc.at != Blocked
    case DiagTask => s.diag.at != Blocked
  }

  /** A frame may arrive at any time until the reset; a task runs if it is ready and none of a higher priority is. */
  predicate Enabled(p: Priorities, s: State, e: Event) {
    !s.halted &&
    match e
    case Arrive(_) => true
    case Run(t) => Ready(s, t) && forall u :: Ready(s, u) ==> p.Of(u) <= p.Of(t)
  }

  function After(slot: Packet, events: seq<Event>): State {
    if events == [] then Start(slot) else Next(After(slot, events[..|events| - 1]), events[|events| - 1])
  }

  predicate Possible(p: Priorities, slot: Packet, events: seq<Event>) {
    events == [] ||
    var before := events[..|events| - 1];
    Possible(p, slot, before) && Enabled(p, After(slot, before), events[|events| - 1])
  }

  lemma Extended(p: Priorities, slot: Packet, events: seq<Event>, e: Event)
    requires Possible(p, slot, events) && Enabled(p, After(slot, events), e)
    ensures Possible(p, slot, events + [e]) && After(slot, events + [e]) == Next(After(slot, events), e)
  {
  }

  // ----- What the frames call for -----

  /** The payload bytes a frame's service needs, in the order it reads them. */
  function Arguments(f: Frame): seq<byte>
    requires f.Consistent() && ValidDlc(f.sid, f.dlc)
  {
    if f.sid == 0x10 || f.sid == 0x11 then [f.payload[0]]
    else if f.sid == 0x13 then [f.payload[1], f.payload[0]]
    else if f.sid == 0x12 then if f.payload[0] == 1 then f.payload else [f.payload[0]]
    else []
  }

  function Call(f: Frame): Record
    requires f.Consistent() && ValidDlc(f.sid, f.dlc)
  {
    Record(TargetOf(f.sid), f.sid, Arguments(f))
  }

  /** Every valid frame once, in order, with its own bytes. */
  function Due(frames: seq<Sound>): seq<Record> {
    if frames == [] then []
    else
      var n := |frames| - 1;
      Due(frames[..n]) + if ValidDlc(frames[n].sid, frames[n].dlc) then [Call(frames[n])] else []
  }

  predicate Settled(s: State) {
    s.halted || (s.parser == Idle && s.rpc.at == s.diag.at == Blocked)
  }

  predicate Faithful(s: State) {
    s.log <= Due(s.taken) && (Settled(s) ==> s.log == Due(s.taken))
  }

  // ----- The invariant -----

  predicate Free(w: Worker) {
    (w.at == Running || w.at == Blocked) && !w.pending
  }

  predicate Waits(w: Worker) {
    w == Worker(Blocked, false)
  }

  /** The worker is carrying out the frame and has read a proper part of what it needs from the frame's own bytes. */
  predicate Serving(w: Worker, f: Frame)
    requires f.Consistent() && ValidDlc(f.sid, f.dlc)
  {
    && !w.pending
    && (w.at == Woken || w.at == Selecting || (w.at.Reading? && w.at.sid == f.sid && w.at.got <= Arguments(f)))
  }

  /** The slot while the frame is copied into it. */
  predicate Filling(slot: Packet, before: Packet, f: Frame, k: nat)
    requires f.Consistent()
  {
    k <= Copied(f) && slot == Slot(f.sid, f.kind, f.dlc, f.payload[..k] + before.payload[k..], f.cid)
  }

  /** Nothing is outstanding. */
  predicate Done(start: Packet, s: State) {
    s.parser == Idle && s.slot == HandledAll(start, s.taken) && Free(s.rpc) && Free(s.diag) && s.log == Due(s.taken)
  }

  /** The last frame taken is valid and its service has not run; the ones before it are done. */
  predicate Outstanding(start: Packet, s: State) {
    s.taken != [] && !s.halted &&
    var n := |s.taken| - 1;
    var f := s.taken[n];
    && ValidDlc(f.sid, f.dlc)
    && s.log == Due(s.taken[..n])
    && match s.parser
       case Copying(g, k) =>
         g == f && Filling(s.slot, HandledAll(start, s.taken[..n]), f, k) && Waits(s.rpc) && Waits(s.diag)
       case Idle =>
         s.slot == HandledAll(start, s.taken) &&
         if TargetOf(f.sid) == Rpc then Serving(s.rpc, f) && Waits(s.diag) else Serving(s.diag, f) && Waits(s.rpc)
  }

  predicate Inv(start: Packet, s: State) {
    Done(start, s) || Outstanding(start, s)
  }

  /** A service reads only bytes of its own frame, and stops exactly when it has all it needs. */
  lemma ReadsOwnBytes(p: Packet, f: Frame, got: seq<byte>)
    requires f.Consistent() && ValidDlc(f.sid, f.dlc) && got <= Arguments(f)
    ensures Serves(TargetOf(f.sid), f.sid)
    ensures NextRead(f.sid, got).None? <==> got == Arguments(f)
    ensures NextRead(f.sid, got).Some? ==>
      var i := NextRead(f.sid, got).value;
      i < |f.payload| && got + [Stored(p, f).payload[i]] <= Arguments(f)
  {
  }

  lemma StartInv(start: Packet)
    ensures Inv(start, Start(start))
  {
  }

  lemma TakeInv(start: Packet, s: State)
    requires Done(start, s) && !s.halted && s.inbox != [] && Waits(s.rpc) && Waits(s.diag)
    ensures Inv(start, ParserStep(s))
  {
  }

  lemma CopyInv(start: Packet, s: State)
    requires Outstanding(start, s) && s.parser.Copying? && s.parser.copied < Copied(s.parser.f)
    ensures Outstanding(start, ParserStep(s))
  {
    hide HandledAll, Due, ValidDlc, TargetOf;
    var n := |s.taken| - 1;
    var before := HandledAll(start, s.taken[..n]);
    var f, k := s.parser.f, s.parser.copied;
    assert (f.payload[..k] + before.payload[k..])[k := f.payload[k]] == f.payload[..k + 1] + before.payload[k + 1..];
  }

  lemma NotifyInv(start: Packet, s: State)
    requires Outstanding(start, s) && s.parser.Copying? && s.parser.copied == Copied(s.parser.f)
    ensures Outstanding(start, ParserStep(s))
  {
    hide Due;
  }

  lemma ParserInv(start: Packet, s: State)
    requires Inv(start, s) && !s.halted && Ready(s, Parser) && s.rpc.at == s.diag.at == Blocked
    ensures Waits(s.rpc) && Waits(s.diag) && Inv(start, ParserStep(s))
  {
    hide HandledAll, Due, ParserStep;
    match s.parser {
      case Idle => TakeInv(start, s);
      case Copying(f, k) =>
        if k < Copied(f) {
          CopyInv(start, s);
        } else {
          NotifyInv(start, s);
        }
    }
  }

  lemma ServingStep(who: Target, w: Worker, p: Packet, f: Frame)
    requires f.Consistent() && ValidDlc(f.sid, f.dlc) && Serving(w, f) && who == TargetOf(f.sid)
    ensures var (v, r) := WorkerStep(who, w, Stored(p, f));
      if r.None? then Serving(v, f) else r == Some(Call(f)) && v == Worker(Running, false)
  {
    if w.at.Reading? {
      ReadsOwnBytes(p, f, w.at.got);
      hide Arguments, NextRead;
    }
  }

  lemma WorkerInv(start: Packet, s: State, t: Task)
    requires Inv(start, s) && !s.halted && Ready(s, t) && t != Parser
    ensures Inv(start, Next(s, Run(t)))
  {
    hide Arguments, NextRead, Stored;
    if Outstanding(start, s) {
      var n := |s.taken| - 1;
      var f := s.taken[n];
      var p := HandledAll(start, s.taken[..n]);
      ServingStep(TargetOf(f.sid), if t == RpcTask then s.rpc else s.diag, p, f);
    }
  }

  /** Where both workers outrank the parser, each step keeps the invariant and the parser runs past waiting workers only. */
  lemma StepKeepsInv(p: Priorities, start: Packet, s: State, e: Event)
    requires p.parser < p.rpc && p.parser < p.diag && Inv(start, s) && Enabled(p, s, e)
    ensures Inv(start, Next(s, e))
    ensures e == Run(Parser) ==> Waits(s.rpc) && Waits(s.diag)
  {
    hide HandledAll, Due, Call;
    match e {
      case Arrive(f) =>
      case Run(t) =>
        if t == Parser {
          assert !Ready(s, RpcTask) && !Ready(s, DiagTask);
          ParserInv(start, s);
        } else {
          WorkerInv(start, s, t);
        }
    }
  }

  lemma {:induction false} EveryRunInv(p: Priorities, start: Packet, events: seq<Event>)
    requires p.parser < p.rpc && p.parser < p.diag && Possible(p, start, events)
    ensures Inv(start, After(start, events))
  {
    if events == [] {
      StartInv(start);
    } else {
      var before := events[..|events| - 1];
      EveryRunInv(p, start, before);
      StepKeepsInv(p, start, After(start, before), events[|events| - 1]);
    }
  }

  function Arrived(events: seq<Event>): seq<Sound> {
    if events == [] then []
    else
      var n := |events| - 1;
      Arrived(events[..n]) + if events[n].Arrive? then [events[n].f] else []
  }

  lemma StepConserves(s: State, e: Event)
    ensures var t := Next(s, e);
      t.taken + t.inbox == s.taken + s.inbox + if e.Arrive? then [e.f] else []
  {
    hide WorkerStep;
    if e == Run(Parser) && s.parser == Idle && s.inbox != [] {
      assert s.taken + s.inbox == s.taken + [s.inbox[0]] + s.inbox[1..];
    }
  }

  /** No frame is lost or reordered before the slot, whatever the priorities. */
  lemma {:induction false} InboxConserves(start: Packet, events: seq<Event>)
    ensures After(start, events).taken + After(start, events).inbox == Arrived(events)
  {
    hide Next;
    if events != [] {
      var n := |events| - 1;
      InboxConserves(start, events[..n]);
      StepConserves(After(start, events[..n]), events[n]);
    }
  }

  /** At most one service is outstanding at any time. */
  lemma InvIsFaithful(start: Packet, s: State)
    requires Inv(start, s)
    ensures Faithful(s) && |Due(s.taken)| <= |s.log| + 1
  {
  }

  /** In every state in which the configured parser may run, both workers wait and no notification is pending. */
  lemma ParserRunsAlone(start: Packet, events: seq<Event>)
    requires Possible(CONFIGURED, start, events) && Enabled(CONFIGURED, After(start, events), Run(Parser))
    ensures var s := After(start, events);
      s.rpc == s.diag == Worker(Blocked, false)
  {
    EveryRunInv(CONFIGURED, start, events);
    StepKeepsInv(CONFIGURED, start, After(start, events), Run(Parser));
  }

  /** Whatever byte an RPC service is about to read belongs to the frame that called it, whose slot is still whole. */
  lemma {:induction false} WorkersReadTheirFrame(start: Packet, events: seq<Event>)
    requires Possible(CONFIGURED, start, events)
    ensures var s := After(start, events);
      s.rpc.at.Reading? && NextRead(s.rpc.at.sid, s.rpc.at.got).Some? ==>
      var i := NextRead(s.rpc.at.sid, s.rpc.at.got).value;
      && s.taken != []
      && var f := s.taken[|s.taken| - 1];
         s.rpc.at.sid == f.sid && i < |f.payload| && s.slot.payload[i] == f.payload[i]
  {
    var s := After(start, events);
    EveryRunInv(CONFIGURED, start, events);
    if s.rpc.at.Reading? {
      var n := |s.taken| - 1;
      ReadsOwnBytes(HandledAll(start, s.taken[..n]), s.taken[n], s.rpc.at.got);
    }
  }

  // ----- One slot suffices exactly when the workers outrank the parser -----

  /** Both workers reach their wait. */
  lemma Settle(p: Priorities, slot: Packet) returns (events: seq<Event>)
    ensures Possible(p, slot, events)
    ensures After(slot, events) == Start(slot).(rpc := Worker(Blocked, false), diag := Worker(Blocked, false))
  {
    var first, second := Run(RpcTask), Run(DiagTask);
    var (a, b) := if p.rpc >= p.diag then (first, second) else (second, first);
    events := [];
    Extended(p, slot, events, a);
    events := events + [a];
    Extended(p, slot, events, b);
    events := events + [b];
  }

  /** The run continues with one more event. */
  lemma {:induction false} OneStep(p: Priorities, slot: Packet, events: seq<Event>, e: Event, s: State, t: State)
    returns (longer: seq<Event>)
    requires Possible(p, slot, events) && After(slot, events) == s && Enabled(p, s, e) && Next(s, e) == t
    ensures Possible(p, slot, longer) && After(slot, longer) == t
  {
    Extended(p, slot, events, e);
    longer := events + [e];
  }

  function TaskOf(who: Target): Task {
    if who == Rpc then RpcTask else DiagTask
  }

  function WorkerOf(s: State, who: Target): Worker {
    if who == Rpc then s.rpc else s.diag
  }

  function With(s: State, who: Target, w: Worker): State {
    if who == Rpc then s.(rpc := w) else s.(diag := w)
  }

  /** Only the parser and one worker may run, and the worker does not outrank the parser. */
  predicate Contending(p: Priorities, s: State, who: Target) {
    && !s.halted
    && p.parser >= p.Of(TaskOf(who))
    && match who
       case Rpc => s.diag.at == Blocked
       case Diag => s.rpc.at == Blocked
       case Nobody => false
  }

  /** The parser finishes the frame without letting the worker in between. */
  lemma Finished(p: Priorities, start: Packet, events: seq<Event>, s: State, who: Target)
    returns (longer: seq<Event>, t: State)
    requires Possible(p, start, events) && After(start, events) == s && Contending(p, s, who)
    requires s.parser.Copying? && TargetOf(s.parser.f.sid) == who && s.parser.copied <= Copied(s.parser.f)
    ensures Possible(p, start, longer) && After(start, longer) == t
    ensures t == With(s, who, WorkerOf(s, who).Notified()).(parser := Idle, slot := t.slot) && t.slot.sid == s.slot.sid
    decreases Copied(s.parser.f) - s.parser.copied
  {
    hide Possible, After, TargetOf;
    t := ParserStep(s);
    longer := OneStep(p, start, events, Run(Parser), s, t);
    if s.parser.copied < Copied(s.parser.f) {
      longer, t := Finished(p, start, longer, t, who);
    }
  }

  lemma Passed(p: Priorities, start: Packet, events: seq<Event>, s: State, who: Target)
    returns (longer: seq<Event>, t: State)
    requires Possible(p, start, events) && After(start, events) == s && Contending(p, s, who)
    requires s.parser == Idle && s.inbox != []
    requires var f := s.inbox[0]; ValidDlc(f.sid, f.dlc) && TargetOf(f.sid) == who
    ensures Possible(p, start, longer) && After(start, longer) == t
    ensures t == With(s, who, WorkerOf(s, who).Notified())
      .(inbox := s.inbox[1..], taken := s.taken + [s.inbox[0]], slot := t.slot)
    ensures t.slot.sid == s.inbox[0].sid
  {
    hide Possible, After, TargetOf, ValidDlc;
    t := ParserStep(s);
    longer := OneStep(p, start, events, Run(Parser), s, t);
    longer, t := Finished(p, start, longer, t, who);
  }

  /** The worker completes its service and goes back to its wait. */
  lemma {:induction false} Served(p: Priorities, start: Packet, events: seq<Event>, s: State, who: Target)
    returns (longer: seq<Event>, t: State)
    requires Possible(p, start, events) && After(start, events) == s && Contending(p, s, who)
    requires s.parser == Idle && s.inbox == [] && Serves(who, s.slot.sid) && !WorkerOf(s, who).pending
    requires var at := WorkerOf(s, who).at;
      at == Woken || at == Selecting || (at.Reading? && at.sid == s.slot.sid && |at.got| <= 5)
    ensures Possible(p, start, longer) && After(start, longer) == t
    ensures t.taken == s.taken && |t.log| == |s.log| + 1 && Settled(t)
    decreases match WorkerOf(s, who).at case Woken => 7 case Selecting => 6 case Reading(_, got) => 5 - |got| case _ => 0
  {
    hide Possible, After;
    t := Next(s, Run(TaskOf(who)));
    longer := OneStep(p, start, events, Run(TaskOf(who)), s, t);
    if WorkerOf(t, who).at != Running {
      longer, t := Served(p, start, longer, t, who);
    } else if !t.halted {
      var u := Next(t, Run(TaskOf(who)));
      longer := OneStep(p, start, longer, Run(TaskOf(who)), t, u);
      t := u;
    }
  }

  /** Any two valid frames for a worker that does not outrank the parser: sent back to back, one may be lost. */
  lemma {:induction false} Overtaken(p: Priorities, start: Packet, f: Sound, g: Sound) returns (events: seq<Event>)
    requires ValidDlc(f.sid, f.dlc) && ValidDlc(g.sid, g.dlc) && TargetOf(f.sid) == TargetOf(g.sid)
    requires p.parser >= p.Of(TaskOf(TargetOf(f.sid)))
    ensures Possible(p, start, events)
    ensures var s := After(start, events);
      s.taken == [f, g] && Settled(s) && |s.log| == 1
  {
    hide Possible, After, NextRead;
    var who := TargetOf(f.sid);
    events := Settle(p, start);
    var s := Start(start).(rpc := Worker(Blocked, false), diag := Worker(Blocked, false));
    events := OneStep(p, start, events, Arrive(f), s, s.(inbox := [f]));
    events := OneStep(p, start, events, Arrive(g), s.(inbox := [f]), s.(inbox := [f, g]));
    s := s.(inbox := [f, g]);
    events, s := Passed(p, start, events, s, who);
    events, s := Passed(p, start, events, s, who);
    events, s := Served(p, start, events, s, who);
  }

  lemma DueOfTwo(f: Sound, g: Sound)
    requires ValidDlc(f.sid, f.dlc) && ValidDlc(g.sid, g.dlc)
    ensures Due([f, g]) == [Call(f), Call(g)]
  {
    hide Arguments, ValidDlc;
    assert [f, g][..1] == [f];
    assert Due([f]) == Due([]) + [Call(f)];
  }

  /**
   * Every valid frame is executed once, in order and from its own bytes in every run exactly if both workers
   * outrank the parser.
   */
  lemma OneSlotSufficesIff(p: Priorities, slot: Packet)
    ensures (forall events :: Possible(p, slot, events) ==> Faithful(After(slot, events)))
      <==> p.parser < p.rpc && p.parser < p.diag
  {
    hide Possible, After;
    if p.parser < p.rpc && p.parser < p.diag {
      forall events | Possible(p, slot, events) ensures Faithful(After(slot, events)) {
        EveryRunInv(p, slot, events);
        InvIsFaithful(slot, After(slot, events));
      }
    } else {
      var f: Sound := if p.parser >= p.rpc then Frame(0x10, 1, 1, 0, [0]) else Frame(0x20, 1, 0, 0, []);
      var events := Overtaken(p, slot, f, f);
      DueOfTwo(f, f);
    }
  }

  /** The configured priorities are of that kind. */
  lemma {:induction false} ConfiguredRunsAreFaithful(slot: Packet, events: seq<Event>)
    requires Possible(CONFIGURED, slot, events)
    ensures var s := After(slot, events);
      && s.taken + s.inbox == Arrived(events)
      && s.log <= Due(s.taken) && |Due(s.taken)| <= |s.log| + 1
      && (Settled(s) ==> s.log == Due(s.taken) && s.slot == HandledAll(slot, s.taken))
  {
    EveryRunInv(CONFIGURED, slot, events);
    InvIsFaithful(slot, After(slot, events));
    InboxConserves(slot, events);
  }

  // ----- Everything that has arrived is settled within a bounded number of steps -----

  const SERVICE: nat := 9             // from a worker's waking to its next wait
  const FRAME: nat := SLOT + 2        // taking a frame, copying it, notifying

  /** The most steps a worker may still take before it blocks, if nobody wakes it again. */
  function WorkerLeft(w: Worker): nat {
    var left :=
      match w.at
      case Blocked => 0
      case Running => 1
      case Reading(_, got) => if |got| < 5 then 7 - |got| else 2
      case Selecting => 8
      case Woken => SERVICE;
    left + if w.pending then SERVICE else 0
  }

  function ParserLeft(p: Parsing): nat {
    match p
    case Idle => 0
    case Copying(f, k) => (if k < Copied(f) then Copied(f) - k else 0) + 1 + SERVICE
  }

  /** The most steps that what has arrived can still cause. */
  function Left(s: State): nat {
    (FRAME + SERVICE) * |s.inbox| + ParserLeft(s.parser) + WorkerLeft(s.rpc) + WorkerLeft(s.diag)
  }

  lemma NotifyCosts(w: Worker)
    ensures WorkerLeft(w.Notified()) <= WorkerLeft(w) + SERVICE
  {
  }

  lemma WorkerStepUses(who: Target, w: Worker, slot: Packet)
    requires w.at != Blocked
    ensures WorkerLeft(WorkerStep(who, w, slot).0) < WorkerLeft(w)
  {
  }

  lemma ParserStepUses(s: State)
    requires Ready(s, Parser)
    ensures Left(ParserStep(s)) < Left(s)
  {
    NotifyCosts(s.rpc);
    NotifyCosts(s.diag);
    hide WorkerLeft, ValidDlc, TargetOf, Worker.Notified;
  }

  /** Whatever the schedule, every step of a task uses up some of what is left. */
  lemma StepUses(s: State, t: Task)
    requires Ready(s, t)
    ensures Left(Next(s, Run(t))) < Left(s)
  {
    hide NextRead, WorkerStep, WorkerLeft, ParserStep, ParserLeft;
    match t {
      case Parser => ParserStepUses(s);
      case RpcTask => WorkerStepUses(Rpc, s.rpc, s.slot);
      case DiagTask => WorkerStepUses(Diag, s.diag, s.slot);
    }
  }

  /** Where no task may run, everything is settled and nothing waits in the inbox. */
  lemma StuckIsSettled(p: Priorities, s: State)
    requires forall t :: !Enabled(p, s, Run(t))
    ensures Settled(s) && (!s.halted ==> s.inbox == [])
  {
    if !s.halted {
      var a := if p.rpc >= p.diag then RpcTask else DiagTask;
      var b := if p.rpc >= p.diag then DiagTask else RpcTask;
      assert !Enabled(p, s, Run(Parser)) && !Enabled(p, s, Run(a)) && !Enabled(p, s, Run(b));
    }
  }

  predicate OnlyTurns(events: seq<Event>) {
    forall i :: 0 <= i < |events| ==> events[i].Run?
  }

  lemma LastStep(p: Priorities, start: Packet, events: seq<Event>, e: Event)
    requires Possible(p, start, events + [e])
    ensures Possible(p, start, events) && Enabled(p, After(start, events), e)
    ensures After(start, events + [e]) == Next(After(start, events), e)
  {
    hide Enabled, Next;
    assert (events + [e])[..|events|] == events;
  }

  /** However the tasks are scheduled after a run, with no new arrivals they take at most so many steps. */
  lemma {:induction false} TurnsBounded(p: Priorities, start: Packet, events: seq<Event>, turns: seq<Event>)
    requires OnlyTurns(turns) && Possible(p, start, events + turns)
    ensures Possible(p, start, events)
    ensures |turns| + Left(After(start, events + turns)) <= Left(After(start, events))
    decreases |turns|
  {
    if turns == [] {
      assert events + turns == events;
    } else {
      hide Left, Next, After, Possible, Ready;
      var n := |turns| - 1;
      assert events + turns == events + turns[..n] + [turns[n]];
      LastStep(p, start, events + turns[..n], turns[n]);
      TurnsBounded(p, start, events, turns[..n]);
      StepUses(After(start, events + turns[..n]), turns[n].t);
    }
  }

  /** Each frame that waits causes at most 27 steps, and what is under way no more than one frame does. */
  lemma LeftBound(p: Priorities, start: Packet, events: seq<Event>)
    requires p.parser < p.rpc && p.parser < p.diag && Possible(p, start, events)
    ensures var s := After(start, events); Left(s) <= (FRAME + SERVICE) * |s.inbox| + FRAME + SERVICE
  {
    hide Due, Filling, Arguments;
    EveryRunInv(p, start, events);
  }

  /**
   * Whatever the schedule: after any run with the configured priorities, a schedule of the tasks that goes on as
   * long as one may run comes to an end within the bound, and then every valid frame that has arrived has been
   * executed, once, in order and with its own bytes, unless a reset came first.
   */
  lemma {:induction false} EveryRunSettles(start: Packet, events: seq<Event>, turns: seq<Event>)
    requires OnlyTurns(turns) && Possible(CONFIGURED, start, events + turns)
    ensures var s, t := After(start, events), After(start, events + turns);
      && |turns| <= (FRAME + SERVICE) * (|s.inbox| + 1)
      && ((forall u :: !Enabled(CONFIGURED, t, Run(u))) ==>
            t.log == Due(t.taken) && (!t.halted ==> t.taken == Arrived(events)))
  {
    hide Possible, After, Left, Due, Enabled, Settled;
    TurnsBounded(CONFIGURED, start, events, turns);
    LeftBound(CONFIGURED, start, events);
    ConfiguredRunsAreFaithful(start, events + turns);
    var t := After(start, events + turns);
    if forall u :: !Enabled(CONFIGURED, t, Run(u)) {
      StuckIsSettled(CONFIGURED, t);
      ArrivedOnly(events, turns);
      assert t.taken + [] == t.taken;
    }
  }

  lemma {:induction false} ArrivedOnly(events: seq<Event>, turns: seq<Event>)
    requires OnlyTurns(turns)
    ensures Arrived(events + turns) == Arrived(events)
    decreases |turns|
  {
    if turns == [] {
      assert events + turns == events;
    } else {
      var n := |turns| - 1;
      assert (events + turns)[..|events + turns| - 1] == events + turns[..n];
      ArrivedOnly(events, turns[..n]);
    }
  }

  // ----- Which lengths are right -----

  /** After some reads the service asks for payload byte i. */
  ghost predicate MayRead(sid: byte, i: nat) {
    exists got: seq<byte> :: NextRead(sid, got) == Some(i)
  }

  lemma NextReadBound(sid: byte, got: seq<byte>)
    requires 0x10 <= sid <= 0x13 && NextRead(sid, got).Some?
    ensures NextRead(sid, got).value < if sid == 0x12 then 5 else if sid == 0x13 then 2 else 1
  {
  }

  lemma LargestRead(sid: byte)
    requires 0x10 <= sid <= 0x13
    ensures MayRead(sid, if sid == 0x12 then 4 else if sid == 0x13 then 1 else 0)
  {
    assert NextRead(0x10, []) == Some(0) && NextRead(0x11, []) == Some(0) && NextRead(0x13, []) == Some(1);
    assert NextRead(0x12, [1, 0, 0, 0]) == Some(4);
  }

  /**
   * The right lengths are what the services read: a command is valid exactly if its length is one more than the
   * largest index its service may ask for; queries from 0x20 to 0x26 may have any length, and nothing else is valid.
   */
  lemma ValidDlcIff(sid: byte, dlc: u16)
    ensures 0x10 <= sid <= 0x13 ==>
      (ValidDlc(sid, dlc) <==> dlc > 0 && MayRead(sid, dlc - 1) && forall i: nat :: MayRead(sid, i) ==> i < dlc)
    ensures 0x20 <= sid <= 0x26 ==> ValidDlc(sid, dlc)
    ensures !(0x10 <= sid <= 0x13) && !(0x20 <= sid <= 0x26) ==> !ValidDlc(sid, dlc)
  {
    if 0x10 <= sid <= 0x13 {
      var top: nat := if sid == 0x12 then 4 else if sid == 0x13 then 1 else 0;
      LargestRead(sid);
      forall i: nat | MayRead(sid, i) ensures i <= top {
        var got: seq<byte> :| NextRead(sid, got) == Some(i);
        NextReadBound(sid, got);
      }
      hide MayRead, NextRead;
      assert ValidDlc(sid, dlc) <==> dlc == top + 1;
    }
  }

  /** What each service reads of its own payload, in order: duty and period are read back to front. */
  lemma ServicesRead(f: Sound)
    requires ValidDlc(f.sid, f.dlc)
    ensures f.sid == 0x10 || f.sid == 0x11 ==> Call(f) == Record(Rpc, f.sid, [f.payload[0]])
    ensures f.sid == 0x12 ==>
      Call(f) == Record(Rpc, 0x12, if f.payload[0] == 1 then f.payload[..5] else [f.payload[0]])
    ensures f.sid == 0x13 ==> Call(f) == Record(Rpc, 0x13, [f.payload[1], f.payload[0]])
    ensures 0x20 <= f.sid <= 0x26 ==> Call(f) == Record(Diag, f.sid, [])
  {
    assert f.sid == 0x12 ==> f.payload[..5] == f.payload;
  }

  /** In every run, the firmware has been reset exactly if the last service carried out was a reset with argument 1. */
  lemma {:induction false} ResetIff(p: Priorities, start: Packet, events: seq<Event>)
    requires Possible(p, start, events)
    ensures var s := After(start, events);
      s.halted <==> s.log != [] && s.log[|s.log| - 1] == Record(Rpc, 0x11, [1])
  {
    if events != [] {
      hide After, Possible, Next;
      var n := |events| - 1;
      assert events == events[..n] + [events[n]];
      LastStep(p, start, events[..n], events[n]);
      ResetIff(p, start, events[..n]);
      ResetStep(p, After(start, events[..n]), events[n]);
    }
  }

  lemma ResetStep(p: Priorities, s: State, e: Event)
    requires Enabled(p, s, e) && (s.log == [] || s.log[|s.log| - 1] != Record(Rpc, 0x11, [1]))
    ensures var t := Next(s, e);
      t.halted <==> t.log != [] && t.log[|t.log| - 1] == Record(Rpc, 0x11, [1])
  {
    hide NextRead;
  }
}
