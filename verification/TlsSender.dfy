/** Sending over TLS: a queue filled by others while a thread drains it with writes that may be partial. */
module TlsSender {
  import opened Bytes

  /**
   * What the sender holds: the queue, the unsent remainder of the packet in hand, the bytes written, and, as
   * history, everything ever queued and how many bytes were given up after failed writes.
   */
  datatype Sender = Sender(queue: seq<seq<byte>>, unsent: seq<byte>, wire: seq<byte>, asked: seq<byte>, lost: nat)

  /**
   * Either another thread queues a packet, or the sending thread takes a turn: with nothing in hand it takes
   * the next packet, otherwise it writes and `sent` is what the write returned.
   */
  datatype Event = Enqueue(data: seq<byte>) | Turn(sent: int)

  predicate Fails(s: Sender, e: Event) {
    e.Turn? && s.unsent != [] && e.sent <= 0
  }

  function Next(s: Sender, e: Event): Sender {
    match e
    case Enqueue(data) => s.(queue := s.queue + [data], asked := s.asked + data)
    case Turn(sent) =>
      if s.unsent == [] then
        if s.queue == [] then s else s.(unsent := s.queue[0], queue := s.queue[1..])
      else if sent <= 0 then s.(unsent := [], lost := s.lost + |s.unsent|)
      else
        var n := if sent < |s.unsent| then sent else |s.unsent|;
        s.(wire := s.wire + s.unsent[..n], unsent := s.unsent[n..])
  }

  const IDLE: Sender := Sender([], [], [], [], 0)

  function Run(events: seq<Event>): Sender {
    if events == [] then IDLE else Next(Run(events[..|events| - 1]), events[|events| - 1])
  }

  predicate SomeWriteFails(events: seq<Event>) {
    events != [] &&
    var n := |events| - 1;
    SomeWriteFails(events[..n]) || Fails(Run(events[..n]), events[n])
  }

  /** Written, in hand and queued, in that order. */
  function Account(s: Sender): seq<byte> {
    s.wire + s.unsent + Flatten(s.queue)
  }

  lemma NextAccount(s: Sender, e: Event)
    ensures !Fails(s, e) ==> (Account(s) == s.asked ==> Account(Next(s, e)) == Next(s, e).asked)
    ensures |Account(s)| + s.lost == |s.asked| ==> |Account(Next(s, e))| + Next(s, e).lost == |Next(s, e).asked|
    ensures Next(s, e).lost > s.lost <==> Fails(s, e)
    ensures Next(s, e).lost >= s.lost
  {
    match e {
      case Enqueue(data) =>
        FlattenSnoc(s.queue, data);
        assert s.wire + s.unsent + (Flatten(s.queue) + data) == Account(s) + data;
      case Turn(sent) =>
        if s.unsent == [] {
          if s.queue != [] {
            assert s.wire + s.queue[0] + Flatten(s.queue[1..]) == s.wire + [] + Flatten(s.queue);
          }
        } else if sent > 0 {
          var n := if sent < |s.unsent| then sent else |s.unsent|;
          assert s.wire + s.unsent[..n] + s.unsent[n..] == s.wire + s.unsent;
        }
    }
  }

  /**
   * However queueing and partial writes interleave, the bytes written, the unsent remainder and the queue are
   * together exactly what was queued, in order, if and only if no write has failed.
   */
  lemma {:induction false} OrderKeptIff(events: seq<Event>)
    ensures var s := Run(events);
      && |Account(s)| + s.lost == |s.asked|
      && (s.lost == 0 <==> !SomeWriteFails(events))
      && (Account(s) == s.asked <==> !SomeWriteFails(events))
  {
    if events == [] {
      assert Account(IDLE) == [];
    } else {
      hide Account, Next;
      var n := |events| - 1;
      OrderKeptIff(events[..n]);
      NextAccount(Run(events[..n]), events[n]);
    }
  }

  /** The bytes on the wire are a prefix of what was queued as long as no write fails. */
  lemma WireIsPrefix(events: seq<Event>)
    requires !SomeWriteFails(events)
    ensures Run(events).wire <= Run(events).asked
  {
    hide Run, SomeWriteFails;
    OrderKeptIff(events);
    var s := Run(events);
    assert Account(s)[..|s.wire|] == s.wire;
  }

  /** Two packets, of which the first is given up after its one write has failed. */
  const FAILING: seq<Event> := [Enqueue([1]), Enqueue([2]), Turn(0), Turn(0), Turn(0), Turn(1)]

  /** A failed write drops the packet in hand, and the sender goes on with the next one as if nothing had happened. */
  lemma FailedWriteLosesPacket()
    ensures var s := Run(FAILING);
      s.asked == [1, 2] && s.wire == [2] && s.unsent == [] && s.queue == [] && s.lost == 1
  {
    var s2 := Sender([[1], [2]], [], [], [1, 2], 0);
    assert FAILING[..2][..1] == [Enqueue([1])];
    assert Run([Enqueue([1])]) == Sender([[1]], [], [], [1], 0);
    assert Run(FAILING[..2]) == s2;
    assert FAILING[..3][..2] == FAILING[..2];
    assert Run(FAILING[..3]) == s2.(queue := [[2]], unsent := [1]);
    assert FAILING[..4][..3] == FAILING[..3];
    assert Run(FAILING[..4]) == s2.(queue := [[2]], lost := 1);
    assert FAILING[..5][..4] == FAILING[..4];
    assert Run(FAILING[..5]) == s2.(queue := [], unsent := [2], lost := 1);
    assert FAILING[..5] == FAILING[..|FAILING| - 1];
  }

  class TlsTransport {
    var txQueue: seq<seq<byte>>
    var data: seq<byte>      // the packet in hand
    var totalSent: nat
    var written: seq<byte>   // what SSL_write has accepted
    ghost var asked: seq<byte>
    ghost var lost: nat

    ghost predicate Valid()
      reads this
    {
      totalSent <= |data|
    }

    ghost function State(): Sender
      requires Valid()
      reads this
    {
      Sender(txQueue, data[totalSent..], written, asked, lost)
    }

    constructor ()
      ensures Valid() && State() == IDLE
    {
      txQueue, data, totalSent, written := [], [], 0, [];
      asked, lost := [], 0;
    }

    method SendData(packet: seq<byte>)
      modifies this
      ensures txQueue == old(txQueue) + [packet]
      ensures old(Valid()) ==> Valid() && State() == Next(old(State()), Enqueue(packet))
    {
      txQueue := txQueue + [packet];
      asked := asked + packet;
    }

    /** One turn of the sending thread; `sent` is what the write returns if one is made. */
    method TakeTurn(sent: int)
      requires Valid() && (totalSent < |data| ==> sent <= |data| - totalSent)
      modifies this
      ensures Valid() && State() == Next(old(State()), Turn(sent))
    {
      if totalSent == |data| {
        if txQueue != [] {
          data, totalSent := txQueue[0], 0;
          txQueue := txQueue[1..];
        }
      } else if sent <= 0 {
        lost := lost + (|data| - totalSent);
        totalSent := |data|;
      } else {
        assert data[totalSent..][..sent] == data[totalSent..totalSent + sent];
        written := written + data[totalSent..totalSent + sent];
        totalSent := totalSent + sent;
      }
    }
  }
}
