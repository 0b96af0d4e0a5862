/** The packet-window limiter of the plain TCP receiver. */
module Limiter {

  const WINDOW: nat := 5000      // milliseconds
  const LIMIT: nat := 100        // packets
  const NANOS: nat := 1_000_000  // clock ticks in a millisecond

  type Time = int  // ticks of the steady clock

  /** Whole milliseconds between two ticks. */
  function Elapsed(from: Time, to: Time): int
    requires from <= to
  {
    (to - from) / NANOS
  }

  /** The two instants lie in one half-open window. */
  predicate Within(from: Time, to: Time) {
    to - from < WINDOW * NANOS
  }

  lemma ElapsedIff(from: Time, to: Time)
    requires from <= to
    ensures Elapsed(from, to) < WINDOW <==> Within(from, to)
  {
  }

  datatype State = State(count: nat, reset: Time)

  /** What a packet does to the counter, before its header is even read. */
  function Next(s: State, now: Time): State
    requires s.reset <= now
  {
    if Elapsed(s.reset, now) >= WINDOW then State(1, now) else State(s.count + 1, s.reset)
  }

  predicate Ordered(start: Time, times: seq<Time>) {
    && (forall i :: 0 <= i < |times| ==> start <= times[i])
    && (forall i, j :: 0 <= i < j < |times| ==> times[i] <= times[j])
  }

  /** The counter after the first n packets of a session that began at `start`, were none of them banned. */
  function After(start: Time, times: seq<Time>, n: nat): (s: State)
    requires Ordered(start, times) && n <= |times|
    ensures start <= s.reset && forall i :: n <= i < |times| ==> s.reset <= times[i]
  {
    if n == 0 then State(0, start) else Next(After(start, times, n - 1), times[n - 1])
  }

  predicate Banned(start: Time, times: seq<Time>, i: nat)
    requires Ordered(start, times) && i < |times|
  {
    After(start, times, i + 1).count > LIMIT
  }

  /** The counter counts the packets since the window began, all of which fall into one half-open window. */
  lemma {:induction false} CountIsWindow(start: Time, times: seq<Time>, n: nat)
    requires Ordered(start, times) && n <= |times|
    ensures var s := After(start, times, n);
      && s.count <= n
      && (forall i :: n - s.count <= i < n ==> s.reset <= times[i] && Within(s.reset, times[i]))
      && (s.count < n ==> s.count > 0 && s.reset == times[n - s.count])
  {
    if n > 0 {
      CountIsWindow(start, times, n - 1);
      ElapsedIff(After(start, times, n - 1).reset, times[n - 1]);
    }
  }

  /** A packet is banned only if it and the hundred before it fall into one window of five seconds. */
  lemma BannedOnlyIfCrowded(start: Time, times: seq<Time>, i: nat)
    requires Ordered(start, times) && i < |times| && Banned(start, times, i)
    ensures i >= LIMIT && Within(times[i - LIMIT], times[i])
  {
    CountIsWindow(start, times, i + 1);
    var s := After(start, times, i + 1);
    assert s.reset <= times[i - LIMIT] && Within(s.reset, times[i]);
  }

  /** A sender that never puts more than a hundred packets into five seconds is never banned. */
  lemma ModestSenderNeverBanned(start: Time, times: seq<Time>)
    requires Ordered(start, times)
    requires forall i :: LIMIT <= i < |times| ==> !Within(times[i - LIMIT], times[i])
    ensures forall i :: 0 <= i < |times| ==> !Banned(start, times, i)
  {
    forall i | 0 <= i < |times| ensures !Banned(start, times, i) {
      if Banned(start, times, i) {
        BannedOnlyIfCrowded(start, times, i);
      }
    }
  }

  /** While nothing is banned, the window after n packets began at a reset no more than a hundred packets ago. */
  lemma RecentReset(start: Time, times: seq<Time>, n: nat)
    requires Ordered(start, times) && LIMIT < n <= |times| && !Banned(start, times, n - 1)
    ensures var r := n - After(start, times, n).count;
      n - LIMIT <= r < n && After(start, times, n).reset == times[r] && IsReset(start, times, r)
  {
    CountIsWindow(start, times, n);
    ResetAt(start, times, n);
  }

  /** Packet r opens a new window. */
  predicate IsReset(start: Time, times: seq<Time>, r: nat)
    requires Ordered(start, times) && r < |times|
  {
    Elapsed(After(start, times, r).reset, times[r]) >= WINDOW
  }

  lemma AfterStep(start: Time, times: seq<Time>, n: nat)
    requires Ordered(start, times) && 0 < n <= |times|
    ensures After(start, times, n) == Next(After(start, times, n - 1), times[n - 1])
  {
  }

  lemma {:induction false} ResetAt(start: Time, times: seq<Time>, n: nat)
    requires Ordered(start, times) && n <= |times| && 0 < After(start, times, n).count < n
    ensures IsReset(start, times, n - After(start, times, n).count)
  {
    hide After, Elapsed, Within;
    AfterStep(start, times, n);
    CountIsWindow(start, times, n - 1);
    if Elapsed(After(start, times, n - 1).reset, times[n - 1]) < WINDOW {
      ResetAt(start, times, n - 1);
    }
  }

  /**
   * No five seconds forward more than two hundred packets: of any two hundred and one unbanned packets the
   * first and the last do not share a window of that length.
   */
  lemma AtMostTwoHundred(start: Time, times: seq<Time>, i: nat)
    requires Ordered(start, times) && i + 2 * LIMIT < |times|
    requires forall k :: 0 <= k < |times| ==> !Banned(start, times, k)
    ensures !Within(times[i], times[i + 2 * LIMIT])
  {
    hide After, Banned;
    var n := i + 2 * LIMIT + 1;
    RecentReset(start, times, n);
    var b := n - After(start, times, n).count;
    assert i < b - LIMIT + 1;
    var s := After(start, times, b);
    CountIsWindow(start, times, b);
    ElapsedIff(s.reset, times[b]);
    if b > LIMIT {
      RecentReset(start, times, b);
    }
  }

  lemma {:induction false} NoResetSince(start: Time, times: seq<Time>, n: nat, r: nat)
    requires Ordered(start, times) && n <= |times|
    requires n - After(start, times, n).count < r < n
    ensures !IsReset(start, times, r)
  {
    CountIsWindow(start, times, n - 1);
    if r < n - 1 {
      NoResetSince(start, times, n - 1, r);
    }
  }

  /** A packet is banned exactly if it is past the hundredth and no window opened at it or at the 99 before it. */
  lemma {:induction false} BannedIff(start: Time, times: seq<Time>, i: nat)
    requires Ordered(start, times) && i < |times|
    ensures Banned(start, times, i) <==>
      i >= LIMIT && forall r: nat :: i - LIMIT < r <= i ==> !IsReset(start, times, r)
  {
    hide IsReset, After, Within;
    CountIsWindow(start, times, i + 1);
    var r := i + 1 - After(start, times, i + 1).count;
    if Banned(start, times, i) {
      forall q: nat | i - LIMIT < q <= i ensures !IsReset(start, times, q) {
        NoResetSince(start, times, i + 1, q);
      }
    } else if i >= LIMIT {
      CountPositive(start, times, i + 1);
      ResetAt(start, times, i + 1);
      assert IsReset(start, times, r);
    }
  }

  lemma CountPositive(start: Time, times: seq<Time>, n: nat)
    requires Ordered(start, times) && 0 < n <= |times|
    ensures After(start, times, n).count > 0
  {
  }

  /** A hundred packets at the end of the first window and a hundred at the start of the next. */
  function Burst(): (times: seq<Time>)
    ensures |times| == 2 * LIMIT && Ordered(0, times)
  {
    seq(2 * LIMIT, i requires 0 <= i < 2 * LIMIT => if i < LIMIT then WINDOW * NANOS - 1 else WINDOW * NANOS)
  }

  lemma {:induction false} BurstCounts(n: nat)
    requires n <= 2 * LIMIT
    ensures After(0, Burst(), n) == if n <= LIMIT then State(n, 0) else State(n - LIMIT, WINDOW * NANOS)
    decreases n
  {
    if n > 0 {
      BurstCounts(n - 1);
    }
  }

  /** The bound of two hundred is reached: twice the limit can pass within one tick. */
  lemma TwoHundredCanPass()
    ensures forall k :: 0 <= k < 2 * LIMIT ==> !Banned(0, Burst(), k)
    ensures Burst()[2 * LIMIT - 1] - Burst()[0] == 1
  {
    forall k | 0 <= k < 2 * LIMIT ensures !Banned(0, Burst(), k) {
      BurstCounts(k + 1);
    }
  }

  /** The addresses that are no longer accepted. */
  class Blacklist {
    var ips: set<string>

    constructor ()
      ensures ips == {}
    {
      ips := {};
    }

    method Add(ip: string)
      modifies this
      ensures ips == old(ips) + {ip}
    {
      ips := ips + {ip};
    }

    method IsBanned(ip: string) returns (banned: bool)
      ensures banned <==> ip in ips
    {
      banned := ip in ips;
    }
  }

  /** The receiving thread's counter. */
  class TcpTransport {
    const ipAddress: string
    const blacklist: Blacklist
    var packetCountInSecond: nat
    var lastResetTime: Time
    ghost var start: Time
    ghost var times: seq<Time>  // when each packet so far began

    ghost predicate Valid()
      reads this
    {
      Ordered(start, times) && After(start, times, |times|) == State(packetCountInSecond, lastResetTime)
    }

    constructor (now: Time, ip: string, blacklist: Blacklist)
      ensures Valid() && start == now && times == [] && ipAddress == ip && this.blacklist == blacklist
    {
      ipAddress, this.blacklist := ip, blacklist;
      packetCountInSecond, lastResetTime := 0, now;
      start, times := now, [];
    }

    /** Called once a packet's first byte has arrived; says whether its sender is banned, and then blacklists it. */
    method CountPacket(now: Time) returns (banned: bool)
      requires Valid() && Ordered(start, times + [now])
      modifies this, blacklist
      ensures Valid() && start == old(start) && times == old(times) + [now] && Ordered(start, times)
      ensures banned == Banned(start, times, |times| - 1)
      ensures blacklist.ips == old(blacklist.ips) + if banned then {ipAddress} else {}
    {
      SamePrefix(start, times, now, |times|);
      assert After(start, times + [now], |times|).reset <= (times + [now])[|times|];
      if Elapsed(lastResetTime, now) >= WINDOW {
        packetCountInSecond := 0;
        lastResetTime := now;
      }
      packetCountInSecond := packetCountInSecond + 1;
      times := times + [now];
      banned := packetCountInSecond > LIMIT;
      if banned {
        blacklist.Add(ipAddress);
      }
    }
  }

  lemma {:induction false} SamePrefix(start: Time, times: seq<Time>, now: Time, n: nat)
    requires Ordered(start, times) && Ordered(start, times + [now]) && n <= |times|
    ensures After(start, times + [now], n) == After(start, times, n)
    decreases n
  {
    if n > 0 {
      SamePrefix(start, times, now, n - 1);
    }
  }

  // ----- In figures -----

  /** A packet is banned only if it and the hundred before it came within less than five seconds. */
  lemma BannedFigures(start: Time, times: seq<Time>, i: nat)
    requires Ordered(start, times) && i < |times| && Banned(start, times, i)
    ensures i >= 100 && times[i] - times[i - 100] < 5_000_000_000
  {
    BannedOnlyIfCrowded(start, times, i);
  }

  /** And a hundred and one packets at once, after a quiet start, are one too many. */
  lemma HundredAndFirst(times: seq<Time>, now: Time)
    requires |times| == 101 && now >= 0 && forall i :: 0 <= i < 101 ==> times[i] == now
    ensures Ordered(0, times)
    ensures forall i :: 0 <= i < 101 ==> (Banned(0, times, i) <==> i == 100)
  {
    forall i | 0 <= i < 101 ensures Banned(0, times, i) <==> i == 100 {
      AllAtOnce(times, now, i + 1);
    }
  }

  lemma {:induction false} AllAtOnce(times: seq<Time>, now: Time, n: nat)
    requires 0 < n <= |times| && now >= 0 && forall i :: 0 <= i < |times| ==> times[i] == now
    requires Ordered(0, times)
    ensures After(0, times, n) == State(n, if now >= 5_000_000_000 then now else 0)
    decreases n
  {
    if n > 1 {
      AllAtOnce(times, now, n - 1);
    }
  }
}
