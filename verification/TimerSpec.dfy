/** What the timer queue is for, as a machine over whole runs: timers are
    requested, time passes, and interrupts fire whatever is due.  TimerQueue.dfy
    proves that kernel/timer.c refines it. */
module TimerSpec {

  datatype Timer = Timer(serial: nat, callback: int, start: nat, delay: nat) {
    function Deadline(): nat { start + delay }
  }

  datatype Firing = Firing(timer: Timer, at: nat)

  /** added lists every request so far, pending those still to fire. */
  datatype State = State(now: nat, added: seq<Timer>, pending: seq<Timer>, fired: seq<Firing>)

  datatype Event = Add(delay: nat, callback: int) | Tick(dt: nat) | Fire

  const Start: State := State(0, [], [], [])

  /** The index before which a timer due at deadline goes: after every timer not later. */
  function Place(pending: seq<Timer>, deadline: nat): (k: nat)
    ensures k <= |pending|
  {
    if pending == [] || deadline < pending[0].Deadline() then 0 else 1 + Place(pending[1..], deadline)
  }

  /** How many timers at the front are due at now. */
  function DueCount(pending: seq<Timer>, now: nat): (k: nat)
    ensures k <= |pending|
  {
    if pending == [] || pending[0].Deadline() != now then 0 else 1 + DueCount(pending[1..], now)
  }

  function Firings(timers: seq<Timer>, now: nat): seq<Firing> {
    seq(|timers|, i requires 0 <= i < |timers| => Firing(timers[i], now))
  }

  /** Time cannot pass the next deadline before its interrupt is served, and an
      interrupt needs a timer that is due. */
  predicate Enabled(s: State, e: Event) {
    match e
    case Add(_, _) => true
    case Tick(dt) => s.pending != [] ==> s.now + dt <= s.pending[0].Deadline()
    case Fire => s.pending != [] && s.pending[0].Deadline() == s.now
  }

  function Step(s: State, e: Event): State
    requires Enabled(s, e)
  {
    match e
    case Add(delay, callback) =>
      var t := Timer(|s.added|, callback, s.now, delay);
      if delay == 0 then
        s.(added := s.added + [t], fired := s.fired + [Firing(t, s.now)])
      else
        var k := Place(s.pending, t.Deadline());
        s.(added := s.added + [t], pending := s.pending[..k] + [t] + s.pending[k..])
    case Tick(dt) => s.(now := s.now + dt)
    case Fire =>
      var k := DueCount(s.pending, s.now);
      s.(pending := s.pending[k..], fired := s.fired + Firings(s.pending[..k], s.now))
  }

  // ---------------------------------------------------------------- the order of timers

  /** x fires before y: it is due earlier, or at the same time and was asked for earlier. */
  predicate Sooner(x: Timer, y: Timer) {
    x.Deadline() < y.Deadline() || (x.Deadline() == y.Deadline() && x.serial < y.serial)
  }

  ghost predicate Ordered(p: seq<Timer>) {
    forall i, j :: 0 <= i < j < |p| ==> Sooner(p[i], p[j])
  }

  ghost function TimersOf(fired: seq<Firing>): seq<Timer> {
    seq(|fired|, i requires 0 <= i < |fired| => fired[i].timer)
  }

  /** Among firings, time never goes back and simultaneous queued timers keep request order. */
  ghost predicate FiredInOrder(fired: seq<Firing>) {
    forall i, j :: 0 <= i < j < |fired| ==>
      && fired[i].at <= fired[j].at
      && (fired[i].at == fired[j].at && fired[i].timer.delay > 0 && fired[j].timer.delay > 0 ==>
          fired[i].timer.serial < fired[j].timer.serial)
  }

  /** Request k has serial k and was made no later than now. */
  ghost predicate AddedOk(s: State) {
    forall k :: 0 <= k < |s.added| ==> s.added[k].serial == k && s.added[k].start <= s.now
  }

  /** The pending timers wait in firing order and none is overdue. */
  ghost predicate PendingOk(s: State) {
    && Ordered(s.pending)
    && (forall t :: t in s.pending ==> t.delay > 0 && s.now <= t.Deadline() && t.serial < |s.added|)
  }

  /** Every firing happened exactly on time, in order, and before whatever still waits. */
  ghost predicate FiredOk(s: State) {
    && (forall f :: f in s.fired ==> f.at == f.timer.Deadline() && f.at <= s.now)
    && FiredInOrder(s.fired)
    && (forall f, t :: f in s.fired && f.timer.delay > 0 && t in s.pending ==> f.at < t.Deadline())
  }

  /** Each request is either waiting or has fired, once. */
  ghost predicate Conserved(s: State) {
    multiset(s.added) == multiset(s.pending) + multiset(TimersOf(s.fired))
  }

  ghost predicate Inv(s: State) {
    AddedOk(s) && PendingOk(s) && FiredOk(s) && Conserved(s)
  }

  lemma {:induction false} PlaceSplits(p: seq<Timer>, deadline: nat)
    requires Ordered(p)
    ensures var k := Place(p, deadline);
            && (forall i :: 0 <= i < k ==> p[i].Deadline() <= deadline)
            && (forall i :: k <= i < |p| ==> deadline < p[i].Deadline())
  {
    if p != [] && p[0].Deadline() <= deadline {
      PlaceSplits(p[1..], deadline);
      assert forall i :: 1 <= i < |p| ==> p[i] == p[1..][i - 1];
    }
  }

  lemma {:induction false} DueSplits(p: seq<Timer>, now: nat)
    requires Ordered(p) && forall t :: t in p ==> now <= t.Deadline()
    ensures var k := DueCount(p, now);
            && (forall i :: 0 <= i < k ==> p[i].Deadline() == now)
            && (forall i :: k <= i < |p| ==> now < p[i].Deadline())
  {
    if p != [] && p[0].Deadline() == now {
      DueSplits(p[1..], now);
      assert forall i :: 1 <= i < |p| ==> p[i] == p[1..][i - 1];
    }
  }

  lemma TimersOfAppend(a: seq<Firing>, b: seq<Firing>)
    ensures TimersOf(a + b) == TimersOf(a) + TimersOf(b)
  {
  }

  lemma InsertOrdered(p: seq<Timer>, k: nat, t: Timer)
    requires k <= |p| && Ordered(p)
    requires forall i :: 0 <= i < k ==> Sooner(p[i], t)
    requires forall i :: k <= i < |p| ==> Sooner(t, p[i])
    ensures Ordered(p[..k] + [t] + p[k..])
  {
    var q := p[..k] + [t] + p[k..];
    forall i, j | 0 <= i < j < |q| ensures Sooner(q[i], q[j]) {
      var oi, oj := if i < k then i else i - 1, if j < k then j else j - 1;
      assert i != k ==> q[i] == p[oi];
      assert j != k ==> q[j] == p[oj];
    }
  }

  lemma InsertMembers(p: seq<Timer>, k: nat, t: Timer)
    requires k <= |p|
    ensures multiset(p[..k] + [t] + p[k..]) == multiset(p) + multiset{t}
    ensures forall x :: x in p[..k] + [t] + p[k..] <==> x == t || x in p
  {
    assert p == p[..k] + p[k..];
  }

  lemma AppendInOrder(fired: seq<Firing>, more: seq<Firing>)
    requires FiredInOrder(fired) && FiredInOrder(more)
    requires forall f, g :: f in fired && g in more ==> f.at <= g.at
    requires forall f, g :: f in fired && g in more && f.timer.delay > 0 && g.timer.delay > 0 ==> f.at < g.at
    ensures FiredInOrder(fired + more)
  {
    var all := fired + more;
    forall i, j | 0 <= i < j < |all|
      ensures all[i].at <= all[j].at
      ensures all[i].at == all[j].at && all[i].timer.delay > 0 && all[j].timer.delay > 0 ==>
              all[i].timer.serial < all[j].timer.serial
    {
      if i < |fired| <= j {
        assert all[i] in fired && all[j] in more;
      } else if |fired| <= i {
        assert all[i] == more[i - |fired|] && all[j] == more[j - |fired|];
      }
    }
  }

  lemma AddNowKeepsInv(s: State, callback: int)
    requires Inv(s)
    ensures Inv(Step(s, Add(0, callback)))
  {
    var t := Timer(|s.added|, callback, s.now, 0);
    var f := [Firing(t, s.now)];
    AppendInOrder(s.fired, f);
    TimersOfAppend(s.fired, f);
    assert TimersOf(f) == [t];
  }

  /** The newest request goes behind every timer not later than it. */
  lemma PlacedInOrder(p: seq<Timer>, t: Timer)
    requires Ordered(p) && forall x :: x in p ==> x.serial < t.serial
    ensures var k := Place(p, t.Deadline()); Ordered(p[..k] + [t] + p[k..])
  {
    var k := Place(p, t.Deadline());
    PlaceSplits(p, t.Deadline());
    forall i | 0 <= i < k ensures Sooner(p[i], t) {
      assert p[i] in p;
    }
    InsertOrdered(p, k, t);
  }

  lemma AddLaterKeepsInv(s: State, delay: nat, callback: int)
    requires Inv(s) && delay > 0
    ensures Inv(Step(s, Add(delay, callback)))
  {
    var t := Timer(|s.added|, callback, s.now, delay);
    PlacedInOrder(s.pending, t);
    InsertMembers(s.pending, Place(s.pending, t.Deadline()), t);
  }

  /** A part of an ordered list is ordered. */
  lemma PartsOrdered(p: seq<Timer>, k: nat)
    requires Ordered(p) && k <= |p|
    ensures Ordered(p[..k]) && Ordered(p[k..])
  {
  }

  lemma PartsMembers(p: seq<Timer>, k: nat)
    requires k <= |p|
    ensures multiset(p) == multiset(p[..k]) + multiset(p[k..])
    ensures forall t :: t in p[..k] ==> exists i :: 0 <= i < k && p[i] == t
    ensures forall t :: t in p[k..] ==> exists i :: k <= i < |p| && p[i] == t
  {
    assert p == p[..k] + p[k..];
    forall t | t in p[k..] ensures exists i :: k <= i < |p| && p[i] == t {
      var i :| 0 <= i < |p| - k && p[k..][i] == t;
      assert p[k + i] == t;
    }
  }

  /** What firing takes is due, what it leaves is not. */
  lemma FireSplits(p: seq<Timer>, k: nat, now: nat)
    requires Ordered(p) && k == DueCount(p, now) && forall t :: t in p ==> now <= t.Deadline()
    ensures forall t :: t in p[..k] ==> t in p && t.Deadline() == now
    ensures forall t :: t in p[k..] ==> t in p && now < t.Deadline()
  {
    DueSplits(p, now);
    PartsMembers(p, k);
  }

  lemma FireKeepsInv(s: State)
    requires Inv(s) && Enabled(s, Fire)
    ensures Inv(Step(s, Fire))
  {
    var k := DueCount(s.pending, s.now);
    FireSplits(s.pending, k, s.now);
    PartsOrdered(s.pending, k);
    PartsMembers(s.pending, k);
    FireDue(s.fired, s.pending[..k], s.now);
  }

  /** Firing the timers due now, in their order. */
  lemma FireDue(fired: seq<Firing>, due: seq<Timer>, now: nat)
    requires FiredInOrder(fired) && Ordered(due)
    requires forall t :: t in due ==> t.Deadline() == now
    requires forall f :: f in fired ==> f.at <= now
    requires forall f, t :: f in fired && f.timer.delay > 0 && t in due ==> f.at < t.Deadline()
    ensures FiredInOrder(fired + Firings(due, now))
    ensures forall f :: f in fired + Firings(due, now) ==> f in fired || (f.timer in due && f.at == now)
    ensures TimersOf(fired + Firings(due, now)) == TimersOf(fired) + due
  {
    var more := Firings(due, now);
    assert forall i :: 0 <= i < |due| ==> due[i] in due;
    AppendInOrder(fired, more);
  }

  /** Every step keeps the invariant. */
  lemma StepKeepsInv(s: State, e: Event)
    requires Inv(s) && Enabled(s, e)
    ensures Inv(Step(s, e))
  {
    match e
    case Add(delay, callback) =>
      if delay == 0 {
        AddNowKeepsInv(s, callback);
      } else {
        AddLaterKeepsInv(s, delay, callback);
      }
    case Tick(dt) =>
      assert forall t :: t in s.pending ==> s.now + dt <= t.Deadline();
    case Fire => FireKeepsInv(s);
  }

  // ---------------------------------------------------------------- whole runs

  ghost predicate Possible(s: State, events: seq<Event>)
    decreases |events|
  {
    events == [] || (Enabled(s, events[0]) && Possible(Step(s, events[0]), events[1..]))
  }

  function Run(s: State, events: seq<Event>): State
    requires Possible(s, events)
    decreases |events|
  {
    if events == [] then s else Run(Step(s, events[0]), events[1..])
  }

  lemma {:induction false} RunKeepsInv(s: State, events: seq<Event>)
    requires Inv(s) && Possible(s, events)
    ensures Inv(Run(s, events))
    decreases |events|
  {
    if events != [] {
      StepKeepsInv(s, events[0]);
      RunKeepsInv(Step(s, events[0]), events[1..]);
    }
  }

  // ------------------------------------------- the same, read off the event list

  /** How many requests the events make, and how much time they let pass. */
  function AddsIn(events: seq<Event>): nat {
    if events == [] then 0 else (if events[0].Add? then 1 else 0) + AddsIn(events[1..])
  }

  function TicksIn(events: seq<Event>): nat {
    if events == [] then 0 else (if events[0].Tick? then events[0].dt else 0) + TicksIn(events[1..])
  }

  predicate IsAdd(events: seq<Event>, i: nat) { i < |events| && events[i].Add? }

  /** The request that event i makes: its number, callback, time and delay. */
  function RequestAt(events: seq<Event>, i: nat): Timer
    requires IsAdd(events, i)
  {
    Timer(AddsIn(events[..i]), events[i].callback, TicksIn(events[..i]), events[i].delay)
  }

  /** When the callback of event i is due. */
  function DueAt(events: seq<Event>, i: nat): nat
    requires IsAdd(events, i)
  {
    TicksIn(events[..i]) + events[i].delay
  }

  /** A run records exactly the requests of its events, in order, and nothing else. */
  lemma {:induction false} RunRecords(s: State, events: seq<Event>)
    requires Possible(s, events)
    ensures var r := Run(s, events);
            && r.now == s.now + TicksIn(events) && |r.added| == |s.added| + AddsIn(events)
            && r.added[..|s.added|] == s.added
    decreases |events|
  {
    if events != [] {
      var e := events[0];
      RunRecords(Step(s, e), events[1..]);
      var n := |Step(s, e).added|;
      assert Step(s, e).added[..|s.added|] == s.added;
      assert Run(s, events).added[..n][..|s.added|] == Run(s, events).added[..|s.added|];
    }
  }

  lemma PrefixCounts(events: seq<Event>, i: nat)
    requires 0 < i <= |events|
    ensures AddsIn(events[..i]) == (if events[0].Add? then 1 else 0) + AddsIn(events[1..][..i - 1])
    ensures TicksIn(events[..i]) == (if events[0].Tick? then events[0].dt else 0) + TicksIn(events[1..][..i - 1])
  {
    assert events[..i][1..] == events[1..][..i - 1];
  }

  /** Event i is recorded as its own number says, with the delay and callback asked
      for and the time passed before it. */
  lemma {:induction false} RunRecordsAt(s: State, events: seq<Event>, i: nat)
    requires Possible(s, events) && IsAdd(events, i)
    ensures var k, added := |s.added| + AddsIn(events[..i]), Run(s, events).added;
            && k < |added|
            && added[k] == Timer(k, events[i].callback, s.now + TicksIn(events[..i]), events[i].delay)
    decreases |events|
  {
    var e, next := events[0], Step(s, events[0]);
    if i == 0 {
      RunRecords(next, events[1..]);
      assert next.added[|s.added|] == Timer(|s.added|, e.callback, s.now, e.delay);
      assert Run(s, events).added[..|next.added|][|s.added|] == next.added[|s.added|];
    } else {
      PrefixCounts(events, i);
      RunRecordsAt(next, events[1..], i - 1);
    }
  }

  /** And every recorded timer is the request of some event. */
  lemma {:induction false} RecordedBy(s: State, events: seq<Event>, k: nat) returns (i: nat)
    requires Possible(s, events) && |s.added| <= k < |Run(s, events).added|
    ensures IsAdd(events, i) && k == |s.added| + AddsIn(events[..i])
    decreases |events|
  {
    var next := Step(s, events[0]);
    RunRecords(s, events);
    if events[0].Add? && k == |s.added| {
      i := 0;
    } else {
      i := RecordedBy(next, events[1..], k);
      i := i + 1;
      PrefixCounts(events, i);
    }
  }

  /** No timer fires twice. */
  ghost predicate FiredOnce(fired: seq<Firing>) {
    forall a, b :: 0 <= a < b < |fired| ==> fired[a].timer.serial != fired[b].timer.serial
  }

  /** fired is what the events up to now ask for: each firing is a request at its due
      time, none is repeated, none that is overdue is missing, none is early, and their
      order is that of time and, among queued timers, of request. */
  ghost predicate ServedFor(events: seq<Event>, fired: seq<Firing>) {
    && (forall f :: f in fired ==> exists i: nat :: FiredFor(events, i, f))
    && FiredOnce(fired) && FiredInOrder(fired)
    && (forall i: nat :: IsAdd(events, i) && DueAt(events, i) < TicksIn(events) ==>
          Firing(RequestAt(events, i), DueAt(events, i)) in fired)
    && (forall i: nat, f :: IsAdd(events, i) && DueAt(events, i) > TicksIn(events) && f in fired ==>
          f.timer != RequestAt(events, i))
  }

  ghost predicate FiredFor(events: seq<Event>, i: nat, f: Firing) {
    IsAdd(events, i) && f == Firing(RequestAt(events, i), DueAt(events, i))
  }

  lemma EachRecorded(events: seq<Event>, t: Timer) returns (i: nat)
    requires Possible(Start, events) && t in Run(Start, events).added
    ensures IsAdd(events, i) && t == RequestAt(events, i) && t.Deadline() == DueAt(events, i)
  {
    var added := Run(Start, events).added;
    var k :| 0 <= k < |added| && added[k] == t;
    i := RecordedBy(Start, events, k);
    RunRecordsAt(Start, events, i);
  }

  lemma TimersOfFired(fired: seq<Firing>, j: nat)
    requires j < |fired|
    ensures fired[j].timer in TimersOf(fired)
  {
    assert TimersOf(fired)[j] == fired[j].timer;
  }

  lemma DistinctFired(s: State)
    requires Inv(s)
    ensures FiredOnce(s.fired)
  {
    var fired := TimersOf(s.fired);
    forall a, b | 0 <= a < b < |s.fired| ensures s.fired[a].timer.serial != s.fired[b].timer.serial {
      var t, u := s.fired[a].timer, s.fired[b].timer;
      TimersOfFired(s.fired, a);
      TimersOfFired(s.fired, b);
      assert multiset(s.added)[t] > 0 && multiset(s.added)[u] > 0;
      if t.serial == u.serial {
        assert t == u;
        Twice(fired, a, b);
        OnceAdded(s, t);
      }
    }
  }

  lemma Twice(q: seq<Timer>, a: nat, b: nat)
    requires a < b < |q| && q[a] == q[b]
    ensures multiset(q)[q[a]] >= 2
  {
    assert q == q[..b] + [q[b]] + q[b + 1..];
    assert q[..b][a] == q[a];
  }

  lemma OnceAdded(s: State, t: Timer)
    requires AddedOk(s) && t in s.added
    ensures multiset(s.added)[t] == 1
  {
    var k := t.serial;
    var lo, hi := s.added[..k], s.added[k + 1..];
    assert s.added == lo + [s.added[k]] + hi;
    assert t !in lo && t !in hi;
  }

  /** In any run every timer is called once, exactly when the delay asked for has passed
      since it was asked for, in order of time with ties in the order of request; what
      is overdue was called and what is not due was not. */
  lemma AnyRun(events: seq<Event>)
    requires Possible(Start, events)
    ensures var s := Run(Start, events);
            && s.now == TicksIn(events) && |s.added| == AddsIn(events)
            && (forall i: nat :: IsAdd(events, i) ==>
                  AddsIn(events[..i]) < |s.added| && s.added[AddsIn(events[..i])] == RequestAt(events, i))
            && ServedFor(events, s.fired)
  {
    RunKeepsInv(Start, events);
    RunRecords(Start, events);
    var s := Run(Start, events);
    forall i: nat | IsAdd(events, i)
      ensures AddsIn(events[..i]) < |s.added| && s.added[AddsIn(events[..i])] == RequestAt(events, i)
    {
      RunRecordsAt(Start, events, i);
    }
    DistinctFired(s);
    FiredWereAsked(events);
    forall i: nat | IsAdd(events, i)
      ensures DueAt(events, i) < TicksIn(events) ==> Firing(RequestAt(events, i), DueAt(events, i)) in s.fired
      ensures DueAt(events, i) > TicksIn(events) ==> forall f :: f in s.fired ==> f.timer != RequestAt(events, i)
    {
      OnTime(events, i);
    }
  }

  lemma FiredWereAsked(events: seq<Event>)
    requires Possible(Start, events)
    ensures forall f :: f in Run(Start, events).fired ==> exists i: nat :: FiredFor(events, i, f)
  {
    RunKeepsInv(Start, events);
    var s := Run(Start, events);
    forall f | f in s.fired ensures exists i: nat :: FiredFor(events, i, f) {
      var j :| 0 <= j < |s.fired| && s.fired[j] == f;
      TimersOfFired(s.fired, j);
      assert multiset(s.added)[f.timer] > 0;
      var i := EachRecorded(events, f.timer);
      assert FiredFor(events, i, f);
    }
  }

  lemma OnTime(events: seq<Event>, i: nat)
    requires Possible(Start, events) && IsAdd(events, i)
    ensures var s, t := Run(Start, events), RequestAt(events, i);
            && (DueAt(events, i) < TicksIn(events) ==> Firing(t, DueAt(events, i)) in s.fired)
            && (DueAt(events, i) > TicksIn(events) ==> forall f :: f in s.fired ==> f.timer != t)
  {
    RunKeepsInv(Start, events);
    RunRecords(Start, events);
    RunRecordsAt(Start, events, i);
    var s, t := Run(Start, events), RequestAt(events, i);
    assert t in s.added && t.Deadline() == DueAt(events, i);
    if t.Deadline() < s.now {
      Overdue(s, t);
    }
  }

  /** A timer whose time is over has fired. */
  lemma Overdue(s: State, t: Timer)
    requires Inv(s) && t in s.added && t.Deadline() < s.now
    ensures Firing(t, t.Deadline()) in s.fired
  {
    assert multiset(s.added)[t] > 0;
    assert t !in s.pending;
    assert t in TimersOf(s.fired);
    var j :| 0 <= j < |s.fired| && TimersOf(s.fired)[j] == t;
    assert s.fired[j] in s.fired;
  }

  /** When time may pass and when an interrupt comes, over all waiting timers. */
  lemma EnabledExactly(s: State, dt: nat)
    requires Inv(s)
    ensures Enabled(s, Tick(dt)) <==> forall t :: t in s.pending ==> s.now + dt <= t.start + t.delay
    ensures Enabled(s, Fire) <==> exists t :: t in s.pending && t.start + t.delay == s.now
  {
    if s.pending != [] {
      var first := s.pending[0];
      forall t | t in s.pending ensures first.Deadline() <= t.Deadline() {
        var j :| 0 <= j < |s.pending| && s.pending[j] == t;
        assert j > 0 ==> Sooner(first, s.pending[j]);
      }
      assert first in s.pending;
    }
  }
}
