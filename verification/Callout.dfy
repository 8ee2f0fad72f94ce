/**
 The callout queue of the clock: routines to call after a number of ticks, each with the ticks it has left written as
 a difference from the entry before it.
 */
module Callout {
  import opened Seqs

  /** A routine and its argument. */
  datatype Call = Call(func: int, arg: int)

  /** One call of timeout: the `id`th, made when the clock stood at `at`, for `ticks` ticks. */
  datatype Armed = Armed(id: nat, call: Call, at: int, ticks: int) {

    /** The tick it is due at: no fewer than one after it was armed. */
    function Deadline(): int {
      at + if ticks <= 0 then 1 else ticks
    }
  }

  datatype Fired = Fired(entry: Armed, when: int)

  /** What is pending, in order, and what has become of the rest. */
  datatype State = State(now: int, made: nat, queue: seq<Armed>, fired: seq<Fired>, cancelled: seq<Armed>)

  datatype Event = Tick | Arm(call: Call, ticks: int) | Cancel(call: Call) | Soft

  ghost predicate Sorted(q: seq<Armed>) {
    forall i, j :: 0 <= i < j < |q| ==> q[i].Deadline() <= q[j].Deadline()
  }

  /** How many entries come before one due at `d`: those due earlier. */
  function Place(q: seq<Armed>, d: int): (i: nat)
    ensures i <= |q|
    ensures forall j :: 0 <= j < i ==> q[j].Deadline() < d
    ensures i < |q| ==> d <= q[i].Deadline()
  {
    if q == [] || d <= q[0].Deadline() then 0 else 1 + Place(q[1..], d)
  }

  /** The first entry for a call, or the number of entries if there is none. */
  function Find(q: seq<Armed>, call: Call): (i: nat)
    ensures i <= |q|
    ensures forall j :: 0 <= j < i ==> q[j].call != call
    ensures i < |q| ==> q[i].call == call
  {
    if q == [] || q[0].call == call then 0 else 1 + Find(q[1..], call)
  }

  function Ticked(s: State): State {
    s.(now := s.now + 1)
  }

  function Next(s: State, call: Call, ticks: int): Armed {
    Armed(s.made, call, s.now, ticks)
  }

  function ArmedBy(s: State, call: Call, ticks: int): State {
    var e := Next(s, call, ticks);
    s.(made := s.made + 1, queue := Inserted(s.queue, Place(s.queue, e.Deadline()), e))
  }

  function CancelledBy(s: State, call: Call): State {
    var i := Find(s.queue, call);
    if i == |s.queue| then s else s.(queue := Removed(s.queue, i), cancelled := s.cancelled + [s.queue[i]])
  }

  /** Nothing is due. */
  predicate Idle(s: State) {
    s.queue == [] || s.now < s.queue[0].Deadline()
  }

  /** One turn of softclock's loop. */
  function Softened(s: State): State {
    if Idle(s) then s else s.(queue := s.queue[1..], fired := s.fired + [Fired(s.queue[0], s.now)])
  }

  function Step(s: State, e: Event): State {
    match e
    case Tick => Ticked(s)
    case Arm(call, ticks) => ArmedBy(s, call, ticks)
    case Cancel(call) => CancelledBy(s, call)
    case Soft => Softened(s)
  }

  function Run(s: State, es: seq<Event>): State
    decreases |es|
  {
    if es == [] then s else Run(Step(s, es[0]), es[1..])
  }

  /** What has become of the calls of timeout. */
  predicate Fate(s: State, x: Armed) {
    x in s.queue || (exists f <- s.fired :: f.entry == x) || x in s.cancelled
  }

  /** The number of places an id is found at. */
  function Count(s: State, id: nat): nat {
    InQueue(s.queue, id) + InFired(s.fired, id) + InQueue(s.cancelled, id)
  }

  function InQueue(q: seq<Armed>, id: nat): nat {
    if q == [] then 0 else (if q[0].id == id then 1 else 0) + InQueue(q[1..], id)
  }

  function InFired(f: seq<Fired>, id: nat): nat {
    if f == [] then 0 else (if f[0].entry.id == id then 1 else 0) + InFired(f[1..], id)
  }

  lemma {:induction false} InQueueConcat(p: seq<Armed>, q: seq<Armed>, id: nat)
    ensures InQueue(p + q, id) == InQueue(p, id) + InQueue(q, id)
  {
    if p == [] {
      assert p + q == q;
    } else {
      assert (p + q)[1..] == p[1..] + q;
      InQueueConcat(p[1..], q, id);
    }
  }

  lemma {:induction false} InFiredConcat(p: seq<Fired>, q: seq<Fired>, id: nat)
    ensures InFired(p + q, id) == InFired(p, id) + InFired(q, id)
  {
    if p == [] {
      assert p + q == q;
    } else {
      assert (p + q)[1..] == p[1..] + q;
      InFiredConcat(p[1..], q, id);
    }
  }

  lemma InsertedCount(q: seq<Armed>, i: nat, e: Armed, id: nat)
    requires i <= |q|
    ensures InQueue(Inserted(q, i, e), id) == InQueue(q, id) + if e.id == id then 1 else 0
  {
    assert q == q[..i] + q[i..];
    InQueueConcat(q[..i], q[i..], id);
    InQueueConcat(q[..i] + [e], q[i..], id);
    InQueueConcat(q[..i], [e], id);
    assert [e][1..] == [];
  }

  lemma RemovedCount(q: seq<Armed>, i: nat, id: nat)
    requires i < |q|
    ensures InQueue(q, id) == InQueue(Removed(q, i), id) + if q[i].id == id then 1 else 0
  {
    assert q == Inserted(Removed(q, i), i, q[i]);
    InsertedCount(Removed(q, i), i, q[i], id);
  }

  /**
   Over any run: what is pending is in order of deadline; every call of timeout is pending, has fired or was cancelled,
   one of the three and once; and nothing has fired before its time.
   */
  ghost predicate Inv(s: State) {
    && Sorted(s.queue)
    && (forall id: nat :: Count(s, id) == if id < s.made then 1 else 0)
    && (forall f <- s.fired :: f.entry.Deadline() <= f.when <= s.now)
  }

  lemma SortedInserted(q: seq<Armed>, i: nat, e: Armed)
    requires Sorted(q) && i <= |q| && (forall j :: 0 <= j < i ==> q[j].Deadline() < e.Deadline())
      && (i < |q| ==> e.Deadline() <= q[i].Deadline())
    ensures Sorted(Inserted(q, i, e))
  {
  }

  lemma ArmKeepsInv(s: State, call: Call, ticks: int)
    requires Inv(s)
    ensures Inv(ArmedBy(s, call, ticks))
  {
    var t, x := ArmedBy(s, call, ticks), Next(s, call, ticks);
    SortedInserted(s.queue, Place(s.queue, x.Deadline()), x);
    forall id: nat
      ensures Count(t, id) == if id < t.made then 1 else 0
    {
      assert Count(s, id) == if id < s.made then 1 else 0;
      InsertedCount(s.queue, Place(s.queue, x.Deadline()), x, id);
    }
  }

  lemma CancelKeepsInv(s: State, call: Call)
    requires Inv(s)
    ensures Inv(CancelledBy(s, call))
  {
    var t, i := CancelledBy(s, call), Find(s.queue, call);
    if i < |s.queue| {
      forall id: nat
        ensures Count(t, id) == Count(s, id)
      {
        RemovedCount(s.queue, i, id);
        InQueueConcat(s.cancelled, [s.queue[i]], id);
        assert [s.queue[i]][1..] == [];
      }
    }
  }

  lemma SoftKeepsInv(s: State)
    requires Inv(s)
    ensures Inv(Softened(s))
  {
    var t := Softened(s);
    if !Idle(s) {
      forall id: nat
        ensures Count(t, id) == Count(s, id)
      {
        InFiredConcat(s.fired, [Fired(s.queue[0], s.now)], id);
        assert [Fired(s.queue[0], s.now)][1..] == [];
      }
    }
  }

  lemma TickKeepsInv(s: State)
    requires Inv(s)
    ensures Inv(Ticked(s))
  {
    assert forall id: nat :: Count(Ticked(s), id) == Count(s, id);
  }

  lemma StepKeepsInv(s: State, e: Event)
    requires Inv(s)
    ensures Inv(Step(s, e))
  {
    match e
    case Tick => TickKeepsInv(s);
    case Arm(call, ticks) => ArmKeepsInv(s, call, ticks);
    case Cancel(call) => CancelKeepsInv(s, call);
    case Soft => SoftKeepsInv(s);
  }

  lemma {:induction false} RunKeepsInv(s: State, es: seq<Event>)
    requires Inv(s)
    ensures Inv(Run(s, es))
    decreases |es|
  {
    if es != [] {
      StepKeepsInv(s, es[0]);
      RunKeepsInv(Step(s, es[0]), es[1..]);
    }
  }

  lemma StepKeepsFate(s: State, e: Event, x: Armed)
    requires Fate(s, x)
    ensures Fate(Step(s, e), x)
    ensures x in Step(s, e).cancelled ==> x in s.cancelled || e == Cancel(x.call)
  {
  }

  /** Entry `i` of the queue is the first for a call. */
  ghost predicate FirstFor(q: seq<Armed>, i: nat, call: Call) {
    i < |q| && q[i].call == call && forall j :: 0 <= j < i ==> q[j].call != call
  }

  /**
   What a cancellation does: the first entry for the call goes from the queue, and is noted; the rest stays in order.
   */
  lemma CancelDoes(s: State, call: Call)
    ensures
      var t := Step(s, Cancel(call));
      && t.now == s.now && t.made == s.made && t.fired == s.fired
      && ((forall i :: 0 <= i < |s.queue| ==> s.queue[i].call != call) ==> t == s)
      && forall i: nat :: FirstFor(s.queue, i, call) ==>
        && |t.queue| == |s.queue| - 1
        && (forall j :: 0 <= j < |t.queue| ==> t.queue[j] == s.queue[if j < i then j else j + 1])
        && |t.cancelled| == |s.cancelled| + 1 && t.cancelled[|s.cancelled|] == s.queue[i]
        && forall j :: 0 <= j < |s.cancelled| ==> t.cancelled[j] == s.cancelled[j]
  {
    forall i: nat | FirstFor(s.queue, i, call)
      ensures i == Find(s.queue, call)
    {
    }
  }

  /** A cancelled entry is not in the queue any more, and does not fire, whatever else happens. */
  lemma CancelledNeverFires(s: State, call: Call, i: nat, es: seq<Event>)
    requires Inv(s) && FirstFor(s.queue, i, call)
    ensures
      var t, u := Step(s, Cancel(call)), Run(Step(s, Cancel(call)), es);
      && (forall x <- t.queue :: x.id != s.queue[i].id)
      && (forall x <- u.queue :: x.id != s.queue[i].id)
      && forall f <- u.fired :: f.entry.id != s.queue[i].id
  {
    var t, x := Step(s, Cancel(call)), s.queue[i];
    CancelDoes(s, call);
    StepKeepsInv(s, Cancel(call));
    NotElsewhere(t, x);
    RunKeepsInv(t, es);
    StaysCancelled(t, es, x);
    NotElsewhere(Run(t, es), x);
  }

  lemma NotElsewhere(s: State, x: Armed)
    requires Inv(s) && x in s.cancelled
    ensures forall y <- s.queue :: y.id != x.id
    ensures forall f <- s.fired :: f.entry.id != x.id
  {
    forall f | f in s.fired
      ensures f.entry.id != x.id
    {
      var j :| 0 <= j < |s.fired| && s.fired[j] == f;
      FiresOnce(s, j);
      assert x in s.queue + s.cancelled;
    }
    forall y | y in s.queue
      ensures y.id != x.id
    {
      var k :| 0 <= k < |s.cancelled| && s.cancelled[k] == x;
      EntryCount(s.cancelled, k);
      var j :| 0 <= j < |s.queue| && s.queue[j] == y;
      EntryCount(s.queue, j);
      assert Count(s, x.id) <= 1;
    }
  }

  lemma {:induction false} StaysCancelled(s: State, es: seq<Event>, x: Armed)
    requires x in s.cancelled
    ensures x in Run(s, es).cancelled
    decreases |es|
  {
    if es != [] {
      assert x in Step(s, es[0]).cancelled;
      StaysCancelled(Step(s, es[0]), es[1..], x);
    }
  }

  /** Entry `i` is new in the queue: what is due before it is in front of it, and the rest behind. */
  ghost predicate NewAt(q: seq<Armed>, now: seq<Armed>, i: nat, call: Call, id: nat, at: int, ticks: int) {
    var due := if ticks < 1 then at + 1 else at + ticks;
    && i < |now| == |q| + 1 && now[i].call == call && now[i].id == id && now[i].Deadline() == due
    && (forall j :: 0 <= j < i ==> now[j] == q[j] && q[j].Deadline() < due)
    && (forall j :: i < j < |now| ==> now[j] == q[j - 1] && due <= q[j - 1].Deadline())
  }

  /**
   What arming does: one entry more, with the call and an id of its own, due after the ticks, or at the next tick if
   they are none; all due earlier are before it, all others behind; and nothing else changes.
   */
  lemma ArmDoes(s: State, call: Call, ticks: int)
    requires Inv(s)
    ensures
      var t := Step(s, Arm(call, ticks));
      && t.now == s.now && t.made == s.made + 1 && t.fired == s.fired && t.cancelled == s.cancelled
      && exists i :: NewAt(s.queue, t.queue, i, call, s.made, s.now, ticks)
  {
    var t, x := Step(s, Arm(call, ticks)), Next(s, call, ticks);
    assert NewAt(s.queue, t.queue, Place(s.queue, x.Deadline()), call, s.made, s.now, ticks);
  }

  /** What a tick does: the clock is one further, and nothing else changes. */
  lemma TickDoes(s: State)
    ensures
      var t := Step(s, Tick);
      t.now == s.now + 1 && t.made == s.made && t.queue == s.queue && t.fired == s.fired && t.cancelled == s.cancelled
  {
  }

  /**
   What a turn of softclock does: the first entry is called if it is due, at this very tick, and goes from the queue.
   */
  lemma SoftDoes(s: State)
    ensures
      var t := Step(s, Soft);
      && t.now == s.now && t.made == s.made && t.cancelled == s.cancelled
      && if s.queue != [] && s.queue[0].Deadline() <= s.now then
          && |t.queue| == |s.queue| - 1 && (forall j :: 0 <= j < |t.queue| ==> t.queue[j] == s.queue[j + 1])
          && |t.fired| == |s.fired| + 1 && t.fired[|s.fired|].entry == s.queue[0] && t.fired[|s.fired|].when == s.now
          && forall j :: 0 <= j < |s.fired| ==> t.fired[j] == s.fired[j]
        else t == s
  {
  }

  lemma {:induction false} RunKeepsFate(s: State, es: seq<Event>, x: Armed)
    requires Fate(s, x)
    ensures Fate(Run(s, es), x)
    ensures x in Run(s, es).cancelled ==> x in s.cancelled || Cancel(x.call) in es
    decreases |es|
  {
    if es != [] {
      StepKeepsFate(s, es[0], x);
      RunKeepsFate(Step(s, es[0]), es[1..], x);
    }
  }

  lemma EntryCount(q: seq<Armed>, i: nat)
    requires i < |q|
    ensures InQueue(q, q[i].id) > 0
  {
    RemovedCount(q, i, q[i].id);
  }

  lemma FiredCount(f: seq<Fired>, i: nat)
    requires i < |f|
    ensures InFired(f, f[i].entry.id) > 0
  {
    assert f == f[..i] + f[i..];
    InFiredConcat(f[..i], f[i..], f[i].entry.id);
  }

  /** Nothing fires twice, nothing that was cancelled fires, and nothing that fired is pending. */
  lemma FiresOnce(s: State, i: nat)
    requires Inv(s) && i < |s.fired|
    ensures forall j :: 0 <= j < |s.fired| && j != i ==> s.fired[j].entry.id != s.fired[i].entry.id
    ensures forall x <- s.queue + s.cancelled :: x.id != s.fired[i].entry.id
  {
    var id := s.fired[i].entry.id;
    assert Count(s, id) <= 1;
    FiredCount(s.fired, i);
    forall j | 0 <= j < |s.fired| && j != i
      ensures s.fired[j].entry.id != id
    {
      var m := if i < j then j else i;
      assert s.fired == s.fired[..m] + s.fired[m..];
      InFiredConcat(s.fired[..m], s.fired[m..], id);
      FiredCount(s.fired[..m], if i < j then i else j);
      FiredCount(s.fired[m..], 0);
    }
    forall x | x in s.queue + s.cancelled
      ensures x.id != id
    {
      if x in s.queue {
        var j :| 0 <= j < |s.queue| && s.queue[j] == x;
        EntryCount(s.queue, j);
      } else {
        var j :| 0 <= j < |s.cancelled| && s.cancelled[j] == x;
        EntryCount(s.cancelled, j);
      }
    }
  }

  lemma PendingNotCancelled(s: State, x: Armed)
    requires Inv(s) && x in s.queue
    ensures x !in s.cancelled
  {
    assert Count(s, x.id) <= 1;
    if x in s.cancelled {
      var i :| 0 <= i < |s.queue| && s.queue[i] == x;
      var j :| 0 <= j < |s.cancelled| && s.cancelled[j] == x;
      EntryCount(s.queue, i);
      EntryCount(s.cancelled, j);
    }
  }

  /**
   The promise of timeout: whatever else happens, the first time softclock has nothing left to do after the ticks have
   passed, the routine has been called, and was not called before they had; unless someone asked to cancel it.
   */
  lemma FiresInTime(s: State, es: seq<Event>, x: Armed)
    requires Inv(s) && x in s.queue && Cancel(x.call) !in es
    requires Idle(Run(s, es)) && x.Deadline() <= Run(s, es).now
    ensures exists f <- Run(s, es).fired :: f.entry == x && x.Deadline() <= f.when
  {
    RunKeepsInv(s, es);
    PendingNotCancelled(s, x);
    RunKeepsFate(s, es, x);
    assert x !in Run(s, es).queue;
  }

  /** How many entries are due. */
  function Overdue(q: seq<Armed>, now: int): nat {
    if q == [] || now < q[0].Deadline() then 0 else 1 + Overdue(q[1..], now)
  }

  lemma {:induction false} OverdueInserted(q: seq<Armed>, now: int, i: nat, e: Armed)
    requires i <= |q| && now < e.Deadline() && (i < |q| ==> e.Deadline() <= q[i].Deadline())
    ensures Overdue(Inserted(q, i, e), now) == Overdue(q, now)
    decreases i
  {
    if i == 0 {
      assert Inserted(q, 0, e)[0] == e;
    } else {
      assert Inserted(q, i, e)[0] == q[0] && Inserted(q, i, e)[1..] == Inserted(q[1..], i - 1, e);
      OverdueInserted(q[1..], now, i - 1, e);
    }
  }

  lemma {:induction false} OverdueRemoved(q: seq<Armed>, now: int, i: nat)
    requires Sorted(q) && i < |q|
    ensures Overdue(Removed(q, i), now) <= Overdue(q, now)
    decreases i
  {
    if i == 0 {
      assert Removed(q, 0) == q[1..];
    } else {
      assert Removed(q, i)[0] == q[0] && Removed(q, i)[1..] == Removed(q[1..], i - 1);
      OverdueRemoved(q[1..], now, i - 1);
    }
  }

  /** What a routine called by the clock may do to the queue. */
  predicate Request(e: Event) {
    e.Arm? || e.Cancel?
  }

  /** No request makes anything due at once. */
  lemma RequestNotDue(s: State, e: Event)
    requires Inv(s) && Request(e)
    ensures Overdue(Step(s, e).queue, Step(s, e).now) <= Overdue(s.queue, s.now)
  {
    match e
    case Arm(call, ticks) =>
      var x := Next(s, call, ticks);
      OverdueInserted(s.queue, s.now, Place(s.queue, x.Deadline()), x);
    case Cancel(call) =>
      if Find(s.queue, call) < |s.queue| {
        OverdueRemoved(s.queue, s.now, Find(s.queue, call));
      }
  }

  function Ticks(es: seq<Event>): nat {
    if es == [] then 0 else Ticks(es[..|es| - 1]) + if es[|es| - 1].Tick? then 1 else 0
  }

  /** Of a list of what is to happen, the requests and the first ticks. */
  function Kept(es: seq<Event>, ticks: int): seq<Event> {
    if es == [] then []
    else
      var k, e := Kept(es[..|es| - 1], ticks), es[|es| - 1];
      if e.Soft? || (e.Tick? && Ticks(k) >= ticks) then k else k + [e]
  }

  /** The last of the turns of softclock: the first entry is called, being due, and all its routine asks for happens. */
  ghost predicate Turn(s: State, work: (Call, seq<Event>) -> seq<Event>, most: nat, before: seq<Event>,
        es: seq<Event>) {
    var t := Run(s, before);
    !Idle(t) && es == before + [Soft] + Kept(work(t.queue[0].call, before + [Soft]), most - Ticks(before))
  }

  /** What happened is a number of turns of softclock. */
  ghost predicate Served(s: State, work: (Call, seq<Event>) -> seq<Event>, most: nat, es: seq<Event>)
    decreases |es|
  {
    es == [] || exists k :: 0 <= k < |es| && Served(s, work, most, es[..k]) && Turn(s, work, most, es[..k], es)
  }

  lemma ServedNone(s: State, work: (Call, seq<Event>) -> seq<Event>, most: nat)
    ensures Served(s, work, most, [])
  {
  }

  lemma RunNone(s: State)
    ensures Run(s, []) == s
  {
  }

  lemma KeptNone(ticks: int)
    ensures Kept([], ticks) == [] && Ticks([]) == 0
  {
  }

  lemma TicksMore(es: seq<Event>, e: Event)
    ensures Ticks(es + [e]) == Ticks(es) + if e.Tick? then 1 else 0
  {
    assert (es + [e])[..|es|] == es;
  }

  lemma KeptMore(es: seq<Event>, ticks: int, i: nat)
    requires i < |es|
    ensures
      var k, e := Kept(es[..i], ticks), es[i];
      var l := if e.Soft? || (e.Tick? && Ticks(k) >= ticks) then k else k + [e];
      Kept(es[..i + 1], ticks) == l && Ticks(l) == Ticks(k) + if l != k && e.Tick? then 1 else 0
  {
    assert es[..i + 1][..i] == es[..i];
  }

  lemma OneMoreTurn(s: State, work: (Call, seq<Event>) -> seq<Event>, most: nat, before: seq<Event>, es: seq<Event>)
    requires Served(s, work, most, before) && Turn(s, work, most, before, es)
    ensures Served(s, work, most, es)
  {
    hide Turn;
    assert |before| < |es| && es[..|before|] == before by {
      TurnIs(s, work, most, before, es);
    }
  }

  lemma TurnIs(s: State, work: (Call, seq<Event>) -> seq<Event>, most: nat, before: seq<Event>, es: seq<Event>)
    requires Turn(s, work, most, before, es)
    ensures |before| < |es| && es[..|before|] == before
  {
  }

  lemma {:induction false} RunMore(s: State, es: seq<Event>, e: Event)
    ensures Run(s, es + [e]) == Step(Run(s, es), e)
    decreases |es|
  {
    if es == [] {
      assert es + [e] == [e] && [e][1..] == [];
    } else {
      assert (es + [e])[1..] == es[1..] + [e];
      RunMore(Step(s, es[0]), es[1..], e);
    }
  }

  /** The ticks of entry `i` as they are stored: its own once it is due, else the difference from the one before. */
  function Delta(q: seq<Armed>, now: int, i: nat): int
    requires i < |q|
  {
    var r := q[i].Deadline() - now;
    var before := if i == 0 then 0 else q[i - 1].Deadline() - now;
    if r <= 0 || before <= 0 then r else r - before
  }

  /** The ticks left, read off a list of stored ticks: what counts is what is positive, but for those already due. */
  function TicksLeft(ts: seq<int>, i: nat): int
    requires i < |ts|
  {
    if forall j :: 0 <= j <= i ==> ts[j] <= 0 then ts[i] else Positives(ts[..i + 1])
  }

  function Positives(ts: seq<int>): int {
    if ts == [] then 0 else Positives(ts[..|ts| - 1]) + if ts[|ts| - 1] > 0 then ts[|ts| - 1] else 0
  }

  /** The ticks a list stores are those of its deadlines. */
  ghost predicate Stored(q: seq<Armed>, now: int, ts: seq<int>) {
    |ts| == |q| && forall j :: 0 <= j < |q| ==> ts[j] == Delta(q, now, j)
  }

  lemma {:induction false} PositiveSum(q: seq<Armed>, now: int, ts: seq<int>, i: nat)
    requires Sorted(q) && Stored(q, now, ts) && i < |q|
    ensures Positives(ts[..i + 1]) == if q[i].Deadline() > now then q[i].Deadline() - now else 0
  {
    assert ts[..i + 1][..i] == ts[..i];
    if i > 0 {
      PositiveSum(q, now, ts, i - 1);
    }
  }

  lemma {:induction false} NonePositive(ts: seq<int>)
    requires forall j :: 0 <= j < |ts| ==> ts[j] <= 0
    ensures Positives(ts) == 0
  {
    if ts != [] {
      NonePositive(ts[..|ts| - 1]);
    }
  }

  /** The stored differences say the same as the deadlines. */
  lemma DifferencesAddUp(q: seq<Armed>, now: int, ts: seq<int>, i: nat)
    requires Sorted(q) && Stored(q, now, ts) && i < |q|
    ensures TicksLeft(ts, i) == q[i].Deadline() - now
  {
    PositiveSum(q, now, ts, i);
    if forall j :: 0 <= j <= i ==> ts[j] <= 0 {
      NonePositive(ts[..i + 1]);
    }
  }

  lemma InvSorted(s: State)
    requires Inv(s)
    ensures Sorted(s.queue)
  {
  }

  /** The first `n` entries are due, and no more. */
  ghost predicate FirstNotDue(q: seq<Armed>, now: int, n: nat) {
    n <= |q| && (forall i :: 0 <= i < n ==> q[i].Deadline() <= now) && (n < |q| ==> now < q[n].Deadline())
  }

  lemma DeltaFirst(q: seq<Armed>, now: int, n: nat)
    requires n < |q| && forall i :: 0 <= i < n ==> q[i].Deadline() <= now
    ensures Delta(q, now, n) == q[n].Deadline() - now
  {
  }

  /** One tick more: the entries that are due and the first that is not are written, and no other. */
  lemma DeltaTicked(q: seq<Armed>, now: int, n: nat, j: nat)
    requires Sorted(q) && FirstNotDue(q, now, n) && j < |q|
    ensures Delta(q, now + 1, j) == Delta(q, now, j) - if j <= n then 1 else 0
  {
  }

  /** The ticks from now to the deadline of the entry before the `i`th, if that is still to come. */
  function Ahead(q: seq<Armed>, now: int, i: nat): int
    requires i <= |q|
  {
    if 0 < i && now < q[i - 1].Deadline() then q[i - 1].Deadline() - now else 0
  }

  /** What the search of timeout goes by: the stored ticks less than those still to place. */
  lemma SearchStep(q: seq<Armed>, now: int, i: nat, t: int)
    requires Sorted(q) && i < |q| && t > Ahead(q, now, i)
    ensures Delta(q, now, i) < t - Ahead(q, now, i) <==> q[i].Deadline() < now + t
    ensures Delta(q, now, i) < t - Ahead(q, now, i) ==>
      Ahead(q, now, i + 1) == Ahead(q, now, i) + (if Delta(q, now, i) > 0 then Delta(q, now, i) else 0) < t
  {
  }

  lemma DeltaArmed(q: seq<Armed>, now: int, i: nat, e: Armed, j: nat)
    requires Sorted(q) && i <= |q| && j <= |q| && now < e.Deadline()
    requires (forall m :: 0 <= m < i ==> q[m].Deadline() < e.Deadline())
      && (i < |q| ==> e.Deadline() <= q[i].Deadline())
    ensures
      var t := Delta(Inserted(q, i, e), now, j);
      && (j < i ==> t == Delta(q, now, j))
      && (j == i ==> t == e.Deadline() - now - Ahead(q, now, i))
      && (j == i + 1 ==> t == Delta(q, now, i) - Delta(Inserted(q, i, e), now, i))
      && (j > i + 1 ==> t == Delta(q, now, j - 1))
  {
  }

  lemma DeltaCancelled(q: seq<Armed>, now: int, i: nat, j: nat)
    requires Sorted(q) && i < |q| && j < |q| - 1
    ensures
      var t := Delta(Removed(q, i), now, j);
      && (j < i ==> t == Delta(q, now, j))
      && (j == i ==> t == Delta(q, now, i + 1) + if Delta(q, now, i) > 0 then Delta(q, now, i) else 0)
      && (j > i ==> t == Delta(q, now, j + 1))
  {
  }

  lemma DeltaSoftened(q: seq<Armed>, now: int, j: nat)
    requires Sorted(q) && j < |q| - 1 && q[0].Deadline() <= now
    ensures Delta(q[1..], now, j) == Delta(q, now, j + 1)
  {
  }

  lemma PlaceIs(q: seq<Armed>, d: int, i: nat)
    requires Sorted(q) && i <= |q| && (forall j :: 0 <= j < i ==> q[j].Deadline() < d)
      && (i < |q| ==> d <= q[i].Deadline())
    ensures i == Place(q, d)
  {
  }

  lemma FindIs(q: seq<Armed>, call: Call, i: nat)
    requires i <= |q| && (forall j :: 0 <= j < i ==> q[j].call != call) && (i < |q| ==> q[i].call == call)
    ensures i == Find(q, call)
  {
  }

  /** struct callout. */
  class Entry {
    var time: int
    var call: Call
    var next: Entry?

    constructor (next: Entry?)
      ensures this.next == next
    {
      time, call, this.next := 0, Call(0, 0), next;
    }
  }

  predicate Follows(c: seq<Entry>, i: nat)
    requires i < |c|
    reads c`next
  {
    c[i].next == if i + 1 < |c| then c[i + 1] else null
  }

  /** Each entry leads to the next, the last to none. */
  ghost predicate Linked(c: seq<Entry>)
    reads c`next
  {
    forall i :: 0 <= i < |c| ==> Follows(c, i)
  }

  /** No entry is on both lists. */
  ghost predicate Separate(c: seq<Entry>, d: seq<Entry>) {
    forall i, j :: 0 <= i < |c| && 0 <= j < |d| ==> c[i] != d[j]
  }

  /** An entry in front of a list. */
  lemma PushLinked(e: Entry, c: seq<Entry>)
    requires Linked(c) && e.next == (if c == [] then null else c[0])
    ensures Linked([e] + c)
  {
    var d := [e] + c;
    forall i | 0 <= i < |d|
      ensures Follows(d, i)
    {
      if i > 0 {
        LinkAt(c, i - 1);
      }
    }
  }

  lemma LinkAt(c: seq<Entry>, i: nat)
    requires Linked(c) && i < |c|
    ensures c[i].next == if i + 1 < |c| then c[i + 1] else null
  {
    assert Follows(c, i);
  }

  ghost function Members(c: seq<Entry>): set<Entry> {
    set e | e in c
  }

  lemma InsertedAt<T>(q: seq<T>, i: nat, e: T)
    requires i <= |q|
    ensures |Inserted(q, i, e)| == |q| + 1 && Inserted(q, i, e)[i] == e
    ensures forall j :: 0 <= j < i ==> Inserted(q, i, e)[j] == q[j]
    ensures forall j :: i < j <= |q| ==> Inserted(q, i, e)[j] == q[j - 1]
  {
  }

  lemma RemovedAt<T>(q: seq<T>, i: nat)
    requires i < |q|
    ensures |Removed(q, i)| == |q| - 1
    ensures forall j :: 0 <= j < i ==> Removed(q, i)[j] == q[j]
    ensures forall j :: i <= j < |q| - 1 ==> Removed(q, i)[j] == q[j + 1]
  {
  }

  lemma RemovedFrom(c: seq<Entry>, i: nat)
    requires i < |c|
    ensures forall k :: 0 <= k < |Removed(c, i)| ==> Removed(c, i)[k] in c
  {
  }

  /** Entry `j` of the queue is in the chain as it should be. */
  ghost predicate Fits(c: seq<Entry>, q: seq<Armed>, now: int, j: nat)
    requires j < |q| < |c|
    reads c`call, c`time
  {
    c[j + 1].call == q[j].call && c[j + 1].time == Delta(q, now, j)
  }

  lemma NextDue(s: State, call: Call, ticks: int)
    ensures Next(s, call, ticks).Deadline() == s.now + (if ticks <= 0 then 1 else ticks)
      && Next(s, call, ticks).call == call
  {
  }

  lemma InsertedParts(c: seq<Entry>, i: nat, e: Entry, d: seq<Entry>)
    requires 0 < i <= |c| && e !in c && e !in d && Separate(c, d)
    ensures Members(Inserted(c, i, e)) == Members(c) + {e} && Separate(Inserted(c, i, e), d) && Inserted(c, i, e) != []
      && Inserted(c, i, e)[0] == c[0]
  {
    assert c == c[..i] + c[i..];
  }

  lemma RemovedParts(c: seq<Entry>, i: nat, d: seq<Entry>)
    requires 0 < i < |c| && Distinct(c) && Separate(c, d)
    ensures Members(Removed(c, i)) == Members(c) - {c[i]} && Separate(Removed(c, i), d) && Removed(c, i) != []
      && Removed(c, i)[0] == c[0]
  {
    assert c == c[..i] + [c[i]] + c[i + 1..];
  }

  /** The pending entries hold the calls and the stored ticks of the queue. */
  ghost predicate AllFit(c: seq<Entry>, q: seq<Armed>, now: int)
    reads c`call, c`time
  {
    |c| == |q| + 1 && forall i :: 0 <= i < |q| ==> Fits(c, q, now, i)
  }

  lemma FitAt(c: seq<Entry>, q: seq<Armed>, now: int, i: nat)
    requires AllFit(c, q, now) && i < |q|
    ensures |c| == |q| + 1 && c[i + 1].call == q[i].call && c[i + 1].time == Delta(q, now, i)
  {
    assert Fits(c, q, now, i);
  }

  class Queue {
    const calltodo: Entry           // its next is the first pending entry
    var callfree: Entry?
    ghost var chain: seq<Entry>     // calltodo and the pending entries
    ghost var free: seq<Entry>      // the entries on the free list
    ghost const entries: set<Entry>
    ghost var st: State

    ghost predicate Valid()
      reads this, calltodo, chain, free
    {
      Lists({}) && Inv(st) && AllFit(chain, st.queue, st.now)
    }

    /** Every entry but those on neither list is on one of the two lists, and once. */
    ghost predicate Lists(loose: set<Entry>)
      reads this`chain, this`free, this`callfree, chain`next, free`next
    {
      && chain != [] && chain[0] == calltodo && Linked(chain) && Linked(free)
          && callfree == (if free == [] then null else free[0])
      && Distinct(chain) && Distinct(free) && Separate(chain, free)
      && Members(chain) + Members(free) + loose == entries && Members(chain) !! loose && Members(free) !! loose
    }

    /** The table of `ncallout` entries, all of them on the free list. */
    constructor (ncallout: nat)
      ensures Valid() && fresh(entries) && fresh(calltodo) && st == State(0, 0, [], [], []) && |free| == ncallout
    {
      var head: Entry? := null;
      ghost var made: seq<Entry> := [];
      for i := 0 to ncallout
        invariant |made| == i && Linked(made) && Distinct(made) && head == (if made == [] then null else made[0])
        invariant forall i :: 0 <= i < |made| ==> fresh(made[i])
      {
        var e := new Entry(head);
        PushLinked(e, made);
        made := [e] + made;
        head := e;
      }
      var todo := new Entry(null);
      calltodo, callfree, chain, free := todo, head, [todo], made;
      entries := {todo} + Members(made);
      st := State(0, 0, [], [], []);
    }

    /** The loop of hardclock over the front of the queue. */
    method CountDown(ghost q: seq<Armed>, ghost now: int) returns (needsoft: bool, ghost n: nat)
      requires AllFit(chain, q, now) && chain[0] == calltodo && Linked(chain) && Distinct(chain) && Sorted(q)
      modifies chain`time
      ensures FirstNotDue(q, now, n) && (needsoft <==> q != [] && q[0].Deadline() <= now + 1)
      ensures AllFit(chain, q, now + 1)
    {
      hide Linked, Delta, Armed.Deadline;
      needsoft, n := false, 0;
      LinkAt(chain, 0);
      var p1 := calltodo.next;
      while p1 != null
        invariant n <= |q| && p1 == (if n < |q| then chain[n + 1] else null)
        invariant needsoft <==> n > 0
        invariant forall i :: 0 <= i < n ==> q[i].Deadline() <= now
        invariant forall i :: 0 <= i <= n ==> chain[i].time == old(chain[i].time) - if 0 < i then 1 else 0
        invariant forall i :: n < i <= |q| ==> chain[i].time == old(chain[i].time)
        decreases |q| - n
      {
        DeltaFirst(q, now, n);
        assert old(Fits(chain, q, now, n));
        LinkAt(chain, n + 1);
        p1.time := p1.time - 1;
        if p1.time > 0 {
          break;
        }
        needsoft := true;
        if p1.time == 0 {
          break;
        }
        p1 := p1.next;
        n := n + 1;
      }
      ghost var c, later := chain, now + 1;
      forall i | 0 <= i < |q|
        ensures Fits(c, q, later, i)
      {
        assert old(Fits(c, q, now, i));
        DeltaTicked(q, now, n, i);
      }
    }

    /** The lines of hardclock that count a tick; `needsoft` if softclock has something to call. */
    method Hardclock() returns (needsoft: bool)
      requires Valid()
      modifies this`st, chain`time
      ensures Valid() && st == Ticked(old(st)) && needsoft == !Idle(st)
    {
      hide Inv, Delta, Linked, Separate, Distinct, Members, FirstNotDue, Armed.Deadline;
      InvSorted(st);
      ghost var q, now, n := st.queue, st.now, 0;
      needsoft, n := CountDown(q, now);
      TickKeepsInv(st);
      st := Ticked(st);
    }

    /** An entry put behind the `i`th of the chain. */
    method PutBehind(ghost i: nat, p1: Entry, pnew: Entry)
      requires Linked(chain) && Distinct(chain) && i < |chain| && p1 == chain[i] && pnew !in chain
      modifies this`chain, p1`next, pnew`next
      ensures chain == Inserted(old(chain), i + 1, pnew) && Linked(chain) && Distinct(chain)
    {
      ghost var c := chain;
      LinkAt(c, i);
      pnew.next := p1.next;
      p1.next := pnew;
      chain := Inserted(c, i + 1, pnew);
      forall j | 0 <= j < |chain|
        ensures Follows(chain, j)
      {
        if j < i {
          assert old(Follows(c, j));
        } else if j > i + 1 {
          assert old(Follows(c, j - 1));
        }
      }
    }

    /** The entry after the `i`th taken out of the chain. */
    method TakeOut(ghost i: nat, p1: Entry, p2: Entry)
      requires Linked(chain) && Distinct(chain) && i + 1 < |chain| && p1 == chain[i] && p2 == chain[i + 1]
      modifies this`chain, p1`next
      ensures chain == Removed(old(chain), i + 1) && Linked(chain) && Distinct(chain) && p2 !in chain
    {
      ghost var c := chain;
      LinkAt(c, i + 1);
      p1.next := p2.next;
      chain := Removed(c, i + 1);
      forall j | 0 <= j < |chain|
        ensures Follows(chain, j)
      {
        if j < i {
          assert old(Follows(c, j));
        } else if j > i {
          assert old(Follows(c, j + 1));
        }
      }
    }

    /** An entry put in front of the free list. */
    method Release(e: Entry)
      requires Linked(free) && Distinct(free) && callfree == (if free == [] then null else free[0]) && e !in free
      modifies this`free, this`callfree, e`next
      ensures free == [e] + old(free) && Linked(free) && Distinct(free) && callfree == e
    {
      e.next := callfree;
      forall i | 0 <= i < |free|
        ensures Follows(free, i)
      {
        assert old(Follows(free, i));
      }
      PushLinked(e, free);
      callfree := e;
      free := [e] + free;
    }

    /** The search of timeout for the place of an entry `ticks` from now, and how far that is from the one before. */
    method FindPlace(ghost q: seq<Armed>, ghost now: int, ticks: int)
          returns (p1: Entry, p2: Entry?, t: int, ghost i: nat)
      requires AllFit(chain, q, now) && chain[0] == calltodo && Linked(chain) && ticks > 0 && Sorted(q)
      ensures i == Place(q, now + ticks) && p1 == chain[i] && p2 == (if i < |q| then chain[i + 1] else null)
      ensures t == ticks - Ahead(q, now, i)
    {
      hide Linked, Delta;
      i, t, p1 := 0, ticks, calltodo;
      LinkAt(chain, 0);
      p2 := p1.next;
      while p2 != null && p2.time < t
        invariant i <= |q| && p1 == chain[i] && p2 == (if i < |q| then chain[i + 1] else null)
        invariant 0 < t == ticks - Ahead(q, now, i)
        invariant forall j :: 0 <= j < i ==> q[j].Deadline() < now + ticks
        decreases |q| - i
      {
        SearchStep(q, now, i, ticks);
        assert Fits(chain, q, now, i);
        if p2.time > 0 {
          t := t - p2.time;
        }
        LinkAt(chain, i + 1);
        p1 := p2;
        p2 := p1.next;
        i := i + 1;
      }
      if i < |q| {
        SearchStep(q, now, i, ticks);
        assert Fits(chain, q, now, i);
      }
      PlaceIs(q, now + ticks, i);
    }

    lemma Opened(loose: set<Entry>)
      requires Lists(loose) && AllFit(chain, st.queue, st.now) && Inv(st)
      ensures chain != [] && chain[0] == calltodo && Linked(chain) && Distinct(chain)
        && (callfree == null <==> free == [])
      ensures Sorted(st.queue) && |chain| == |st.queue| + 1 
      ensures Members(chain) <= entries && Members(free) <= entries && Members(chain) !! loose && loose <= entries
    {
    }

    /** The first entry taken off the free list. */
    method Grab() returns (e: Entry)
      requires Lists({}) && free != []
      modifies this`free, this`callfree
      ensures Lists({e}) && e == old(free)[0] && free == old(free)[1..]
    {
      ghost var d := free;
      e := callfree;
      LinkAt(d, 0);
      callfree := e.next;
      free := free[1..];
      forall i | 0 <= i < |free|
        ensures Follows(free, i)
      {
        LinkAt(d, i + 1);
      }
      assert d == [e] + free;
    }

    /** An entry of neither list given to the free list. */
    method Give(e: Entry)
      requires Lists({e})
      modifies this`free, this`callfree, e`next
      ensures Lists({}) && free == [e] + old(free)
    {
      Release(e);
      forall i | 0 <= i < |chain|
        ensures Follows(chain, i)
      {
        assert old(Follows(chain, i));
      }
    }

    /** An entry of neither list put behind the `i`th of the chain. */
    method Enter(ghost i: nat, p1: Entry, e: Entry)
      requires Lists({e}) && i < |chain| && p1 == chain[i]
      modifies this`chain, p1`next, e`next
      ensures Lists({}) && chain == Inserted(old(chain), i + 1, e)
    {
      ghost var c, d := chain, free;
      hide Inserted;
      PutBehind(i, p1, e);
      forall j | 0 <= j < |free|
        ensures Follows(free, j)
      {
        assert old(Follows(free, j));
      }
      InsertedParts(c, i + 1, e, d);
    }

    /** The entry after the `i`th of the chain taken off it. */
    method Leave(ghost i: nat, p1: Entry, e: Entry)
      requires Lists({}) && i + 1 < |chain| && p1 == chain[i] && e == chain[i + 1]
      modifies this`chain, p1`next
      ensures Lists({e}) && chain == Removed(old(chain), i + 1)
    {
      ghost var c, d := chain, free;
      hide Removed;
      TakeOut(i, p1, e);
      forall j | 0 <= j < |free|
        ensures Follows(free, j)
      {
        assert old(Follows(free, j));
      }
      RemovedParts(c, i + 1, d);
    }

    /** The lines of timeout that write the ticks of the new entry and take them off the one behind it. */
    method Fill(pnew: Entry, p2: Entry?, rest: int, ghost c: seq<Entry>, ghost q: seq<Armed>, ghost now: int,
          ghost i: nat, ghost x: Armed)
      requires AllFit(c, q, now) && Distinct(c) && pnew !in c && pnew.call == x.call && Sorted(q) && now < x.Deadline()
      requires i == Place(q, x.Deadline()) && p2 == (if i < |q| then c[i + 1] else null)
        && rest == x.Deadline() - now - Ahead(q, now, i)
      modifies pnew`time, c`time
      ensures AllFit(Inserted(c, i + 1, pnew), Inserted(q, i, x), now)
    {
      hide Delta, Ahead, Inserted, Armed.Deadline;
      pnew.time := rest;
      if p2 != null {
        p2.time := p2.time - rest;
      }
      InsertedAt(c, i + 1, pnew);
      InsertedAt(q, i, x);
      ghost var c', q' := Inserted(c, i + 1, pnew), Inserted(q, i, x);
      forall j | 0 <= j <= |q|
        ensures Fits(c', q', now, j)
      {
        DeltaArmed(q, now, i, x, j);
        DeltaArmed(q, now, i, x, i);
        if j < i {
          assert old(Fits(c, q, now, j));
        } else if j > i {
          assert old(Fits(c, q, now, j - 1));
        }
      }
    }

    /** The lines of timeout that put an entry, which is on neither list, in its place. */
    method Queued(pnew: Entry, ticks: int, ghost x: Armed)
      requires Lists({pnew}) && AllFit(chain, st.queue, st.now) && Inv(st) && pnew.call == x.call && ticks > 0
        && x.Deadline() == st.now + ticks
      modifies this`chain, chain`time, chain`next, pnew`time, pnew`next
      ensures Lists({}) && AllFit(chain, Inserted(st.queue, Place(st.queue, x.Deadline()), x), st.now)
    {
      hide Inv, Delta, Ahead, Linked, Separate, Distinct, Armed.Deadline, Inserted, Lists, AllFit;
      Opened({pnew});
      ghost var q, now, c := st.queue, st.now, chain;
      var p1, p2, rest, i := FindPlace(q, now, ticks);
      Enter(i, p1, pnew);
      Fill(pnew, p2, rest, c, q, now, i, x);
    }

    /** timeout.  `panic` exactly when the free list is empty. */
    method Timeout(call: Call, ticks: int) returns (panic: bool)
      requires Valid()
      modifies this`st, this`chain, this`free, this`callfree, entries
      ensures panic <==> old(free) == []
      ensures Valid() && st == (if panic then old(st) else ArmedBy(old(st), call, ticks))
        && free == if panic then [] else old(free)[1..]
    {
      hide Inv, Delta, Ahead, Linked, Separate, Distinct, Armed.Deadline, Inserted, Lists, AllFit;
      Opened({});
      NextDue(st, call, ticks);
      panic := callfree == null;
      if panic {
        return;
      }
      var pnew := Grab();
      Opened({pnew});
      pnew.call := call;
      Queued(pnew, if ticks <= 0 then 1 else ticks, Next(st, call, ticks));
      ArmKeepsInv(st, call, ticks);
      st := ArmedBy(st, call, ticks);
    }

    /** The search of untimeout. */
    method FindCall(ghost q: seq<Armed>, ghost now: int, call: Call) returns (p1: Entry, p2: Entry?, ghost i: nat)
      requires AllFit(chain, q, now) && chain[0] == calltodo && Linked(chain)
      ensures i == Find(q, call) && p1 == chain[i] && p2 == if i < |q| then chain[i + 1] else null
    {
      hide Linked, Delta;
      i, p1 := 0, calltodo;
      LinkAt(chain, 0);
      p2 := p1.next;
      while p2 != null && p2.call != call
        invariant i <= |q| && p1 == chain[i] && p2 == (if i < |q| then chain[i + 1] else null)
        invariant forall j :: 0 <= j < i ==> q[j].call != call
        decreases |q| - i
      {
        assert Fits(chain, q, now, i);
        LinkAt(chain, i + 1);
        p1 := p2;
        p2 := p1.next;
        i := i + 1;
      }
      assert i < |q| ==> Fits(chain, q, now, i);
      FindIs(q, call, i);
    }

    /** The line of untimeout that gives the ticks of an entry to the one behind it. */
    method Bequeath(e: Entry, ghost c: seq<Entry>, ghost q: seq<Armed>, ghost now: int, ghost i: nat)
      requires AllFit(c, q, now) && Linked(c) && Distinct(c) && Sorted(q) && i < |q| && e == c[i + 1]
      modifies c`time
      ensures AllFit(Removed(c, i + 1), Removed(q, i), now)
    {
      hide Delta, Linked, Removed;
      LinkAt(c, i + 1);
      assert Fits(c, q, now, i);
      if e.next != null && e.time > 0 {
        assert Fits(c, q, now, i + 1);
        e.next.time := e.next.time + e.time;
      }
      RemovedAt(c, i + 1);
      RemovedAt(q, i);
      ghost var c', q' := Removed(c, i + 1), Removed(q, i);
      forall j | 0 <= j < |q'|
        ensures Fits(c', q', now, j)
      {
        DeltaCancelled(q, now, i, j);
        if j < i {
          assert old(Fits(c, q, now, j));
        } else {
          assert old(Fits(c, q, now, j + 1));
        }
      }
    }

    /** untimeout: the first entry for the call, if there is one, goes back to the free list. */
    method Untimeout(call: Call)
      requires Valid()
      modifies this`st, this`chain, this`free, this`callfree, entries
      ensures Valid() && st == CancelledBy(old(st), call)
      ensures |free| == |old(free)| + |old(st).queue| - |st.queue|
    {
      hide Inv, Delta, Linked, Separate, Distinct, Lists, AllFit, Removed;
      Opened({});
      ghost var q, now, c := st.queue, st.now, chain;
      var p1, p2, i := FindCall(q, now, call);
      if p2 != null {
        RemovedAt(q, i);
        RemovedFrom(c, i + 1);
        Bequeath(p2, c, q, now, i);
        Leave(i, p1, p2);
        Give(p2);
        CancelKeepsInv(st, call);
        st := CancelledBy(st, call);
      }
    }

    /**
     One turn of softclock's loop, up to the call itself: the call, and how many ticks late it is as a number not
     above 0.
     */
    method Due() returns (fire: bool, call: Call, a: int)
      requires Valid()
      modifies this`st, this`chain, this`free, this`callfree, entries
      ensures fire == !Idle(old(st))
      ensures Valid() && st == Softened(old(st))
      ensures fire ==> call == old(st).queue[0].call && a == old(st).queue[0].Deadline() - old(st).now <= 0
      ensures |free| == |old(free)| + |old(st).queue| - |st.queue|
    {
      hide Inv, Linked, Separate, Distinct, Lists, AllFit;
      Opened({});
      ghost var q, now, c := st.queue, st.now, chain;
      LinkAt(chain, 0);
      var p1 := calltodo.next;
      call, a := Call(0, 0), 0;
      if p1 != null {
        FitAt(chain, q, now, 0);
      }
      if p1 == null || p1.time > 0 {
        return false, call, a;
      }
      fire, call, a := true, p1.call, p1.time;
      Softer(c, q, now);
      Leave(0, calltodo, p1);
      Give(p1);
      SoftKeepsInv(st);
      st := Softened(st);
    }

    /**
     softclock.  What happens while a routine is called, requests of the routine and ticks of the clock, is what `work`
     says, and may depend on all that has happened so far. Whatever it is, with no more than `most` ticks among it
     softclock comes to an end, with nothing left to call; `panic` when a request finds the table full.
     */
    method Softclock(work: (Call, seq<Event>) -> seq<Event>, most: nat) returns (panic: bool, es: seq<Event>)
      requires Valid()
      modifies this`st, this`chain, this`free, this`callfree, entries
      ensures Valid() && st == Run(old(st), es)
      ensures panic ==> free == []
      ensures !panic ==> Idle(st) && Served(old(st), work, most, es)
    {
      hide Inv, Lists, AllFit, Step, Idle, Run, Served, Kept, Overdue;
      panic, es := false, [];
      RunNone(st);
      ServedNone(st, work, most);
      var ticks := 0;
      while true
        invariant Valid() && st == Run(old(st), es) && ticks == Ticks(es) <= most && Served(old(st), work, most, es)
        decreases most - ticks, Overdue(st.queue, st.now)
      {
        RunMore(old(st), es, Soft);
        SoftCounts(st);
        ghost var before := es;
        var fire, call, a := Due();
        if !fire {
          break;
        }
        panic, es, ticks := Meanwhile(work(call, es + [Soft]), old(st), es + [Soft], ticks, most);
        if panic {
          return;
        }
        OneMoreTurn(old(st), work, most, before, es);
      }
    }

    /** What happens while a routine is called. */
    method Meanwhile(todo: seq<Event>, ghost s: State, before: seq<Event>, was: nat, most: nat)
      returns (panic: bool, es: seq<Event>, ticks: nat)
      requires Valid() && st == Run(s, before) && was == Ticks(before) <= most
      modifies this`st, this`chain, this`free, this`callfree, entries
      ensures Valid() && st == Run(s, es) && was <= ticks == Ticks(es) <= most
      ensures if panic then free == [] else es == before + Kept(todo, most - was)
      ensures ticks == was ==> Overdue(st.queue, st.now) <= Overdue(old(st).queue, old(st).now)
    {
      hide Inv, Lists, AllFit, Step, Run, Overdue, Kept, Ticks;
      KeptNone(most - was);
      panic, es, ticks := false, before, was;
      for i := 0 to |todo|
        invariant Valid() && st == Run(s, es) && was <= ticks == Ticks(es) <= most
        invariant es == before + Kept(todo[..i], most - was) && ticks == was + Ticks(Kept(todo[..i], most - was))
        invariant ticks == was ==> Overdue(st.queue, st.now) <= Overdue(old(st).queue, old(st).now)
      {
        KeptMore(todo, most - was, i);
        if todo[i].Soft? || (todo[i].Tick? && ticks == most) {
          continue;
        }
        RunMore(s, es, todo[i]);
        if !todo[i].Tick? {
          RequestNotDue(st, todo[i]);
        }
        panic := Happen(todo[i]);
        if panic {
          return;
        }
        TicksMore(es, todo[i]);
        ticks := ticks + if todo[i].Tick? then 1 else 0;
        es := es + [todo[i]];
      }
      assert todo[..|todo|] == todo;
    }

    /** A request of a routine, or a tick of the clock. */
    method Happen(e: Event) returns (panic: bool)
      requires Valid() && !e.Soft?
      modifies this`st, this`chain, this`free, this`callfree, entries
      ensures Valid() && st == if panic then old(st) else Step(old(st), e)
      ensures panic ==> free == []
    {
      hide Inv, Lists, AllFit;
      Opened({});
      panic := false;
      match e {
        case Arm(call, ticks) => panic := Timeout(call, ticks);
        case Cancel(call) => Untimeout(call);
        case Tick => var needsoft := Hardclock();
      }
    }
  }

  lemma SoftCounts(s: State)
    ensures Step(s, Soft) == Softened(s) && (!Idle(s) ==>
      Overdue(Softened(s).queue, Softened(s).now) < Overdue(s.queue, s.now))
  {
  }

  /** The chain without its first pending entry holds the queue without its first. */
  lemma Softer(c: seq<Entry>, q: seq<Armed>, now: int)
    requires AllFit(c, q, now) && Sorted(q) && q != [] && q[0].Deadline() <= now
    ensures AllFit(Removed(c, 1), q[1..], now)
  {
    hide Delta, Armed.Deadline;
    var c', q' := Removed(c, 1), q[1..];
    forall j | 0 <= j < |q'|
      ensures Fits(c', q', now, j)
    {
      DeltaSoftened(q, now, j);
      assert Fits(c, q, now, j + 1);
    }
  }
}
