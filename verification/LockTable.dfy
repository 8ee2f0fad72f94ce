/**
 The lock device: a table of locks on keys, each of one of four kinds, with a limit to how many of a kind or above can
 be held; a process that cannot have its lock sleeps, on the limit that was reached or on the lock that is in the way.
 */
module LockTable {

  const M_EMTY := 0
  const M_EXCL := 1
  const M_SHARE := 2
  const KINDS := 4              // T_CS, T_PAGE, T_REL, T_DB

  const A_RTN := 1
  const A_SLP := 2
  const A_RLS1 := 3
  const A_RLSA := 4
  const A_ABT := 5

  /** struct Lockreq. */
  datatype Lockreq = Lockreq(act: int, kind: int, mod: int, key: string)

  /** struct Lockform. */
  datatype Lockform = Lockform(pid: int, wflag: bool, kind: int, mod: int, key: string)

  const EMPTY := Lockform(0, false, 0, M_EMTY, "")

  predicate Held(l: Lockform) {
    l.mod != M_EMTY
  }

  /** A held lock that a request cannot be had beside. */
  predicate InTheWay(l: Lockform, q: Lockreq) {
    Held(l) && l.key == q.key && l.kind == q.kind && (l.mod == M_EXCL || q.mod == M_EXCL)
  }

  /** How many locks of kind `k` or above are held. */
  function Count(tab: seq<Lockform>, k: int): (n: nat)
    ensures n <= |tab|
  {
    if tab == [] then 0
      else Count(tab[..|tab| - 1], k) + if Held(tab[|tab| - 1]) && tab[|tab| - 1].kind >= k then 1 else 0
  }

  /** No more locks of kind `k` or above can be had. */
  predicate Full(tab: seq<Lockform>, cap: seq<nat>, k: int) {
    0 <= k < |cap| && Count(tab, k) >= cap[k]
  }

  /**
   What a process in the middle of a request waits for; or, once woken, the kind it goes on from in its search of the
   limits.
   */
  datatype Stage = OnLimit(k: nat) | OnLock(i: nat) | Woken(from: nat)

  datatype Waiter = Waiter(req: Lockreq, stage: Stage)

  datatype State = State(tab: seq<Lockform>, waiters: map<int, Waiter>)

  /** What a sleeper sleeps for has not gone away. */
  predicate Reason(tab: seq<Lockform>, cap: seq<nat>, w: Stage) {
    match w
    case OnLimit(k) => Full(tab, cap, k)
    case OnLock(i) => i < |tab| && Held(tab[i])
    case Woken(_) => true
  }

  function WokenFrom(w: Stage): Stage {
    match w
    case OnLimit(k) => Woken(k + 1)
    case OnLock(i) => Woken(0)
    case Woken(from) => Woken(from)
  }

  /** The waiters after a change to the table: woken if, and only if, their reason to sleep is gone. */
  function Roused(ws: map<int, Waiter>, tab: seq<Lockform>, cap: seq<nat>): map<int, Waiter> {
    map p | p in ws :: if Reason(tab, cap, ws[p].stage) then ws[p] else ws[p].(stage := WokenFrom(ws[p].stage))
  }

  /** The first lock in the way of a request, or the length of the table. */
  function First(tab: seq<Lockform>, q: Lockreq): (i: nat)
    ensures i <= |tab|
    ensures forall j :: 0 <= j < i ==> !InTheWay(tab[j], q)
    ensures i < |tab| ==> InTheWay(tab[i], q)
  {
    if tab == [] || InTheWay(tab[0], q) then 0 else 1 + First(tab[1..], q)
  }

  /** The first slot that is empty, or the length of the table. */
  function Vacant(tab: seq<Lockform>): (i: nat)
    ensures i <= |tab|
    ensures forall j :: 0 <= j < i ==> Held(tab[j])
    ensures i < |tab| ==> !Held(tab[i])
  {
    if tab == [] || !Held(tab[0]) then 0 else 1 + Vacant(tab[1..])
  }

  /**
   The first kind from `from` on, up to that of the request, whose limit is reached; or the one after that of the
   request.
   */
  function Limit(tab: seq<Lockform>, cap: seq<nat>, q: Lockreq, from: nat): (k: nat)
    requires 0 <= q.kind && from <= q.kind + 1
    ensures from <= k <= q.kind + 1
    ensures forall j :: from <= j < k ==> !Full(tab, cap, j)
    ensures k <= q.kind ==> Full(tab, cap, k)
    decreases q.kind + 1 - from
  {
    if from > q.kind || Full(tab, cap, from) then from else Limit(tab, cap, q, from + 1)
  }

  /** A request that can be granted: no lock in its way and no limit reached. */
  predicate Grantable(tab: seq<Lockform>, cap: seq<nat>, q: Lockreq)
    requires 0 <= q.kind
  {
    First(tab, q) == |tab| && Limit(tab, cap, q, 0) == q.kind + 1
  }

  function Entered(tab: seq<Lockform>, q: Lockreq, pid: int): seq<Lockform> {
    var i := Vacant(tab);
    if i == |tab| then tab else tab[i := Lockform(pid, tab[i].wflag, q.kind, q.mod, q.key)]
  }

  function Without(tab: seq<Lockform>, i: nat): seq<Lockform>
    requires i < |tab|
  {
    tab[i := tab[i].(mod := M_EMTY, pid := 0, wflag := false)]
  }

  function Released(s: State, cap: seq<nat>, i: nat): State
    requires i < |s.tab|
  {
    State(Without(s.tab, i), Roused(s.waiters, Without(s.tab, i), cap))
  }

  /** Every lock of a process given up, those in the first `n` slots. */
  function ReleasedAll(s: State, cap: seq<nat>, pid: int, n: nat): State
    requires n <= |s.tab|
    ensures |ReleasedAll(s, cap, pid, n).tab| == |s.tab|
    ensures forall i :: 0 <= i < |s.tab| ==>
      ReleasedAll(s, cap, pid, n).tab[i] == if i < n && Held(s.tab[i])
      && s.tab[i].pid == pid then Without(s.tab, i)[i] else s.tab[i]
  {
    if n == 0 then s
    else
      var t := ReleasedAll(s, cap, pid, n - 1);
      if Held(t.tab[n - 1]) && t.tab[n - 1].pid == pid then Released(t, cap, n - 1) else t
  }

  /** A request goes on from kind `from`: it is granted, or sleeps. */
  function Continued(s: State, cap: seq<nat>, q: Lockreq, pid: int, from: nat): State
    requires 0 <= q.kind && from <= q.kind + 1
    decreases from
  {
    var k := Limit(s.tab, cap, q, from);
    var i := First(s.tab, q);
    if k <= q.kind then s.(waiters := s.waiters[pid := Waiter(q, OnLimit(k))])
    else if from > 0 then Continued(s, cap, q, pid, 0)
    else if i < |s.tab| then State(s.tab[i := s.tab[i].(wflag := true)], s.waiters[pid := Waiter(q, OnLock(i))])
    else State(Entered(s.tab, q, pid), s.waiters - {pid})
  }

  /** A request the device takes on: one for a lock has a kind and a mode there is. */
  predicate WellFormed(q: Lockreq) {
    0 <= q.kind < KINDS && M_EXCL <= q.mod <= M_SHARE
  }

  /**
   At every point of every run: held locks are of a kind there is, within the limits, and no two of them that share key
   and kind have one of them exclusive; and a sleeper sleeps for something that is still so: a limit that is reached,
   or a lock in its way, with the flag on that makes its release wake it.
   */
  ghost predicate Inv(s: State, cap: seq<nat>) {
    && Compatible(s.tab) && Bounded(s.tab, cap)
    && forall p <- s.waiters :: Waits(s.tab, cap, s.waiters[p])
  }

  ghost predicate Compatible(tab: seq<Lockform>) {
    forall i, j ::
      0 <= i < j < |tab| && Held(tab[i]) && Held(tab[j]) && tab[i].key == tab[j].key && tab[i].kind == tab[j].kind ==>
      tab[i].mod == M_SHARE && tab[j].mod == M_SHARE
  }

  ghost predicate Bounded(tab: seq<Lockform>, cap: seq<nat>) {
    && (forall i :: 0 <= i < |tab| && Held(tab[i]) ==> 0 <= tab[i].kind < KINDS && M_EXCL <= tab[i].mod <= M_SHARE)
    && |cap| == KINDS && cap[0] == |tab|
    && forall k :: 0 <= k < KINDS ==> 0 < cap[k] && Count(tab, k) <= cap[k]
  }

  ghost predicate Waits(tab: seq<Lockform>, cap: seq<nat>, w: Waiter) {
    && WellFormed(w.req)
    && match w.stage
       case OnLimit(k) => k <= w.req.kind && Full(tab, cap, k)
       case OnLock(i) => i < |tab| && InTheWay(tab[i], w.req) && tab[i].wflag
       case Woken(from) => from <= w.req.kind + 1
  }

  datatype Event =
    | Try(pid: int, q: Lockreq)           // A_RTN
    | Ask(pid: int, q: Lockreq)           // A_SLP
    | Resume(pid: int)
    | Release(pid: int, q: Lockreq)       // A_RLS1
    | ReleaseAll(pid: int)                // A_RLSA, and exit
    | Abort                               // A_ABT
    | Interrupt(pid: int)

  /** The first lock of a process that a request to release means, or the length of the table. */
  function Mine(tab: seq<Lockform>, q: Lockreq, pid: int): (i: nat)
    ensures i <= |tab|
    ensures forall j :: 0 <= j < i ==>
      !(Held(tab[j]) && tab[j].key == q.key && tab[j].kind == q.kind && tab[j].pid == pid)
    ensures i < |tab| ==> Held(tab[i]) && tab[i].key == q.key && tab[i].kind == q.kind && tab[i].pid == pid
  {
    if tab == [] || (Held(tab[0]) && tab[0].key == q.key && tab[0].kind == q.kind && tab[0].pid == pid) then 0
      else 1 + Mine(tab[1..], q, pid)
  }

  function Cleared(s: State): State {
    State(seq(|s.tab|, _ => EMPTY), map p | p in s.waiters :: s.waiters[p].(stage := WokenFrom(s.waiters[p].stage)))
  }

  function Step(s: State, cap: seq<nat>, e: Event): State {
    match e
    case Try(pid, q) => if WellFormed(q) && Grantable(s.tab, cap, q) then s.(tab := Entered(s.tab, q, pid)) else s
    case Ask(pid, q) => if WellFormed(q) && pid !in s.waiters then Continued(s, cap, q, pid, 0) else s
    case Resume(pid) =>
      if pid in s.waiters && s.waiters[pid].stage.Woken? && 0 <= s.waiters[pid].req.kind
        && s.waiters[pid].stage.from <= s.waiters[pid].req.kind + 1 then
        Continued(s, cap, s.waiters[pid].req, pid, s.waiters[pid].stage.from)
      else s
    case Release(pid, q) => if Mine(s.tab, q, pid) < |s.tab| then Released(s, cap, Mine(s.tab, q, pid)) else s
    case ReleaseAll(pid) => ReleasedAll(s, cap, pid, |s.tab|)
    case Abort => Cleared(s)
    case Interrupt(pid) => s.(waiters := s.waiters - {pid})
  }

  function Run(s: State, cap: seq<nat>, es: seq<Event>): State
    decreases |es|
  {
    if es == [] then s else Run(Step(s, cap, es[0]), cap, es[1..])
  }

  lemma {:induction false} CountUpdate(tab: seq<Lockform>, i: nat, l: Lockform, k: int)
    requires i < |tab|
    ensures Count(tab[i := l], k) == Count(tab, k) - (if Held(tab[i]) && tab[i].kind >= k then 1 else 0) + if Held(l)
      && l.kind >= k then 1 else 0
  {
    var n := |tab| - 1;
    if i < n {
      assert tab[i := l][..n] == tab[..n][i := l];
      CountUpdate(tab[..n], i, l, k);
    } else {
      assert tab[i := l][..n] == tab[..n];
    }
  }

  /** Every lock is of kind 0 at least: when kind 0 is not full, a slot is empty. */
  lemma {:induction false} RoomForOne(tab: seq<Lockform>)
    requires Count(tab, 0) < |tab| && forall i :: 0 <= i < |tab| && Held(tab[i]) ==> 0 <= tab[i].kind
    ensures exists i :: 0 <= i < |tab| && !Held(tab[i])
  {
    var n := |tab| - 1;
    if Held(tab[n]) {
      RoomForOne(tab[..n]);
      var i :| 0 <= i < n && !Held(tab[..n][i]);
      assert !Held(tab[i]);
    }
  }

  lemma {:induction false} NoneCounted(tab: seq<Lockform>, k: int)
    requires forall i :: 0 <= i < |tab| ==> !Held(tab[i])
    ensures Count(tab, k) == 0
  {
    if tab != [] {
      NoneCounted(tab[..|tab| - 1], k);
    }
  }

  /** ilenter always finds a slot: it is called where no limit is reached. */
  lemma GrantFindsSlot(tab: seq<Lockform>, cap: seq<nat>, q: Lockreq)
    requires Bounded(tab, cap) && WellFormed(q) && Grantable(tab, cap, q)
    ensures Vacant(tab) < |tab|
  {
    assert !Full(tab, cap, 0);
    RoomForOne(tab);
  }

  /** A lock entered where it could be granted keeps the table in order, and no sleeper loses its reason. */
  lemma EnterKeepsInv(s: State, cap: seq<nat>, q: Lockreq, pid: int)
    requires Inv(s, cap) && WellFormed(q) && Grantable(s.tab, cap, q)
    ensures Inv(s.(tab := Entered(s.tab, q, pid)), cap)
  {
    GrantFindsSlot(s.tab, cap, q);
    var i := Vacant(s.tab);
    var l := Lockform(pid, s.tab[i].wflag, q.kind, q.mod, q.key);
    var t := Entered(s.tab, q, pid);
    forall k
      ensures Count(t, k) == Count(s.tab, k) + if k <= q.kind then 1 else 0
    {
      CountUpdate(s.tab, i, l, k);
    }
    forall k | 0 <= k < KINDS
      ensures Count(t, k) <= cap[k]
    {
      assert k <= q.kind ==> !Full(s.tab, cap, k);
    }
    EnteredCompatible(s.tab, q, i, l);
    forall p | p in s.waiters
      ensures Waits(t, cap, s.waiters[p])
    {
      assert Waits(s.tab, cap, s.waiters[p]);
    }
  }

  lemma EnteredCompatible(tab: seq<Lockform>, q: Lockreq, i: nat, l: Lockform)
    requires Compatible(tab) && First(tab, q) == |tab| && i < |tab| && !Held(tab[i]) && l.key == q.key
      && l.kind == q.kind && l.mod == q.mod && M_EXCL <= q.mod <= M_SHARE
    requires forall j :: 0 <= j < |tab| && Held(tab[j]) ==> M_EXCL <= tab[j].mod <= M_SHARE
    ensures Compatible(tab[i := l])
  {
    assert forall j :: 0 <= j < |tab| ==> !InTheWay(tab[j], q);
  }

  lemma ReleaseKeepsInv(s: State, cap: seq<nat>, i: nat)
    requires Inv(s, cap) && i < |s.tab| && Held(s.tab[i])
    ensures Inv(Released(s, cap, i), cap)
  {
    var t := Without(s.tab, i);
    forall k
      ensures Count(t, k) == Count(s.tab, k) - if k <= s.tab[i].kind then 1 else 0
    {
      CountUpdate(s.tab, i, t[i], k);
    }
    forall p | p in s.waiters
      ensures Waits(t, cap, Released(s, cap, i).waiters[p])
    {
      assert Waits(s.tab, cap, s.waiters[p]);
    }
  }

  lemma {:induction false} ReleaseAllKeepsInv(s: State, cap: seq<nat>, pid: int, n: nat)
    requires Inv(s, cap) && n <= |s.tab|
    ensures Inv(ReleasedAll(s, cap, pid, n), cap)
  {
    if n > 0 {
      ReleaseAllKeepsInv(s, cap, pid, n - 1);
      var t := ReleasedAll(s, cap, pid, n - 1);
      if Held(t.tab[n - 1]) && t.tab[n - 1].pid == pid {
        ReleaseKeepsInv(t, cap, n - 1);
      }
    }
  }

  lemma FlagKeepsInv(s: State, cap: seq<nat>, i: nat)
    requires Inv(s, cap) && i < |s.tab|
    ensures Inv(s.(tab := s.tab[i := s.tab[i].(wflag := true)]), cap)
  {
    var t := s.tab[i := s.tab[i].(wflag := true)];
    forall k
      ensures Count(t, k) == Count(s.tab, k)
    {
      CountUpdate(s.tab, i, t[i], k);
    }
    forall p | p in s.waiters
      ensures Waits(t, cap, s.waiters[p])
    {
      assert Waits(s.tab, cap, s.waiters[p]);
    }
  }

  lemma ContinueKeepsInv(s: State, cap: seq<nat>, q: Lockreq, pid: int, from: nat)
    requires Inv(s, cap) && WellFormed(q) && from <= q.kind + 1
    ensures Inv(Continued(s, cap, q, pid, from), cap)
    decreases from
  {
    var k := Limit(s.tab, cap, q, from);
    var i := First(s.tab, q);
    if k <= q.kind {
    } else if from > 0 {
      ContinueKeepsInv(s, cap, q, pid, 0);
    } else if i < |s.tab| {
      FlagKeepsInv(s, cap, i);
    } else {
      EnterKeepsInv(s, cap, q, pid);
    }
  }

  lemma ClearKeepsInv(s: State, cap: seq<nat>)
    requires Inv(s, cap)
    ensures Inv(Cleared(s), cap)
  {
    forall k
      ensures Count(Cleared(s).tab, k) == 0
    {
      NoneCounted(Cleared(s).tab, k);
    }
    forall p | p in s.waiters
      ensures Waits(Cleared(s).tab, cap, Cleared(s).waiters[p])
    {
      assert Waits(s.tab, cap, s.waiters[p]);
    }
  }

  lemma StepKeepsInv(s: State, cap: seq<nat>, e: Event)
    requires Inv(s, cap)
    ensures Inv(Step(s, cap, e), cap)
  {
    match e
    case Try(pid, q) =>
      if WellFormed(q) && Grantable(s.tab, cap, q) {
        EnterKeepsInv(s, cap, q, pid);
      }
    case Ask(pid, q) =>
      if WellFormed(q) && pid !in s.waiters {
        ContinueKeepsInv(s, cap, q, pid, 0);
      }
    case Resume(pid) =>
      if pid in s.waiters && s.waiters[pid].stage.Woken? {
        assert Waits(s.tab, cap, s.waiters[pid]);
        ContinueKeepsInv(s, cap, s.waiters[pid].req, pid, s.waiters[pid].stage.from);
      }
    case Release(pid, q) =>
      if Mine(s.tab, q, pid) < |s.tab| {
        ReleaseKeepsInv(s, cap, Mine(s.tab, q, pid));
      }
    case ReleaseAll(pid) => ReleaseAllKeepsInv(s, cap, pid, |s.tab|);
    case Abort => ClearKeepsInv(s, cap);
    case Interrupt(pid) =>
  }

  lemma {:induction false} RunKeepsInv(s: State, cap: seq<nat>, es: seq<Event>)
    requires Inv(s, cap)
    ensures Inv(Run(s, cap, es), cap)
    decreases |es|
  {
    if es != [] {
      StepKeepsInv(s, cap, es[0]);
      RunKeepsInv(Step(s, cap, es[0]), cap, es[1..]);
    }
  }

  /** No wakeup is lost: whenever no lock is held nobody sleeps, and whoever asks or is woken is granted. */
  lemma NoWakeupLost(s: State, cap: seq<nat>, es: seq<Event>, q: Lockreq)
    requires Inv(s, cap) && (forall i :: 0 <= i < |Run(s, cap, es).tab| ==> !Held(Run(s, cap, es).tab[i]))
      && WellFormed(q)
    ensures
      var t := Run(s, cap, es);
      (forall p <- t.waiters :: t.waiters[p].stage.Woken?) && Grantable(t.tab, cap, q)
  {
    RunKeepsInv(s, cap, es);
    var t := Run(s, cap, es);
    forall k
      ensures Count(t.tab, k) == 0
    {
      NoneCounted(t.tab, k);
    }
    forall p | p in t.waiters
      ensures t.waiters[p].stage.Woken?
    {
      assert Waits(t.tab, cap, t.waiters[p]);
    }
  }

  // ---------------------------------------------------------------------------------------------------
  // What requests come to
  // ---------------------------------------------------------------------------------------------------

  /** The slots with locks of kind `k` or above. */
  ghost function Above(tab: seq<Lockform>, k: int): set<nat> {
    set i: nat | i < |tab| && tab[i].mod != M_EMTY && tab[i].kind >= k
  }

  lemma {:induction false} CountIs(tab: seq<Lockform>, k: int)
    ensures Count(tab, k) == |Above(tab, k)|
  {
    if tab != [] {
      var n := |tab| - 1;
      CountIs(tab[..n], k);
      if n in Above(tab, k) {
        assert Above(tab, k) == Above(tab[..n], k) + {n};
      } else {
        assert Above(tab, k) == Above(tab[..n], k);
      }
    }
  }

  /** A lock and a request cannot be had both. */
  predicate Against(key: string, kind: int, mod: int, q: Lockreq) {
    key == q.key && kind == q.kind && (mod == M_EXCL || q.mod == M_EXCL)
  }

  /** No held lock is against the request, and of no kind up to its own are there as many locks as there may be. */
  ghost predicate Clear(tab: seq<Lockform>, cap: seq<nat>, q: Lockreq) {
    && (forall i :: 0 <= i < |tab| && tab[i].mod != M_EMTY ==> !Against(tab[i].key, tab[i].kind, tab[i].mod, q))
    && forall k :: 0 <= k <= q.kind && k < |cap| ==> |Above(tab, k)| < cap[k]
  }

  lemma InvClear(s: State, cap: seq<nat>, q: Lockreq)
    requires Inv(s, cap) && WellFormed(q)
    ensures Clear(s.tab, cap, q) <==> Grantable(s.tab, cap, q)
  {
    ClearIs(s.tab, cap, q);
  }

  lemma ClearIs(tab: seq<Lockform>, cap: seq<nat>, q: Lockreq)
    requires WellFormed(q) && |cap| == KINDS
    ensures Clear(tab, cap, q) <==> Grantable(tab, cap, q)
  {
    hide Count;
    forall k
      ensures Count(tab, k) == |Above(tab, k)|
    {
      CountIs(tab, k);
    }
    var k := Limit(tab, cap, q, 0);
    var i := First(tab, q);
    assert k <= q.kind ==> Full(tab, cap, k);
    assert i < |tab| ==> InTheWay(tab[i], q);
    if Grantable(tab, cap, q) {
      forall i | 0 <= i < |tab| && tab[i].mod != M_EMTY
        ensures !Against(tab[i].key, tab[i].kind, tab[i].mod, q)
      {
        assert !InTheWay(tab[i], q);
      }
      forall k | 0 <= k <= q.kind
        ensures |Above(tab, k)| < cap[k]
      {
        assert !Full(tab, cap, k);
      }
    }
  }

  /** The lock a request is for, held by a process. */
  predicate IsFor(l: Lockform, pid: int, q: Lockreq) {
    l.mod == q.mod && l.kind == q.kind && l.key == q.key && l.pid == pid
  }

  /** One slot, empty before, holds the lock that was asked for, and all others are as they were. */
  ghost predicate OneMore(tab: seq<Lockform>, now: seq<Lockform>, pid: int, q: Lockreq) {
    exists i :: 0 <= i < |tab| == |now| && OneMoreAt(tab, now, i, pid, q)
  }

  ghost predicate OneMoreAt(tab: seq<Lockform>, now: seq<Lockform>, i: int, pid: int, q: Lockreq)
    requires 0 <= i < |tab| == |now|
  {
    && tab[i].mod == M_EMTY && IsFor(now[i], pid, q) && now[i].wflag == tab[i].wflag
    && forall j :: 0 <= j < |tab| && j != i ==> now[j] == tab[j]
  }

  lemma EnteredIs(tab: seq<Lockform>, cap: seq<nat>, q: Lockreq, pid: int)
    requires Bounded(tab, cap) && WellFormed(q) && Grantable(tab, cap, q)
    ensures OneMore(tab, Entered(tab, q, pid), pid, q)
  {
    GrantFindsSlot(tab, cap, q);
    assert OneMoreAt(tab, Entered(tab, q, pid), Vacant(tab), pid, q);
  }

  /** A process that goes on in the middle of its request, or is at its start. */
  ghost predicate Asks(s: State, e: Event, pid: int, q: Lockreq) {
    || (e == Ask(pid, q) && pid !in s.waiters)
    || (e == Resume(pid) && pid in s.waiters && s.waiters[pid].stage.Woken? && s.waiters[pid].req == q)
  }

  /**
   The request is left in the table of waiters, asleep, and the only other change is the flag of what is in its way.
   */
  ghost predicate LeftAsleep(s: State, t: State, pid: int, q: Lockreq) {
    && t.waiters.Keys == s.waiters.Keys + {pid} && t.waiters[pid].req == q && !t.waiters[pid].stage.Woken?
    && (forall p <- s.waiters :: p != pid ==> t.waiters[p] == s.waiters[p])
    && |t.tab| == |s.tab|
    && forall i: nat :: i < |s.tab| ==>
      t.tab[i] == s.tab[i].(wflag := s.tab[i].wflag || t.waiters[pid].stage == OnLock(i))
  }

  /**
   A_SLP, at its start or when the process is woken: granted, there is one more lock, that of the request, and the
   process does not wait; it is granted exactly if nothing is in the way, and else the process sleeps.
   */
  lemma AskDoes(s: State, cap: seq<nat>, e: Event, pid: int, q: Lockreq)
    requires Inv(s, cap) && WellFormed(q) && Asks(s, e, pid, q)
    ensures
      var t := Step(s, cap, e);
      if Clear(s.tab, cap, q) then OneMore(s.tab, t.tab, pid, q) && t.waiters == s.waiters - {pid}
      else LeftAsleep(s, t, pid, q)
  {
    hide Clear, Grantable, Entered, OneMore, Count;
    ClearIs(s.tab, cap, q);
    var from := if e.Ask? then 0 else s.waiters[pid].stage.from;
    assert e.Resume? ==> Waits(s.tab, cap, s.waiters[pid]);
    if Grantable(s.tab, cap, q) {
      EnteredIs(s.tab, cap, q, pid);
    }
    ContinuedIs(s, cap, q, pid, from);
  }

  lemma ContinuedIs(s: State, cap: seq<nat>, q: Lockreq, pid: int, from: nat)
    requires WellFormed(q) && from <= q.kind + 1
    ensures
      var t := Continued(s, cap, q, pid, from);
      if Grantable(s.tab, cap, q) then t == State(Entered(s.tab, q, pid), s.waiters - {pid})
      else LeftAsleep(s, t, pid, q)
    decreases from
  {
    hide Entered, Count;
    var k := Limit(s.tab, cap, q, from);
    assert k <= q.kind ==> Full(s.tab, cap, k);
    if k > q.kind && from > 0 {
      ContinuedIs(s, cap, q, pid, 0);
    }
  }

  /** A_RTN: the same at once, or not at all. */
  lemma TryDoes(s: State, cap: seq<nat>, pid: int, q: Lockreq)
    requires Inv(s, cap) && WellFormed(q)
    ensures
      var t := Step(s, cap, Try(pid, q));
      if Clear(s.tab, cap, q) then OneMore(s.tab, t.tab, pid, q) && t.waiters == s.waiters else t == s
  {
    hide Clear, Grantable, Entered, OneMore;
    ClearIs(s.tab, cap, q);
    if Grantable(s.tab, cap, q) {
      EnteredIs(s.tab, cap, q, pid);
    }
  }

  /** Slot `i` has the first lock of the process that a request to release means. */
  ghost predicate FirstOwn(tab: seq<Lockform>, i: nat, pid: int, q: Lockreq) {
    && i < |tab| && Own(tab[i], pid, q) && forall j :: 0 <= j < i ==> !Own(tab[j], pid, q)
  }

  predicate Own(l: Lockform, pid: int, q: Lockreq) {
    l.mod != M_EMTY && l.key == q.key && l.kind == q.kind && l.pid == pid
  }

  /** What a sleeper sleeps for is still so. */
  ghost predicate StillSo(tab: seq<Lockform>, cap: seq<nat>, w: Stage) {
    match w
    case OnLimit(k) => k < |cap| && |Above(tab, k)| >= cap[k]
    case OnLock(i) => i < |tab| && tab[i].mod != M_EMTY
    case Woken(_) => true
  }

  /** Of the waiters those are woken for whom it no longer is; one that waited for a limit goes on behind that. */
  ghost predicate OnlyWoken(s: State, t: State, cap: seq<nat>) {
    && t.waiters.Keys == s.waiters.Keys
    && forall p <- s.waiters ::
      var w, v := s.waiters[p], t.waiters[p];
      && v.req == w.req
      && if StillSo(t.tab, cap, w.stage) then v.stage == w.stage
         else v.stage == Woken(if w.stage.OnLimit? then w.stage.k + 1 else 0)
  }

  lemma RousedIs(s: State, t: State, cap: seq<nat>)
    requires t.waiters == Roused(s.waiters, t.tab, cap)
    ensures OnlyWoken(s, t, cap)
  {
    hide Count;
    forall k
      ensures Count(t.tab, k) == |Above(t.tab, k)|
    {
      CountIs(t.tab, k);
    }
  }

  lemma FirstOne(tab: seq<Lockform>, i: nat, m: nat, pid: int, q: Lockreq)
    requires FirstOwn(tab, i, pid, q) && m == Mine(tab, q, pid)
    ensures i == m
  {
  }

  /** A_RLS1: the first such lock of the process is gone, and no other; and exactly those are woken who should be. */
  lemma ReleaseDoes(s: State, cap: seq<nat>, pid: int, q: Lockreq)
    ensures
      var t := Step(s, cap, Release(pid, q));
      && ((forall i: nat :: !FirstOwn(s.tab, i, pid, q)) ==> t == s)
      && forall i: nat :: FirstOwn(s.tab, i, pid, q) ==>
        && OnlyWoken(s, t, cap) && |t.tab| == |s.tab| && t.tab[i].mod == M_EMTY
        && forall j :: 0 <= j < |s.tab| && j != i ==> t.tab[j] == s.tab[j]
  {
    hide Roused;
    var t, m := Step(s, cap, Release(pid, q)), Mine(s.tab, q, pid);
    if m < |s.tab| {
      assert FirstOwn(s.tab, m, pid, q);
      RousedIs(s, t, cap);
    }
    forall i: nat | FirstOwn(s.tab, i, pid, q)
      ensures i == m
    {
      FirstOne(s.tab, i, m, pid, q);
    }
  }

  lemma StillSoBefore(tab: seq<Lockform>, i: nat, cap: seq<nat>, w: Stage)
    requires i < |tab| && StillSo(Without(tab, i), cap, w)
    ensures StillSo(tab, cap, w)
  {
    if w.OnLimit? {
      assert Above(Without(tab, i), w.k) <= Above(tab, w.k);
      Fewer(Above(Without(tab, i), w.k), Above(tab, w.k));
    }
  }

  lemma Fewer(a: set<nat>, b: set<nat>)
    requires a <= b
    ensures |a| <= |b|
  {
    assert b == a + (b - a);
  }

  lemma NobodyWoken(s: State, cap: seq<nat>)
    requires Inv(s, cap)
    ensures OnlyWoken(s, s, cap)
  {
    forall p | p in s.waiters
      ensures StillSo(s.tab, cap, s.waiters[p].stage)
    {
      assert Waits(s.tab, cap, s.waiters[p]);
      if s.waiters[p].stage.OnLimit? {
        CountIs(s.tab, s.waiters[p].stage.k);
      }
    }
  }

  lemma {:induction false} ReleasedAllWakes(s: State, cap: seq<nat>, pid: int, n: nat)
    requires Inv(s, cap) && n <= |s.tab|
    ensures OnlyWoken(s, ReleasedAll(s, cap, pid, n), cap)
  {
    hide Inv, StillSo, Released, Without;
    if n > 0 {
      ReleasedAllWakes(s, cap, pid, n - 1);
      var t := ReleasedAll(s, cap, pid, n - 1);
      if Held(t.tab[n - 1]) && t.tab[n - 1].pid == pid {
        ReleasedIs(t, cap, n - 1);
        var u := Released(t, cap, n - 1);
        forall p | p in s.waiters && StillSo(u.tab, cap, s.waiters[p].stage)
          ensures StillSo(t.tab, cap, s.waiters[p].stage)
        {
          StillSoBefore(t.tab, n - 1, cap, s.waiters[p].stage);
        }
        WokenStays(u.tab, cap);
      }
    } else {
      NobodyWoken(s, cap);
    }
  }

  lemma WokenStays(tab: seq<Lockform>, cap: seq<nat>)
    ensures forall from :: StillSo(tab, cap, Woken(from))
  {
  }

  lemma ReleasedIs(t: State, cap: seq<nat>, i: nat)
    requires i < |t.tab|
    ensures Released(t, cap, i).tab == Without(t.tab, i) && OnlyWoken(t, Released(t, cap, i), cap)
  {
    RousedIs(t, Released(t, cap, i), cap);
  }

  /** A_RLSA: every lock of the process is gone, and no other; and exactly those are woken who should be. */
  lemma ReleaseAllDoes(s: State, cap: seq<nat>, pid: int)
    requires Inv(s, cap)
    ensures
      var t := Step(s, cap, ReleaseAll(pid));
      && |t.tab| == |s.tab| && OnlyWoken(s, t, cap)
      && forall i :: 0 <= i < |s.tab| ==> if s.tab[i].mod != M_EMTY && s.tab[i].pid == pid then t.tab[i].mod == M_EMTY
        else t.tab[i] == s.tab[i]
  {
    ReleasedAllWakes(s, cap, pid, |s.tab|);
  }

  /** A_ABT: no lock is left, and nobody sleeps. */
  lemma AbortDoes(s: State, cap: seq<nat>)
    ensures
      var t := Step(s, cap, Abort);
      && |t.tab| == |s.tab| && (forall i :: 0 <= i < |t.tab| ==> t.tab[i].mod == M_EMTY)
      && t.waiters.Keys == s.waiters.Keys
      && forall p <- t.waiters :: t.waiters[p].stage.Woken? && t.waiters[p].req == s.waiters[p].req
  {
  }

  /** The process gives the lock up, or all locks are. */
  predicate GivesUp(e: Event, pid: int, q: Lockreq) {
    || e == Abort || e == ReleaseAll(pid)
    || (e.Release? && e.pid == pid && e.q.key == q.key && e.q.kind == q.kind)
  }

  lemma StepKeepsEntry(s: State, cap: seq<nat>, e: Event, i: nat, pid: int, q: Lockreq)
    requires Inv(s, cap) && WellFormed(q) && i < |s.tab| && IsFor(s.tab[i], pid, q) && !GivesUp(e, pid, q)
    ensures
      var t := Step(s, cap, e);
      i < |t.tab| && IsFor(t.tab[i], pid, q)
  {
    hide Step, Clear, Inv;
    match e
    case Try(p, r) =>
      if WellFormed(r) {
        TryDoes(s, cap, p, r);
      } else {
        IdleStep(s, cap, e);
      }
    case Ask(p, r) =>
      if WellFormed(r) && p !in s.waiters {
        AskDoes(s, cap, e, p, r);
      } else {
        IdleStep(s, cap, e);
      }
    case Resume(p) =>
      if p in s.waiters && s.waiters[p].stage.Woken? {
        WaitsFor(s, cap, p);
        AskDoes(s, cap, e, p, s.waiters[p].req);
      } else {
        IdleStep(s, cap, e);
      }
    case Release(p, r) => ReleaseDoes(s, cap, p, r);
    case ReleaseAll(p) => ReleaseAllDoes(s, cap, p);
    case Abort =>
    case Interrupt(p) => IdleStep(s, cap, e);
  }

  lemma WaitsFor(s: State, cap: seq<nat>, p: int)
    requires Inv(s, cap) && p in s.waiters
    ensures WellFormed(s.waiters[p].req)
  {
    assert Waits(s.tab, cap, s.waiters[p]);
  }

  lemma IdleStep(s: State, cap: seq<nat>, e: Event)
    requires match e
      case Try(_, q) => !WellFormed(q)
      case Ask(pid, q) => !WellFormed(q) || pid in s.waiters
      case Resume(pid) => pid !in s.waiters || !s.waiters[pid].stage.Woken?
      case Interrupt(_) => true
      case _ => false
    ensures Step(s, cap, e).tab == s.tab
  {
  }

  /** A lock stays in the table until its process gives it up, or all are given up. */
  lemma {:induction false} KeepsEntry(s: State, cap: seq<nat>, es: seq<Event>, i: nat, pid: int, q: Lockreq)
    requires Inv(s, cap) && WellFormed(q) && i < |s.tab| && IsFor(s.tab[i], pid, q)
      && forall e <- es :: !GivesUp(e, pid, q)
    ensures
      var t := Run(s, cap, es);
      i < |t.tab| && IsFor(t.tab[i], pid, q)
    decreases |es|
  {
    hide Step, Inv, GivesUp;
    if es != [] {
      StepKeepsEntry(s, cap, es[0], i, pid, q);
      StepKeepsInv(s, cap, es[0]);
      KeepsEntry(Step(s, cap, es[0]), cap, es[1..], i, pid, q);
    }
  }

  /** A request is granted in a step. */
  ghost predicate Grants(s: State, cap: seq<nat>, e: Event, pid: int, q: Lockreq) {
    WellFormed(q) && (e == Try(pid, q) || Asks(s, e, pid, q)) && Clear(s.tab, cap, q)
  }

  lemma GrantDoes(s: State, cap: seq<nat>, e: Event, pid: int, q: Lockreq)
    requires Inv(s, cap) && Grants(s, cap, e, pid, q)
    ensures OneMore(s.tab, Step(s, cap, e).tab, pid, q)
  {
    if e == Try(pid, q) {
      TryDoes(s, cap, pid, q);
    } else {
      AskDoes(s, cap, e, pid, q);
    }
  }

  /** From its grant until it is given up nobody is granted a lock that cannot be had beside it. */
  lemma GrantExcludes(s: State, cap: seq<nat>, e: Event, pid: int, q: Lockreq, es: seq<Event>, f: Event, p: int,
        r: Lockreq)
    requires Inv(s, cap) && Grants(s, cap, e, pid, q) && forall d <- es :: !GivesUp(d, pid, q)
    requires Grants(Run(Step(s, cap, e), cap, es), cap, f, p, r)
    ensures !Against(q.key, q.kind, q.mod, r)
  {
    hide Step, Inv, GivesUp, Run;
    GrantDoes(s, cap, e, pid, q);
    var u := Step(s, cap, e);
    var i :| 0 <= i < |s.tab| == |u.tab| && OneMoreAt(s.tab, u.tab, i, pid, q);
    StepKeepsInv(s, cap, e);
    KeepsEntry(u, cap, es, i, pid, q);
    var t := Run(u, cap, es);
    assert !Against(t.tab[i].key, t.tab[i].kind, t.tab[i].mod, r);
  }

  lemma {:induction false} FirstIs(tab: seq<Lockform>, q: Lockreq, i: nat)
    requires i <= |tab| && (forall j :: 0 <= j < i ==> !InTheWay(tab[j], q)) && (i < |tab| ==> InTheWay(tab[i], q))
    ensures i == First(tab, q)
  {
  }

  lemma {:induction false} VacantIs(tab: seq<Lockform>, i: nat)
    requires i <= |tab| && (forall j :: 0 <= j < i ==> Held(tab[j])) && (i < |tab| ==> !Held(tab[i]))
    ensures i == Vacant(tab)
  {
  }

  /** The waiters once the sleepers on each of `cs` have been woken. */
  function Woke(ws: map<int, Waiter>, cs: set<Stage>): map<int, Waiter> {
    map p | p in ws :: if ws[p].stage in cs then ws[p].(stage := WokenFrom(ws[p].stage)) else ws[p]
  }

  lemma WokeMore(ws: map<int, Waiter>, cs: set<Stage>, c: Stage)
    requires !c.Woken?
    ensures Woke(Woke(ws, cs), {c}) == Woke(ws, cs + {c})
  {
    forall p | p in ws
      ensures Woke(Woke(ws, cs), {c})[p] == Woke(ws, cs + {c})[p]
    {
    }
  }

  lemma WokeNone(ws: map<int, Waiter>)
    ensures Woke(ws, {}) == ws
  {
  }

  /** To wake those on something nobody sleeps on is to wake nobody. */
  lemma WokeNobody(ws: map<int, Waiter>, cs: set<Stage>, c: Stage)
    requires forall p <- ws :: ws[p].stage != c
    ensures Woke(ws, cs + {c}) == Woke(ws, cs)
  {
    forall p | p in ws
      ensures Woke(ws, cs + {c})[p] == Woke(ws, cs)[p]
    {
    }
  }

  /**
   The release of a lock wakes its sleepers and those on the limits of its kind and below, and so all whose reason is
   gone.
   */
  lemma RousedByRelease(s: State, cap: seq<nat>, l: nat, cs: set<Stage>)
    requires Inv(s, cap) && l < |s.tab| && Held(s.tab[l]) && forall c :: c in cs <==>
      c == OnLock(l) || (c.OnLimit? && c.k <= s.tab[l].kind)
    ensures Released(s, cap, l).waiters == Woke(s.waiters, cs)
  {
    UnitsBack(s.tab, l);
    forall p | p in s.waiters
      ensures Released(s, cap, l).waiters[p] == Woke(s.waiters, cs)[p]
    {
      assert Waits(s.tab, cap, s.waiters[p]);
    }
  }

  lemma UnitsBack(tab: seq<Lockform>, l: nat)
    requires l < |tab| && Held(tab[l])
    ensures forall k :: Count(Without(tab, l), k) == Count(tab, k) - if k <= tab[l].kind then 1 else 0
  {
    forall k
      ensures Count(Without(tab, l), k) == Count(tab, k) - if k <= tab[l].kind then 1 else 0
    {
      CountUpdate(tab, l, Without(tab, l)[l], k);
    }
  }

  /** A lock whose flag is off has no sleepers. */
  lemma NoneOnLock(s: State, cap: seq<nat>, l: nat)
    requires Inv(s, cap) && l < |s.tab| && !s.tab[l].wflag
    ensures forall p <- s.waiters :: s.waiters[p].stage != OnLock(l)
  {
    forall p | p in s.waiters
      ensures s.waiters[p].stage != OnLock(l)
    {
      assert Waits(s.tab, cap, s.waiters[p]);
    }
  }

  /** All there is to sleep on. */
  lemma WokeAll(s: State, cap: seq<nat>, cs: set<Stage>)
    requires Inv(s, cap) && forall c :: c in cs <==> (c.OnLock? && c.i < |s.tab|) || (c.OnLimit? && c.k < KINDS)
    ensures Cleared(s).waiters == Woke(s.waiters, cs)
  {
    forall p | p in s.waiters
      ensures Cleared(s).waiters[p] == Woke(s.waiters, cs)[p]
    {
      assert Waits(s.tab, cap, s.waiters[p]);
    }
  }

  /** A limit that is not reached has no sleepers. */
  lemma NoneOnLimit(s: State, cap: seq<nat>, k: nat)
    requires Inv(s, cap) && !Full(s.tab, cap, k)
    ensures forall p <- s.waiters :: s.waiters[p].stage != OnLimit(k)
  {
    forall p | p in s.waiters
      ensures s.waiters[p].stage != OnLimit(k)
    {
      assert Waits(s.tab, cap, s.waiters[p]);
    }
  }

  class Device {
    const tab: array<Lockform>              // Locktab
    const lockset: array<int>               // Lockset
    const cap: seq<nat>                     // NLOCKS, PLOCKS, RLOCKS and DLOCKS
    ghost var waiters: map<int, Waiter>

    ghost function St(): State
      reads this, tab
    {
      State(tab[..], waiters)
    }

    /** Lockset says, for each kind, how many more locks of that kind or above can be had. */
    ghost predicate Valid()
      reads this, tab, lockset
    {
      Inv(St(), cap) && Counted(tab[..])
    }

    ghost predicate Counted(t: seq<Lockform>)
      reads this, lockset
    {
      lockset.Length == KINDS == |cap| && forall k :: 0 <= k < KINDS ==> lockset[k] == cap[k] - Count(t, k)
    }

    constructor (cap: seq<nat>)
      requires |cap| == KINDS && forall k :: 0 <= k < KINDS ==> 0 < cap[k]
      ensures Valid() && fresh(tab) && fresh(lockset) && this.cap == cap
        && St() == State(seq(cap[0], _ => EMPTY), map[])
    {
      tab := new Lockform[cap[0]](_ => EMPTY);
      lockset := new int[KINDS](k => if 0 <= k < |cap| then cap[k] else 0);
      this.cap := cap;
      waiters := map[];
      new;
      forall k
        ensures Count(tab[..], k) == 0
      {
        NoneCounted(tab[..], k);
      }
    }

    /** wakeup, on a limit or on a lock. */
    ghost method Wakeup(c: Stage)
      modifies this`waiters
      ensures waiters == Woke(old(waiters), {c})
    {
      waiters := Woke(waiters, {c});
    }

    method Ilunique(q: Lockreq) returns (r: int)
      ensures r == if First(tab[..], q) < tab.Length then First(tab[..], q) else -1
    {
      var k := 0;
      while k < tab.Length
        invariant k <= tab.Length && forall j :: 0 <= j < k ==> !InTheWay(tab[j], q)
      {
        if tab[k].mod != M_EMTY && tab[k].key == q.key && tab[k].kind == q.kind
          && (tab[k].mod == M_EXCL || q.mod == M_EXCL) {
          FirstIs(tab[..], q, k);
          return k;
        }
        k := k + 1;
      }
      FirstIs(tab[..], q, k);
      r := -1;
    }

    method Ilfind(q: Lockreq, pid: int) returns (r: int)
      ensures r == if Mine(tab[..], q, pid) < tab.Length then Mine(tab[..], q, pid) else -1
    {
      var k := 0;
      while k < tab.Length
        invariant k <= tab.Length && k <= Mine(tab[..], q, pid)
      {
        if tab[k].mod != M_EMTY && tab[k].key == q.key && tab[k].kind == q.kind && tab[k].pid == pid {
          return k;
        }
        k := k + 1;
      }
      r := -1;
    }

    /** ilenter, called for a request that can be granted: it never fails. */
    method Ilenter(q: Lockreq, pid: int) returns (r: int)
      requires Valid() && WellFormed(q) && Grantable(tab[..], cap, q)
      modifies tab, lockset
      ensures Valid() && St() == State(Entered(old(tab[..]), q, pid), old(waiters)) && 0 <= r < tab.Length
        && tab[r] == Lockform(pid, tab[r].wflag, q.kind, q.mod, q.key)
    {
      ghost var t := tab[..];
      GrantFindsSlot(t, cap, q);
      EnterKeepsInv(St(), cap, q, pid);
      var k := 0;
      while k < tab.Length
        invariant k <= Vacant(t) && tab[..] == t
      {
        if tab[k].mod == M_EMTY {
          VacantIs(t, k);
          tab[k] := Lockform(pid, tab[k].wflag, q.kind, q.mod, q.key);
          assert tab[..] == Entered(t, q, pid);
          TakeUnits(t, tab[..], k, q.kind);
          return k;
        }
        k := k + 1;
      }
      r := -1;
    }

    /** The loop of ilenter over the limits. */
    method TakeUnits(ghost t: seq<Lockform>, ghost u: seq<Lockform>, ghost i: nat, kind: int)
      requires Counted(t) && i < |t| == |u| && !Held(t[i]) && Held(u[i]) && u[i].kind == kind && u == t[i := u[i]]
        && 0 <= kind < KINDS
      modifies lockset
      ensures Counted(u)
    {
      var l := 0;
      while l <= kind
        invariant l <= kind + 1
        invariant forall k :: 0 <= k < KINDS ==> lockset[k] == cap[k] - Count(t, k) - if k < l then 1 else 0
      {
        lockset[l] := lockset[l] - 1;
        l := l + 1;
      }
      forall k | 0 <= k < KINDS
        ensures Count(u, k) == Count(t, k) + if k <= kind then 1 else 0
      {
        CountUpdate(t, i, u[i], k);
      }
    }

    /** ilrm: the lock in a slot is given up if it is the process's. */
    method Ilrm(l: nat, pid: int)
      requires Valid() && l < tab.Length
      modifies this`waiters, tab, lockset
      ensures Valid() && St() == if Held(old(tab[l]))
        && old(tab[l]).pid == pid then Released(old(St()), cap, l) else old(St())
    {
      ghost var s := St();
      var a := tab[l];
      if a.pid == pid && a.mod != M_EMTY {
        ReleaseKeepsInv(s, cap, l);
        tab[l] := tab[l].(mod := M_EMTY, pid := 0);
        if a.wflag {
          tab[l] := tab[l].(wflag := false);
          Wakeup(OnLock(l));
        } else {
          NoneOnLock(s, cap, l);
          WokeNone(s.waiters);
          WokeNobody(s.waiters, {}, OnLock(l));
          assert {} + {OnLock(l)} == {OnLock(l)};
        }
        assert tab[..] == Without(s.tab, l);
        GiveUnits(s, l, a.kind);
      }
    }

    /** The loop of ilrm over the limits. */
    method GiveUnits(ghost s: State, ghost l: nat, kind: int)
      requires Inv(s, cap) && l < |s.tab| && Held(s.tab[l]) && s.tab[l].kind == kind && Counted(s.tab)
        && waiters == Woke(s.waiters, {OnLock(l)})
      modifies this`waiters, lockset
      ensures Counted(Without(s.tab, l)) && waiters == Released(s, cap, l).waiters
    {
      UnitsBack(s.tab, l);
      ghost var cs := {OnLock(l)};
      var k := 0;
      while k <= kind
        invariant k <= kind + 1
        invariant forall j :: 0 <= j < KINDS ==> lockset[j] == cap[j] - Count(s.tab, j) + if j < k then 1 else 0
        invariant forall c :: c in cs <==> c == OnLock(l) || (c.OnLimit? && c.k < k)
        invariant waiters == Woke(s.waiters, cs)
      {
        lockset[k] := lockset[k] + 1;
        if lockset[k] == 1 {
          WokeMore(s.waiters, cs, OnLimit(k));
          Wakeup(OnLimit(k));
        } else {
          NoneOnLimit(s, cap, k);
          WokeNobody(s.waiters, cs, OnLimit(k));
        }
        cs := cs + {OnLimit(k)};
        k := k + 1;
      }
      RousedByRelease(s, cap, l, cs);
    }

    /** Every lock of a process is given up, as when it exits. */
    method Ilrma(pid: int)
      requires Valid()
      modifies this`waiters, tab, lockset
      ensures Valid() && St() == ReleasedAll(old(St()), cap, pid, tab.Length)
    {
      hide Inv, Counted, Released, Held;
      for i := 0 to tab.Length
        invariant Valid() && St() == ReleasedAll(old(St()), cap, pid, i)
      {
        Ilrm(i, pid);
      }
    }

    /** The loops of ilclose that wake whoever sleeps. */
    ghost method WakeAll()
      requires Valid()
      modifies this`waiters
      ensures waiters == Cleared(old(St())).waiters
    {
      var s, cs: set<Stage> := St(), {};
      assert waiters == Woke(s.waiters, cs);
      for k := 0 to tab.Length
        invariant (forall c :: c in cs <==> c.OnLock? && c.i < k) && waiters == Woke(s.waiters, cs)
      {
        WokeMore(s.waiters, cs, OnLock(k));
        Wakeup(OnLock(k));
        cs := cs + {OnLock(k)};
      }
      for k := 0 to KINDS
        invariant (forall c :: c in cs <==> (c.OnLock? && c.i < tab.Length) || (c.OnLimit? && c.k < k))
          && waiters == Woke(s.waiters, cs)
      {
        WokeMore(s.waiters, cs, OnLimit(k));
        Wakeup(OnLimit(k));
        cs := cs + {OnLimit(k)};
      }
      WokeAll(s, cap, cs);
    }

    /** ilclose: every lock is given up, whoever has it. */
    method Ilclose()
      requires Valid()
      modifies this`waiters, tab, lockset
      ensures Valid() && St() == Cleared(old(St()))
    {
      ghost var s := St();
      ClearKeepsInv(s, cap);
      WakeAll();
      for k := 0 to tab.Length
        invariant (forall j :: 0 <= j < k ==> tab[j] == EMPTY) && waiters == Cleared(s).waiters
      {
        tab[k] := EMPTY;
      }
      assert tab[..] == Cleared(s).tab;
      forall k
        ensures Count(tab[..], k) == 0
      {
        NoneCounted(tab[..], k);
      }
      lockset[0], lockset[1], lockset[2], lockset[3] := cap[0], cap[1], cap[2], cap[3];
    }

    /** The loop of ilwrite over the limits, from `from` on. */
    method Search(q: Lockreq, from: nat) returns (k: nat)
      requires Valid() && WellFormed(q) && from <= q.kind + 1
      ensures k == Limit(tab[..], cap, q, from)
    {
      k := from;
      while k <= q.kind
        invariant from <= k <= q.kind + 1 && Limit(tab[..], cap, q, from) == Limit(tab[..], cap, q, k)
      {
        if lockset[k] == 0 {
          return;
        }
        k := k + 1;
      }
    }

    /** A_SLP, from its start (`from` is 0) or from where it wakes, to its end or to where it sleeps. */
    method Segment(q: Lockreq, pid: int, from: nat) returns (slept: bool)
      requires Valid() && WellFormed(q) && from <= q.kind + 1
      modifies this`waiters, tab, lockset
      ensures Valid() && St() == Continued(old(St()), cap, q, pid, from) && (slept <==> pid in waiters)
    {
      ghost var s := St();
      ContinueKeepsInv(s, cap, q, pid, from);
      var i: nat, blockflag := from, from == 0;
      while true
        invariant (blockflag <==> i == 0) && i <= q.kind + 1 && Valid() && St() == s
          && Continued(s, cap, q, pid, from) == Continued(s, cap, q, pid, i)
        decreases i
      {
        var k := Search(q, i);
        if k <= q.kind {
          waiters := waiters[pid := Waiter(q, OnLimit(k))];
          return true;
        }
        if blockflag {
          break;
        }
        i, blockflag := 0, true;
      }
      var u := Ilunique(q);
      if u >= 0 {
        tab[u] := tab[u].(wflag := true);
        waiters := waiters[pid := Waiter(q, OnLock(u))];
        assert tab[..] == s.tab[u := s.tab[u].(wflag := true)];
        FlagCounts(s.tab, u);
        return true;
      }
      var _ := Ilenter(q, pid);
      waiters := waiters - {pid};
      slept := false;
    }

    /**
     A process that was woken in the middle of its request goes on, with the request and the place it was left with.
     */
    method Resume(pid: int, q: Lockreq, from: nat) returns (slept: bool)
      requires Valid() && pid in waiters && waiters[pid] == Waiter(q, Woken(from))
      modifies this`waiters, tab, lockset
      ensures Valid() && St() == Step(old(St()), cap, Event.Resume(pid)) && (slept <==> pid in waiters)
      ensures !slept ==> OneMore(old(tab[..]), tab[..], pid, q)
    {
      assert Waits(tab[..], cap, waiters[pid]);
      AskDoes(St(), cap, Event.Resume(pid), pid, q);
      hide Inv, Counted, Continued;
      slept := Segment(q, pid, from);
    }

    /** A_RTN. */
    method Attempt(q: Lockreq, pid: int) returns (ok: bool)
      requires Valid() && WellFormed(q)
      modifies tab, lockset
      ensures Valid() && ok == Grantable(old(tab[..]), cap, q)
        && St() == if ok then State(Entered(old(tab[..]), q, pid), old(waiters)) else old(St())
    {
      var k := Search(q, 0);
      if k <= q.kind {
        return false;
      }
      var u := Ilunique(q);
      if u >= 0 {
        return false;
      }
      var _ := Ilenter(q, pid);
      ok := true;
    }

    /**
     ilwrite, for a process that is not in the middle of a request; a reply, or sleep. -5: no such kind or mode; -1:
     the lock cannot be had; -2: it is not the process's to release; -3: no such action.
     */
    method Ilwrite(q: Lockreq, pid: int) returns (r: Reply)
      requires Valid() && pid !in waiters
      modifies this`waiters, tab, lockset
      ensures Valid() && r == Answer(old(St()), cap, q, pid) && St() == Step(old(St()), cap, Means(q, pid))
      ensures r == Code(0) && q.act < A_RLS1 ==> OneMore(old(tab[..]), tab[..], pid, q)
    {
      hide Inv, Counted, Continued, Released, ReleasedAll, Cleared, Entered, Grantable, Mine, Count,
        Clear, OneMore;
      StepsAre(St(), cap, q, pid);
      if WellFormed(q) {
        InvClear(St(), cap, q);
        TryDoes(St(), cap, pid, q);
        AskDoes(St(), cap, Ask(pid, q), pid, q);
      }
      if q.act < A_RLS1 && (q.kind < 0 || q.kind > KINDS - 1 || q.mod < M_EXCL || q.mod > M_SHARE) {
        return Code(-5);
      }
      if q.act == A_RTN {
        var ok := Attempt(q, pid);
        if !ok {
          return Code(-1);
        }
      } else if q.act == A_SLP {
        var slept := Segment(q, pid, 0);
        if slept {
          return Asleep;
        }
      } else if q.act == A_RLS1 {
        var i := Ilfind(q, pid);
        if i < 0 {
          return Code(-2);
        }
        Ilrm(i, pid);
      } else if q.act == A_RLSA {
        Ilrma(pid);
      } else if q.act == A_ABT {
        Ilclose();
      } else {
        return Code(-3);
      }
      return Code(0);
    }
  }

  datatype Reply = Code(error: int) | Asleep

  /**
   The step a request stands for; one that is no action of the device is none, like an interrupt of a process that
   does not wait.
   */
  function Means(q: Lockreq, pid: int): Event {
    if q.act == A_RTN then Try(pid, q)
    else if q.act == A_SLP then Ask(pid, q)
    else if q.act == A_RLS1 then Release(pid, q)
    else if q.act == A_RLSA then ReleaseAll(pid)
    else if q.act == A_ABT then Abort
    else Interrupt(pid)
  }

  function Answer(s: State, cap: seq<nat>, q: Lockreq, pid: int): Reply {
    if q.act < A_RLS1 && !WellFormed(q) then Code(-5)
    else if q.act == A_RTN then Code(if Grantable(s.tab, cap, q) then 0 else -1)
    else if q.act == A_SLP then if Grantable(s.tab, cap, q) then Code(0) else Asleep
    else if q.act == A_RLS1 then Code(if Mine(s.tab, q, pid) < |s.tab| then 0 else -2)
    else if q.act == A_RLSA || q.act == A_ABT then Code(0)
    else Code(-3)
  }

  /** What the device answers, and when. */
  lemma AnswerIs(s: State, cap: seq<nat>, q: Lockreq, pid: int)
    requires Inv(s, cap)
    ensures
      var r := Answer(s, cap, q, pid);
      var bad := q.act < A_RLS1 && (q.kind < 0 || q.kind > 3 || q.mod < M_EXCL || q.mod > M_SHARE);
      && (r == Code(-5) <==> bad)
      && (r == Code(-1) <==> !bad && q.act == A_RTN && !Clear(s.tab, cap, q))
      && (r == Asleep <==> !bad && q.act == A_SLP && !Clear(s.tab, cap, q))
      && (r == Code(-2) <==> q.act == A_RLS1 && forall i: nat :: !FirstOwn(s.tab, i, pid, q))
      && (r == Code(-3) <==> !bad && !(A_RTN <= q.act <= A_ABT))
      && (r.Code? ==> -5 <= r.error <= 0 && r.error != -4)
  {
    hide Clear, Inv;
    if WellFormed(q) {
      InvClear(s, cap, q);
    }
    var m := Mine(s.tab, q, pid);
    if m < |s.tab| {
      assert FirstOwn(s.tab, m, pid, q);
    } else {
      forall i: nat
        ensures !FirstOwn(s.tab, i, pid, q)
      {
        assert i < |s.tab| ==> !Own(s.tab[i], pid, q);
      }
    }
  }

  lemma StepsAre(s: State, cap: seq<nat>, q: Lockreq, pid: int)
    requires pid !in s.waiters
    ensures WellFormed(q) ==> (pid in Continued(s, cap, q, pid, 0).waiters <==> !Grantable(s.tab, cap, q))
    ensures s.waiters - {pid} == s.waiters
    ensures Step(s, cap, ReleaseAll(pid)) == ReleasedAll(s, cap, pid, |s.tab|) && Step(s, cap, Abort) == Cleared(s)
    ensures Step(s, cap, Release(pid, q)) == if Mine(s.tab, q, pid) < |s.tab| then Released(s, cap, Mine(s.tab, q, pid))
      else s
    ensures WellFormed(q) ==> Step(s, cap, Ask(pid, q)) == Continued(s, cap, q, pid, 0)
    ensures Mine(s.tab, q, pid) < |s.tab| ==> Held(s.tab[Mine(s.tab, q, pid)]) && s.tab[Mine(s.tab, q, pid)].pid == pid
  {
  }

  lemma FlagCounts(tab: seq<Lockform>, i: nat)
    requires i < |tab|
    ensures forall k :: Count(tab[i := tab[i].(wflag := true)], k) == Count(tab, k)
  {
    forall k
      ensures Count(tab[i := tab[i].(wflag := true)], k) == Count(tab, k)
    {
      CountUpdate(tab, i, tab[i].(wflag := true), k);
    }
  }
}
