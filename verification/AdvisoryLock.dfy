/**
 Advisory locks on an inode, shared or exclusive, held by open files and asked for by processes that sleep when they
 cannot have them.  Between one sleep and the next a process runs alone, so that each such stretch is one step.
 */
module AdvisoryLock {

  /** struct file: what ino_lock notes in f_flag. */
  class File {
    var exlock: bool
    var shlock: bool

    constructor ()
      ensures !exlock && !shlock
    {
      exlock, shlock := false, false;
    }
  }

  /**
   A process asleep in ino_lock: for which file, whether it wants the file locked exclusively, and on which of the two
   counters.
   */
  datatype Wait = Wait(file: File, exclusive: bool, onEx: bool)

  /** Who holds a lock, and who sleeps. */
  datatype State = State(ex: set<File>, sh: set<File>, asleep: map<nat, Wait>)

  /** The lock a sleeper waits for is still held. */
  predicate StillHeld(s: State, w: Wait) {
    if w.onEx then s.ex != {} else s.sh != {}
  }

  /**
   The sleepers after locks were given up: each has been woken, exactly if the lock it waits for is held by nobody
   now.
   */
  function Settled(s: State): State {
    s.(asleep := map p | p in s.asleep && StillHeld(s, s.asleep[p]) :: s.asleep[p])
  }

  function Freed(s: State, f: File, ex: bool, sh: bool): State {
    Settled(s.(ex := if ex then s.ex - {f} else s.ex, sh := if sh then s.sh - {f} else s.sh))
  }

  /** Another file holds a lock that an exclusive or a shared one cannot be had beside. */
  predicate Conflict(s: State, f: File, exclusive: bool) {
    (exists g <- s.ex :: g != f) || (exclusive && exists g <- s.sh :: g != f)
  }

  datatype Outcome = Granted | WouldBlock | Slept | Panicked

  /** What an attempt comes to: granted if and only if no other file is in the way. */
  function Result(s: State, f: File, ex: bool, nb: bool): Outcome {
    if !Conflict(s, f, ex) then Granted else if nb then WouldBlock else Slept
  }

  /**
   The state after an attempt of process `p`. Whatever it comes to, a lock of the file that is in its own way is gone:
   any exclusive one, and for an exclusive request the shared one.
   */
  function Attempted(s: State, p: nat, f: File, ex: bool, sh: bool, nb: bool): State {
    var t := Freed(s, f, true, ex);
    match Result(s, f, ex, nb)
    case Granted => if ex then t.(ex := t.ex + {f}) else if sh then t.(sh := t.sh + {f}) else t
    case Slept => t.(asleep := t.asleep[p := Wait(f, ex, t.ex != {})])
    case _ => t
  }

  /**
   At every point of every run: at most one exclusive lock and none beside a shared one; whoever sleeps on one of the
   counters does so while that kind of lock is held, by another file if it is the exclusive one.
   */
  ghost predicate Inv(s: State) {
    && |s.ex| <= 1 && (s.ex == {} || s.sh == {})
    && forall p <- s.asleep :: StillHeld(s, s.asleep[p])
        && (if s.asleep[p].onEx then s.asleep[p].file !in s.ex else s.asleep[p].exclusive)
  }

  datatype Event = Lock(p: nat, f: File, ex: bool, sh: bool, nb: bool) | Unlock(f: File, ex: bool,
        sh: bool) | Interrupt(p: nat)

  /** One step of one process; those asleep take no step but to be interrupted. */
  function Step(s: State, e: Event): State {
    match e
    case Lock(p, f, ex, sh, nb) => if p in s.asleep then s else Attempted(s, p, f, ex, sh, nb)
    case Unlock(f, ex, sh) => Freed(s, f, ex, sh)
    case Interrupt(p) => s.(asleep := s.asleep - {p})
  }

  function Run(s: State, es: seq<Event>): State
    decreases |es|
  {
    if es == [] then s else Run(Step(s, es[0]), es[1..])
  }

  lemma Alone(ex: set<File>, f: File)
    requires |ex| <= 1
    ensures f in ex ==> ex == {f}
    ensures ex == {} || exists g :: ex == {g}
  {
    if g :| g in ex {
      assert |ex - {g}| == 0;
      assert ex == {g};
    }
  }

  lemma FreedKeepsInv(s: State, f: File, ex: bool, sh: bool)
    requires Inv(s)
    ensures Inv(Freed(s, f, ex, sh))
  {
    Alone(s.ex, f);
  }

  /** Giving up what one does not hold changes nothing. */
  lemma FreedNothing(s: State, f: File, ex: bool, sh: bool)
    requires Inv(s) && (ex ==> f !in s.ex) && (sh ==> f !in s.sh)
    ensures Freed(s, f, ex, sh) == s
  {
    assert Freed(s, f, ex, sh).asleep == s.asleep;
  }

  lemma FreedOut(s: State, f: File, ex: bool, sh: bool)
    ensures Freed(s, f, ex, sh).ex == (if ex then s.ex - {f} else s.ex)
      && Freed(s, f, ex, sh).sh == if sh then s.sh - {f} else s.sh
  {
  }

  /** Giving up two kinds is giving up one and then the other. */
  lemma FreedTwice(s: State, f: File, a: bool, b: bool, c: bool, d: bool)
    ensures Freed(Freed(s, f, a, b), f, c, d) == Freed(s, f, a || c, b || d)
  {
    assert Freed(Freed(s, f, a, b), f, c, d).asleep == Freed(s, f, a || c, b || d).asleep;
  }

  lemma GrantKeepsInv(t: State, f: File, ex: bool)
    requires Inv(t) && t.ex == {} && (ex ==> t.sh == {})
    ensures Inv(if ex then t.(ex := t.ex + {f}) else t.(sh := t.sh + {f}))
  {
    assert t.ex + {f} == {f};
  }

  lemma SleepKeepsInv(t: State, p: nat, f: File, ex: bool)
    requires Inv(t) && f !in t.ex && (t.ex != {} || (ex && t.sh != {}))
    ensures Inv(t.(asleep := t.asleep[p := Wait(f, ex, t.ex != {})]))
  {
  }

  lemma AttemptKeepsInv(s: State, p: nat, f: File, ex: bool, sh: bool, nb: bool)
    requires Inv(s) && p !in s.asleep
    ensures Inv(Attempted(s, p, f, ex, sh, nb))
  {
    hide Freed;
    FreedKeepsInv(s, f, true, ex);
    FreedOut(s, f, true, ex);
    var t := Freed(s, f, true, ex);
    assert Conflict(s, f, ex) <==> t.ex != {} || (ex && t.sh != {});
    hide Inv;
    if !Conflict(s, f, ex) {
      GrantKeepsInv(t, f, ex);
    } else {
      SleepKeepsInv(t, p, f, ex);
    }
  }

  lemma {:induction false} RunKeepsInv(s: State, es: seq<Event>)
    requires Inv(s)
    ensures Inv(Run(s, es))
    decreases |es|
  {
    if es != [] {
      match es[0] {
        case Lock(p, f, ex, sh, nb) =>
          if p !in s.asleep {
            AttemptKeepsInv(s, p, f, ex, sh, nb);
          }
        case Unlock(f, ex, sh) => FreedKeepsInv(s, f, ex, sh);
        case Interrupt(p) =>
      }
      RunKeepsInv(Step(s, es[0]), es[1..]);
    }
  }

  /** No wakeup is lost: in any run, once nobody holds a lock nobody sleeps, and the next to ask is granted. */
  lemma NoWakeupLost(s: State, es: seq<Event>, f: File, ex: bool, nb: bool)
    requires Inv(s) && Run(s, es).ex == {} && Run(s, es).sh == {}
    ensures Run(s, es).asleep == map[] && Result(Run(s, es), f, ex, nb) == Granted
  {
    RunKeepsInv(s, es);
    assert forall p :: p !in Run(s, es).asleep;
  }

  /** What a request comes to: it is granted exactly when no lock of another file is in its way. */
  lemma GrantedExactly(s: State, f: File, ex: bool, nb: bool)
    ensures Result(s, f, ex, nb) == Granted <==> forall g :: g != f ==> g !in s.ex && (ex ==> g !in s.sh)
    ensures Result(s, f, ex, nb) != Granted ==> Result(s, f, ex, nb) == if nb then WouldBlock else Slept
  {
  }

  /**
   What a request does: granted, the file has the lock that was asked for, and not the other kind; not granted, it has
   none that was in its own way; the process sleeps exactly if it has to, for what it asked. The locks of other files
   are as before, and of other sleepers those are woken whose kind of lock nobody holds any more.
   */
  lemma LockDoes(s: State, p: nat, f: File, ex: bool, sh: bool, nb: bool)
    requires Inv(s) && p !in s.asleep
    ensures
      var t, r := Step(s, Lock(p, f, ex, sh, nb)), Result(s, f, ex, nb);
      && (r == Granted ==> (f in t.ex <==> ex) && (f in t.sh <==> !ex && (sh || f in s.sh)))
      && (r != Granted ==> f !in t.ex && (f in t.sh <==> f in s.sh && !ex))
      && (forall g :: g != f ==> (g in t.ex <==> g in s.ex) && (g in t.sh <==> g in s.sh))
      && (p in t.asleep <==> r == Slept) && (r == Slept ==> t.asleep[p].file == f && t.asleep[p].exclusive == ex)
      && forall q :: q != p ==>
        && (q in t.asleep ==> q in s.asleep && t.asleep[q] == s.asleep[q])
        && (q in s.asleep && q !in t.asleep ==>
          forall g :: g != f ==> if s.asleep[q].onEx then g !in t.ex else g !in t.sh)
  {
    Alone(s.ex, f);
    assert Conflict(s, f, ex) <==> exists g :: g != f && (g in s.ex || (ex && g in s.sh));
  }

  /**
   What giving up does: the file has no lock of the kinds given up, those of all else are as before, and a sleeper
   sleeps on exactly while a lock of its kind is held.
   */
  lemma UnlockDoes(s: State, f: File, ex: bool, sh: bool)
    ensures
      var t := Step(s, Unlock(f, ex, sh));
      && (forall g :: g in t.ex <==> g in s.ex && !(ex && g == f))
      && (forall g :: g in t.sh <==> g in s.sh && !(sh && g == f))
      && forall q ::
        && (q in t.asleep <==> q in s.asleep && exists g :: if s.asleep[q].onEx then g in t.ex else g in t.sh)
        && (q in t.asleep ==> t.asleep[q] == s.asleep[q])
  {
    var t := Step(s, Unlock(f, ex, sh));
    assert forall w: Wait :: StillHeld(t, w) <==> exists g :: if w.onEx then g in t.ex else g in t.sh;
  }

  /** A step is of a file. */
  predicate About(e: Event, f: File) {
    !e.Interrupt? && e.f == f
  }

  /**
   A file that has a lock has it until a step of its own, and meanwhile nobody else gets one beside which it is none.
   */
  lemma {:induction false} KeepsLock(s: State, es: seq<Event>, f: File)
    requires Inv(s) && forall e <- es :: !About(e, f)
    ensures f in s.ex ==> f in Run(s, es).ex && forall g, ex, nb :: g != f ==> Result(Run(s, es), g, ex, nb) != Granted
    ensures f in s.sh ==> f in Run(s, es).sh && forall g, nb :: g != f ==> Result(Run(s, es), g, true, nb) != Granted
    decreases |es|
  {
    if es == [] {
      forall g, ex, nb | g != f && (f in s.ex || (ex && f in s.sh))
        ensures Result(s, g, ex, nb) != Granted
      {
        assert Conflict(s, g, ex);
      }
    } else {
      var e := es[0];
      assert !About(e, f);
      OneStep(s, e);
      match e {
        case Lock(p, g, ex, sh, nb) =>
          if p !in s.asleep {
            LockDoes(s, p, g, ex, sh, nb);
          }
        case Unlock(g, ex, sh) => UnlockDoes(s, g, ex, sh);
        case Interrupt(p) =>
      }
      KeepsLock(Step(s, e), es[1..], f);
    }
  }

  lemma OneStep(s: State, e: Event)
    requires Inv(s)
    ensures Inv(Step(s, e))
  {
    RunKeepsInv(s, [e]);
    assert [e][1..] == [];
    assert Run(Step(s, e), []) == Step(s, e);
  }

  /** From the grant on: no two files are granted locks that exclude each other, while neither gives its own up. */
  lemma GrantExcludes(s: State, p: nat, f: File, ex: bool, sh: bool, nb: bool, es: seq<Event>, g: File, ex': bool,
        nb': bool)
    requires Inv(s) && p !in s.asleep && Result(s, f, ex, nb) == Granted && (ex || sh)
    requires (forall e <- es :: !About(e, f)) && g != f && (ex || ex')
    ensures
      var t := Run(Step(s, Lock(p, f, ex, sh, nb)), es);
      (if ex then f in t.ex else f in t.sh) && Result(t, g, ex', nb') != Granted
  {
    LockDoes(s, p, f, ex, sh, nb);
    OneStep(s, Lock(p, f, ex, sh, nb));
    KeepsLock(Step(s, Lock(p, f, ex, sh, nb)), es, f);
  }

  /**
   A request that may not block, and fails, changes nothing unless it is for an upgrade: that gives up the shared
   lock.
   */
  lemma FailedAttempt(s: State, p: nat, f: File, ex: bool, sh: bool)
    requires Inv(s) && p !in s.asleep && Result(s, f, ex, true) == WouldBlock
    ensures Attempted(s, p, f, ex, sh, true) == s <==> !(ex && f in s.sh)
    ensures f !in Attempted(s, p, f, ex, sh, true).ex && (ex ==> f !in Attempted(s, p, f, ex, sh, true).sh)
  {
    Alone(s.ex, f);
    if !(ex && f in s.sh) {
      FreedNothing(s, f, true, ex);
    }
  }

  /** No process sleeps for a shared lock of the very file it wants to lock. */
  ghost predicate OwnFree(s: State) {
    forall p <- s.asleep :: s.asleep[p].file !in s.sh
  }

  /** A shared lock is about to be granted to a file that a process sleeps for, until the shared locks are gone. */
  ghost predicate SharesUnder(s: State, e: Event) {
    && e.Lock? && e.p !in s.asleep && !e.ex && e.sh && Result(s, e.f, false, e.nb) == Granted
    && exists q <- s.asleep :: !s.asleep[q].onEx && s.asleep[q].file == e.f
  }

  /** The one step that leaves a process asleep for a lock of its own file. */
  lemma SleepsOnOthers(s: State, e: Event)
    requires Inv(s) && OwnFree(s)
    ensures OwnFree(Step(s, e)) <==> !SharesUnder(s, e)
  {
    match e
    case Lock(p, f, ex, sh, nb) =>
      if p !in s.asleep {
        AttemptOwnFree(s, p, f, ex, sh, nb);
      }
    case Unlock(f, ex, sh) =>
    case Interrupt(p) =>
  }

  lemma AttemptOwnFree(s: State, p: nat, f: File, ex: bool, sh: bool, nb: bool)
    requires Inv(s) && OwnFree(s) && p !in s.asleep
    ensures OwnFree(Attempted(s, p, f, ex, sh, nb)) <==> !SharesUnder(s, Lock(p, f, ex, sh, nb))
  {
    hide Freed;
    Alone(s.ex, f);
    FreedOut(s, f, true, ex);
    FreedAsleep(s, f, true, ex);
    var t := Attempted(s, p, f, ex, sh, nb);
    if SharesUnder(s, Lock(p, f, ex, sh, nb)) {
      var q :| q in s.asleep && !s.asleep[q].onEx && s.asleep[q].file == f;
      assert q in t.asleep && f in t.sh;
    }
  }

  lemma FreedAsleep(s: State, f: File, ex: bool, sh: bool)
    ensures forall q :: q in Freed(s, f, ex, sh).asleep <==>
      q in s.asleep && StillHeld(Freed(s, f, ex, sh), s.asleep[q])
    ensures forall q <- Freed(s, f, ex, sh).asleep :: Freed(s, f, ex, sh).asleep[q] == s.asleep[q]
  {
  }

  /** No step of a run is that one. */
  ghost predicate NeverSharesUnder(s: State, es: seq<Event>)
    decreases |es|
  {
    es != [] ==> !SharesUnder(s, es[0]) && NeverSharesUnder(Step(s, es[0]), es[1..])
  }

  /** In such a run whoever sleeps has the lock of another file in its way. */
  lemma {:induction false} SleepersHaveCause(s: State, es: seq<Event>)
    requires Inv(s) && OwnFree(s) && NeverSharesUnder(s, es)
    ensures OwnFree(Run(s, es)) && forall p <- Run(s, es).asleep ::
      Conflict(Run(s, es), Run(s, es).asleep[p].file, Run(s, es).asleep[p].exclusive)
    decreases |es|
  {
    if es == [] {
      forall p | p in s.asleep
        ensures Conflict(s, s.asleep[p].file, s.asleep[p].exclusive)
      {
        if s.asleep[p].onEx {
          var g :| g in s.ex;
        } else {
          var g :| g in s.sh;
        }
      }
    } else {
      SleepsOnOthers(s, es[0]);
      RunKeepsInv(s, [es[0]]);
      assert Run(s, [es[0]]) == Run(Step(s, es[0]), [es[0]][1..]) && [es[0]][1..] == [];
      SleepersHaveCause(Step(s, es[0]), es[1..]);
    }
  }

  /** Two files with shared locks: one asks for an exclusive one without sleeping, fails, and has no lock any more. */
  lemma UpgradeLosesLock(f: File, g: File)
    requires f != g
    ensures
      var s := Run(State({}, {}, map[]), [Lock(0, f, false, true, false), Lock(1, g, false, true, false)]);
      Inv(s) && f in s.sh && Result(s, f, true, true) == WouldBlock
      && f !in Step(s, Lock(0, f, true, false, true)).sh + Step(s, Lock(0, f, true, false, true)).ex
  {
    var a := State({}, {}, map[]);
    var e0, e1 := Lock(0, f, false, true, false), Lock(1, g, false, true, false);
    var b, c := Step(a, e0), Step(Step(a, e0), e1);
    assert b == State({}, {f}, map[]);
    assert c == State({}, {f, g}, map[]);
    assert [e0, e1][1..] == [e1] && [e1][1..] == [];
    assert Run(b, [e1]) == Run(c, []) == c;
    assert Run(a, [e0, e1]) == Run(b, [e1]);
    assert g in c.sh;
  }

  /** Two processes that share a file: one sleeps until the other gives up what is their own lock. */
  lemma SleepsOnItsOwnFile(f: File, g: File)
    requires f != g
    ensures
      var s := Run(State({}, {g}, map[]), [Lock(0, f, true, false, false), Lock(1, f, false, true, false),
        Unlock(g, false, true)]);
      0 in s.asleep && s.asleep[0].file == f && s.ex == {} && s.sh == {f}
  {
    var a := State({}, {g}, map[]);
    var e0, e1, e2 := Lock(0, f, true, false, false), Lock(1, f, false, true, false), Unlock(g, false, true);
    var b, c := Step(a, e0), Step(Step(a, e0), e1);
    assert b == State({}, {g}, map[0 := Wait(f, true, false)]);
    assert c == State({}, {g, f}, map[0 := Wait(f, true, false)]);
    assert Step(c, e2) == State({}, {f}, map[0 := Wait(f, true, false)]);
    assert [e0, e1, e2][1..] == [e1, e2] && [e1, e2][1..] == [e2] && [e2][1..] == [];
    assert Run(c, [e2]) == Run(Step(c, e2), []);
    assert Run(b, [e1, e2]) == Run(c, [e2]);
  }

  /** The wakeup of ino_unlock, which only comes when the last lock of the kind is gone, wakes those it should. */
  lemma FreedShared(s: State, f: File, t: State)
    requires Inv(s) && t.ex == s.ex && t.sh == s.sh - {f}
    requires t.asleep == if t.sh == {} then (map p | p in s.asleep && s.asleep[p].onEx :: s.asleep[p]) else s.asleep
    ensures t == Freed(s, f, false, true)
  {
    assert t.asleep == Freed(s, f, false, true).asleep;
  }

  lemma FreedExclusive(s: State, f: File, t: State)
    requires Inv(s) && t.ex == s.ex - {f} && t.sh == s.sh
    requires t.asleep == if t.ex == {} then (map p | p in s.asleep && !s.asleep[p].onEx :: s.asleep[p]) else s.asleep
    ensures t == Freed(s, f, true, false)
  {
    assert t.asleep == Freed(s, f, true, false).asleep;
  }

  class Inode {
    var exlocked: bool              // IEXLOCK
    var shlocked: bool              // ISHLOCK
    var lwait: bool                 // ILWAIT
    var exlockc: int
    var shlockc: int
    ghost const files: set<File>    // the files open on the inode
    ghost var st: State

    ghost predicate Valid()
      reads this, files
    {
      && Inv(st) && Flags() && st.ex <= files && st.sh <= files
      && (forall f <- files :: (f.exlock <==> f in st.ex) && (f.shlock <==> f in st.sh))
    }

    /**
     The flags say which kinds of lock are held, the counters by how many files, and ILWAIT is on when anyone sleeps.
     */
    ghost predicate Flags()
      reads this
    {
      && (exlocked <==> st.ex != {}) && (shlocked <==> st.sh != {}) && (st.asleep != map[] ==> lwait)
      && exlockc == |st.ex| && shlockc == |st.sh|
    }

    constructor (ghost files: set<File>)
      requires forall f <- files :: !f.exlock && !f.shlock
      ensures Valid() && this.files == files && st == State({}, {}, map[])
    {
      exlocked, shlocked, lwait, exlockc, shlockc := false, false, false, 0, 0;
      this.files := files;
      st := State({}, {}, map[]);
    }

    /** wakeup on one of the two counters. */
    ghost method Wakeup(onEx: bool)
      modifies this`st
      ensures st == old(st).(asleep := map p | p in old(st).asleep
        && old(st).asleep[p].onEx != onEx :: old(st).asleep[p])
    {
      st := st.(asleep := map p | p in st.asleep && st.asleep[p].onEx != onEx :: st.asleep[p]);
    }

    /** The lines of ino_unlock for a shared lock. */
    method FreeShared(f: File)
      requires Valid() && f in files && f.shlock
      modifies this`st, this`shlockc, this`shlocked, f`shlock
      ensures Valid() && st == Freed(old(st), f, false, true)
    {
      ghost var s, u := st, st.(sh := st.sh - {f});
      FreedKeepsInv(s, f, false, true);
      hide Inv, Settled;
      st := u;
      shlockc := shlockc - 1;
      if shlockc == 0 {
        shlocked := false;
        if lwait {
          Wakeup(false);
        }
      }
      f.shlock := false;
      FreedShared(s, f, st);
      assert shlockc == |st.sh| && (shlocked <==> st.sh != {});
    }

    /** The lines of ino_unlock for an exclusive lock. */
    method FreeExclusive(f: File)
      requires Valid() && f in files && f.exlock
      modifies this`st, this`exlockc, this`exlocked, this`lwait, f`exlock
      ensures Valid() && st == Freed(old(st), f, true, false)
    {
      ghost var s, u := st, st.(ex := st.ex - {f});
      FreedKeepsInv(s, f, true, false);
      Alone(s.ex, f);
      hide Inv, Settled;
      st := u;
      exlockc := exlockc - 1;
      if exlockc == 0 {
        var flags := lwait;
        exlocked, lwait := false, false;
        if flags {
          Wakeup(true);
        }
      }
      f.exlock := false;
      FreedExclusive(s, f, st);
    }

    /** ino_unlock, whose two panics do not come about. */
    method Ino_unlock(f: File, ex: bool, sh: bool) returns (panic: bool)
      requires Valid() && f in files
      modifies this, f
      ensures !panic && Valid() && st == Freed(old(st), f, ex, sh)
    {
      panic := false;
      var ex', sh' := ex && f.exlock, sh && f.shlock;
      var exFlag, shFlag := exlocked, shlocked;
      FreedNothing(st, f, ex && !ex', sh && !sh');
      FreedTwice(st, f, ex && !ex', sh && !sh', ex', sh');
      FreedTwice(st, f, false, sh', ex', false);
      FreedNothing(st, f, false, false);
      if sh' {
        if !shFlag {
          return true;
        }
        FreeShared(f);
      }
      if ex' {
        if !exFlag {
          return true;
        }
        FreeExclusive(f);
      }
    }

    /** The lines of ino_lock before a sleep. */
    method Sleep(ghost p: nat, ghost w: Wait)
      requires Valid() && Inv(st.(asleep := st.asleep[p := w]))
      modifies this`st, this`lwait
      ensures Valid() && st == old(st).(asleep := old(st).asleep[p := w])
    {
      lwait := true;
      st := st.(asleep := st.asleep[p := w]);
    }

    /** The lines of ino_lock that take the lock. */
    method Take(f: File, ex: bool)
      requires Valid() && f in files && !exlocked && (ex ==> !shlocked)
      requires Inv(if ex then st.(ex := st.ex + {f}) else st.(sh := st.sh + {f}))
      modifies this, f
      ensures Valid() && st == if ex then old(st).(ex := old(st).ex + {f}) else old(st).(sh := old(st).sh + {f})
    {
      hide Inv;
      if ex {
        exlockc := exlockc + 1;
        exlocked := true;
        f.exlock := true;
        st := st.(ex := st.ex + {f});
      } else if !f.shlock {
        shlockc := shlockc + 1;
        shlocked := true;
        f.shlock := true;
        st := st.(sh := st.sh + {f});
      } else {
        assert st.sh + {f} == st.sh;
      }
    }

    /** ino_lock, from its start or from where it wakes, to its return or to where it sleeps. */
    method Ino_lock(ghost p: nat, f: File, ex: bool, sh: bool, nb: bool) returns (r: Outcome)
      requires Valid() && f in files && p !in st.asleep
      modifies this, f
      ensures Valid() && r == Result(old(st), f, ex, nb) && st == Attempted(old(st), p, f, ex, sh, nb)
      ensures r == Granted ==> (f.exlock <==> ex) && (f.shlock <==> !ex && (sh || old(f.shlock)))
    {
      hide Inv, Freed, Conflict;
      ghost var s, a, b := st, false, false;
      FreedNothing(s, f, false, false);
      AttemptKeepsInv(s, p, f, ex, sh, nb);
      LockDoes(s, p, f, ex, sh, nb);
      while true
        invariant Valid() && st == Freed(s, f, a, b) && (b ==> ex)
        decreases f.exlock, f.shlock
      {
        if exlocked {
          if f.exlock {
            FreedTwice(s, f, a, b, true, false);
            a := true;
            FreedOut(st, f, true, false);
            var _ := Ino_unlock(f, true, false);
            continue;
          }
          Blocked(s, f, a, b, ex);
          if nb {
            return WouldBlock;
          }
          Sleep(p, Wait(f, ex, true));
          return Slept;
        }
        if ex && shlocked {
          if f.shlock {
            FreedTwice(s, f, a, b, false, true);
            b := true;
            FreedOut(st, f, false, true);
            var _ := Ino_unlock(f, false, true);
            continue;
          }
          Blocked(s, f, a, b, ex);
          if nb {
            return WouldBlock;
          }
          Sleep(p, Wait(f, ex, false));
          return Slept;
        }
        break;
      }
      Free(s, f, a, b, ex);
      if f.exlock {
        return Panicked;
      }
      if ex || sh {
        Take(f, ex);
      }
      r := Granted;
    }
  }

  /** What the two sleeps of ino_lock are for: a lock in the way that is another's, once the file's own are given up. */
  lemma Blocked(s: State, f: File, a: bool, b: bool, ex: bool)
    requires Inv(s) && (b ==> ex)
    requires
      var t := Freed(s, f, a, b);
      f !in t.ex && (t.ex != {} || (ex && t.sh != {} && f !in t.sh))
    ensures Freed(s, f, a, b) == Freed(s, f, true, ex) && Conflict(s, f, ex)
  {
    var t := Freed(s, f, a, b);
    FreedKeepsInv(s, f, a, b);
    FreedTwice(s, f, a, b, true, ex);
    FreedNothing(t, f, true, ex);
    if t.ex != {} {
      var g :| g in t.ex;
      assert g in s.ex && g != f;
    } else {
      var g :| g in t.sh;
      assert g in s.sh && g != f;
    }
  }

  lemma Free(s: State, f: File, a: bool, b: bool, ex: bool)
    requires Inv(s) && (b ==> ex)
    requires
      var t := Freed(s, f, a, b);
      t.ex == {} && (ex ==> t.sh == {})
    ensures Freed(s, f, a, b) == Freed(s, f, true, ex) && !Conflict(s, f, ex)
  {
    var t := Freed(s, f, a, b);
    FreedKeepsInv(s, f, a, b);
    FreedTwice(s, f, a, b, true, ex);
    FreedNothing(t, f, true, ex);
  }
}
