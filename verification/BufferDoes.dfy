/**
 What each call of the buffer cache does to the buffers, the lists and the disk, and that what was written by bwrite is
 on the disk when it returns.
 */
module BufferDoes {
  import opened Seqs
  import opened BufferState
  import opened BufferSteps
  import opened BufferRuns
  import opened BufferTwins

  // ---------------------------------------------------------------------------------------------------
  // What a process does with its buffer
  // ---------------------------------------------------------------------------------------------------

  /** No buffer but `b` is changed, nor the disk. */
  ghost predicate OnlyBuf(s: State, t: State, b: nat) {
    && b < |s.buf| == |t.buf| && t.disk == s.disk && t.chain == s.chain && t.buf[b].key == s.buf[b].key
    && (forall c :: 0 <= c < |s.buf| && c != b ==> t.buf[c] == s.buf[c])
  }

  /** Buffer `b` is given up: the last of the free ones, with what is in it. */
  ghost predicate LastFree(s: State, t: State, b: nat) {
    b < |t.buf| && !t.buf[b].busy && t.lru == s.lru + [b] && t.age == s.age && t.flight == s.flight
  }

  /** Buffer `b` goes to the disk. */
  ghost predicate Sent(s: State, t: State, b: nat, read: bool, async: bool) {
    && b < |t.buf| && t.flight == s.flight + {b} && t.lru == s.lru && t.age == s.age
    && t.buf[b].busy && t.buf[b].read == read && t.buf[b].async == async && !t.buf[b].delwri
  }

  /** What a process did with its buffer `b`, of block `k`. */
  ghost predicate OpDone(s: State, t: State, a: nat, op: Op, k: Key, b: nat) {
    && OnlyBuf(s, t, b) && !t.buf[b].inval
    && match op
       case Bread => a in t.uses
         && if s.buf[b].done then t.uses[a] == Hold(k, b) && t.buf[b] == s.buf[b] && t.flight == s.flight
            else t.uses[a] == Reading(k, b) && Sent(s, t, b, true, false)
       case Breada => a !in t.uses
         && if s.buf[b].done then LastFree(s, t, b) && t.buf[b] == s.buf[b].(busy := false, wanted := false)
            else Sent(s, t, b, true, true)
       case Brelse => a !in t.uses && LastFree(s, t, b) && t.buf[b] == s.buf[b].(busy := false, wanted := false)
       case Bwrite(d) =>
         a in t.uses && t.uses[a] == Writing(k, b) && Sent(s, t, b, false, false) && t.buf[b].data == d
       case Bawrite(d) => a !in t.uses && Sent(s, t, b, false, true) && t.buf[b].data == d
       case Bdwrite(d) =>
         a !in t.uses && LastFree(s, t, b) && t.buf[b].data == d && t.buf[b].delwri && t.buf[b].done
  }

  /**
   bread waits for the disk if the block is not there; breada only starts that; bwrite writes and waits; bawrite starts
   to write, and is done; bdwrite leaves the buffer among the free ones, to be written.
   */
  lemma OpDoes(s: State, a: nat, op: Op)
    requires Inv(s) && a in s.uses && s.uses[a].Hold? && s.uses[a].k.Blk?
    ensures OpDone(s, Step(s, Does(a, op)), a, op, s.uses[a].k, s.uses[a].b)
  {
    HoldIs(s, a);
    HeldBuf(s, a);
    DoesIs(s, a, op);
    DroppedOnly(s, a);
    hide Inv, Dropped, Used, OpDone, Step;
    var u, k, b := Dropped(s, a), s.uses[a].k, s.uses[a].b;
    if Writes(op) {
      WriteDone(u, a, op, k, b);
    } else {
      ReadDone(u, a, op, k, b);
    }
    SameOp(s, u, Used(u, a, op, k, b), a, op, k, b);
  }

  lemma DroppedOnly(s: State, a: nat)
    ensures Dropped(s, a) == s.(uses := s.uses - {a})
  {
  }

  lemma SameOp(s: State, u: State, t: State, a: nat, op: Op, k: Key, b: nat)
    requires u == s.(uses := u.uses) && OpDone(u, t, a, op, k, b)
    ensures OpDone(s, t, a, op, k, b)
  {
  }

  /** A buffer that a process has. */
  predicate Held(s: State, k: Key, b: nat) {
    b < |s.buf| && s.buf[b].key == k && s.buf[b].busy && !s.buf[b].inval && !s.buf[b].async
      && (s.buf[b].delwri ==> s.buf[b].done)
  }

  lemma ReadDone(s: State, a: nat, op: Op, k: Key, b: nat)
    requires Held(s, k, b) && a !in s.uses && k.Blk? && !Writes(op)
    ensures OpDone(s, Used(s, a, op, k, b), a, op, k, b)
  {
    PutOn(s, b);
    hide Put;
  }

  lemma WriteDone(s: State, a: nat, op: Op, k: Key, b: nat)
    requires Held(s, k, b) && a !in s.uses && k.Blk? && Writes(op)
    ensures OpDone(s, Used(s, a, op, k, b), a, op, k, b)
  {
    PutOn(Stored(s, b, op.d), b);
    hide Put;
  }

  lemma HeldBuf(s: State, a: nat)
    requires Inv(s) && a in s.uses && s.uses[a].Hold?
    ensures
      var x := s.buf[s.uses[a].b];
      && x.sized && !x.async && (x.delwri ==> x.done) && s.uses[a].b !in s.flight && (x.key.Blk? ==> !x.inval)
  {
    HoldIs(s, a);
    FreeBuf(s, s.uses[a].b);
    hide BufsOk, Listed, Hashed, Unique, Durable, Apart, Minded;
  }

  lemma PutOn(s: State, b: nat)
    requires b < |s.buf|
    ensures
      var t, x := Put(s, b), s.buf[b];
      && t.buf == s.buf[b := x.(wanted := false, busy := false, async := false)] && t.uses.Keys == s.uses.Keys
      && t.flight == s.flight && t.disk == s.disk && t.chain == s.chain && t.latest == s.latest
      && if x.inval then t.age == [b] + s.age && t.lru == s.lru else t.lru == s.lru + [b] && t.age == s.age
  {
    PutIs(s, b);
    hide Roused;
  }

  /** brelse of a buffer of no block: it is the next to be taken. */
  lemma EmptyReleased(s: State, a: nat)
    requires Inv(s) && a in s.uses && s.uses[a].Hold? && s.uses[a].k.NoDev?
    ensures
      var b, t := s.uses[a].b, Step(s, Does(a, Brelse));
      && OnlyBuf(s, t, b) && a !in t.uses && !t.buf[b].busy && t.age == [b] + s.age && t.lru == s.lru
      && t.flight == s.flight
  {
    HoldIs(s, a);
    PutOn(Dropped(s, a), s.uses[a].b);
    hide Put;
  }

  // ---------------------------------------------------------------------------------------------------
  // The disk
  // ---------------------------------------------------------------------------------------------------

  /**
   The disk is done: a read brought what is on the disk, a write put on it what is in the buffer, and all else on the
   disk is as it was.  A buffer nobody waits for is free; whoever waits for the disk goes on.
   */
  lemma DoneDoes(s: State, b: nat)
    requires Inv(s) && b in s.flight
    ensures b < |s.buf| && Landing(s, Step(s, Iodone(b)), b)
    ensures forall a :: a in s.uses ==>
      a in Step(s, Iodone(b)).uses && Step(s, Iodone(b)).uses[a] == match s.uses[a]
        case Reading(k, c) => if c == b then Hold(k, c) else s.uses[a]
        case Writing(k, c) => if c == b then Wrote(k, c) else s.uses[a]
        case Flushing(k, c, e) => if e == b then Flushed(k, c, e) else s.uses[a]
        case _ => Step(s, Iodone(b)).uses[a]
  {
    FlyingBuf(s, b);
    NoSleepers(s, b);
    hide Inv, Put, Finished;
    FinishedIs(s, b);
    if s.buf[b].async {
      PutOn(Finished(s, b), b);
      forall a | a in s.uses && (s.uses[a].Reading? || s.uses[a].Writing? || s.uses[a].Flushing?)
        ensures a in Biodone(s, b).uses && Biodone(s, b).uses[a] == s.uses[a]
      {
        PutBlocked(Finished(s, b), b, a);
      }
      DoneAsks(s, b);
    }
  }

  ghost predicate Landing(s: State, t: State, b: nat)
    requires b < |s.buf|
  {
    var x := s.buf[b];
    && |t.buf| == |s.buf| && (forall c :: 0 <= c < |s.buf| && c != b ==> t.buf[c] == s.buf[c])
    && t.flight == s.flight - {b} && t.chain == s.chain && t.buf[b].key == x.key && t.buf[b].done
    && t.buf[b].data == (if x.read then Content(s.disk, x.key) else x.data)
    && (forall k :: Content(t.disk, k) == if k == x.key && !x.read then x.data else Content(s.disk, k))
    && (if x.async then !t.buf[b].busy && t.lru == s.lru + [b] && t.age == s.age
        else t.buf[b].busy && t.lru == s.lru && t.age == s.age)
  }

  lemma FinishedIs(s: State, b: nat)
    requires b < |s.buf|
    ensures
      var t, x := Finished(s, b), s.buf[b];
      && t.buf == s.buf[b := t.buf[b]] && t.flight == s.flight - {b} && t.chain == s.chain && t.uses == s.uses
      && t.lru == s.lru && t.age == s.age && t.short == s.short
      && t.buf[b] == x.(done := true, data := if x.read then Content(s.disk, x.key) else x.data)
      && (forall k :: Content(t.disk, k) == if k == x.key && !x.read then x.data else Content(s.disk, k))
  {
  }

  /** Whoever sleeps for the disk is not woken by what gives up a buffer. */
  lemma PutBlocked(s: State, b: nat, a: nat)
    requires a in s.uses && (s.uses[a].Reading? || s.uses[a].Writing? || s.uses[a].Flushing?)
    ensures a in Put(s, b).uses && Put(s, b).uses[a] == s.uses[a]
  {
    assert Put(s, b).uses == Roused(s.uses, b, At(s, b).wanted, s.short);
  }

  lemma FlyingBuf(s: State, b: nat)
    requires Inv(s) && b in s.flight
    ensures b < |s.buf| && s.buf[b].busy && !s.buf[b].inval
  {
    hide Listed, Hashed, Unique, Durable, UsesOk, Apart, Minded;
    FreeBuf(s, b);
  }

  /** Nobody sleeps for the disk on a buffer that is its own. */
  lemma NoSleepers(s: State, b: nat)
    requires Inv(s) && b < |s.buf|
    ensures s.buf[b].async ==> forall a :: a in s.uses ==>
      !((s.uses[a].Reading? || s.uses[a].Writing?) && s.uses[a].b == b) && !(s.uses[a].Flushing? && s.uses[a].e == b)
  {
    hide BufsOk, Listed, Hashed, Unique, Durable, Apart, Minded;
  }

  // ---------------------------------------------------------------------------------------------------
  // bwrite
  // ---------------------------------------------------------------------------------------------------

  /** The process is in bwrite, with `d` for block `k`. */
  ghost predicate InWrite(s: State, a: nat, k: Key, b: nat, d: Block) {
    a in s.uses && (s.uses[a] == Writing(k, b) || s.uses[a] == Wrote(k, b)) && Content(s.latest, k) == d
  }

  /** What a process in bwrite has is the one buffer of the block. */
  lemma WriterAlone(s: State, a: nat, k: Key, b: nat)
    requires Inv(s) && a in s.uses && (s.uses[a] == Writing(k, b) || s.uses[a] == Wrote(k, b))
    ensures b < |s.buf| && s.buf[b].key == k && k.Blk? && Same(s.buf[b], k)
    ensures forall c: nat :: c < |s.buf| && c != b ==> !Same(s.buf[c], k)
    ensures forall c :: c in s.uses && c != a && s.uses[c].Hold? ==> s.uses[c].k != k
  {
    UseOf(s, a);
    InvIs(s);
    if s.uses[a].Writing? {
      FlyingBuf(s, b);
      FreeBuf(s, b);
    }
    forall c: nat | c < |s.buf| && c != b
      ensures !Same(s.buf[c], k)
    {
      assert if b < c then !(Same(s.buf[b], s.buf[c].key) && Same(s.buf[c], s.buf[c].key))
        else !(Same(s.buf[c], s.buf[b].key) && Same(s.buf[b], s.buf[b].key));
    }
    forall c | c in s.uses && c != a && s.uses[c].Hold?
      ensures s.uses[c].k != k
    {
      HoldIs(s, c);
      HeldBuf(s, c);
      OthersApart(s, a, c);
    }
  }

  lemma UseOf(s: State, a: nat)
    requires Inv(s) && a in s.uses
    ensures UseOk(s, s.uses[a])
  {
    hide BufsOk, Listed, Hashed, Unique, Durable, Apart, Minded;
  }

  /** Once the write is done the block's latest contents are on the disk. */
  lemma WroteIsOnDisk(s: State, a: nat, k: Key, b: nat)
    requires Inv(s) && a in s.uses && s.uses[a] == Wrote(k, b)
    ensures Content(s.disk, k) == Content(s.latest, k)
  {
    UseOf(s, a);
    WriterAlone(s, a, k, b);
    InvIs(s);
    hide Inv, Unique, Listed, Hashed, UsesOk, Minded;
    forall c: nat
      ensures !Unwritten(s, c, k)
    {
      if Unwritten(s, c, k) {
        FreeBuf(s, c);
      }
    }
  }

  /** Whatever happens, the process stays in bwrite, or what it wrote is on the disk. */
  lemma WriteStep(s: State, e: Event, a: nat, k: Key, b: nat, d: Block)
    requires Inv(s) && InWrite(s, a, k, b, d)
    ensures
      var t := Step(s, e);
      if a in t.uses then InWrite(t, a, k, b, d) else Content(t.disk, k) == d
  {
    WriterAlone(s, a, k, b);
    LatestIs(s, e);
    if s.uses[a].Wrote? {
      WroteIsOnDisk(s, a, k, b);
    }
    hide Inv, Sought, Renewed, Scanned, Put, Stored, Fetched, Started, Flush, Biodone;
    match e
    case Getblk(c, dev, blkno) =>
      if c !in s.uses {
        SeekWriters(s, c, Blk(dev, Clip(blkno)), a);
      }
    case Geteblk(c) =>
      if c !in s.uses {
        RenewWriters(s, c, NoDev, a);
      }
    case Go(c) =>
      if c in s.uses {
        GoneWriters(s, c, a);
      }
    case Does(c, op) =>
      if c in s.uses && s.uses[c].Hold? {
        UsedWriters(Dropped(s, c), c, op, s.uses[c].k, s.uses[c].b, a);
      }
    case Iodone(c) =>
      if c in s.flight {
        DoneWriters(s, c, a);
      }
    case Bflush(dev) => FlushAsks(s, dev);
  }

  /** A process in bwrite is not woken by what gives up a buffer. */
  predicate Writer(s: State, a: nat) {
    a in s.uses && (s.uses[a].Writing? || s.uses[a].Wrote?)
  }

  lemma PutWriters(s: State, b: nat, a: nat)
    requires Writer(s, a)
    ensures a in Put(s, b).uses && Put(s, b).uses[a] == s.uses[a]
  {
    assert Put(s, b).uses == Roused(s.uses, b, At(s, b).wanted, s.short);
  }

  lemma {:induction false} ScanWriters(s: State, p: nat, k: Key, b: nat, i: nat, a: nat)
    requires Writer(s, a) && p != a
    ensures a in Scanned(s, p, k, b, i).uses && Scanned(s, p, k, b, i).uses[a] == s.uses[a]
    decreases |ChainAt(s.chain, Home(k))| - i
  {
    hide Displaced;
    ScannedIs(s, p, k, b, i);
    var c := ChainAt(s.chain, Home(k));
    if i < |c| {
      if c[i] == b || !Same(At(s, c[i]), k) {
        ScanWriters(s, p, k, b, i + 1, a);
      } else {
        var t := Displaced(s, p, k, b, c[i]);
        DisplaceAsks(s, p, k, b, c[i]);
        DisplaceWriters(s, p, k, b, c[i], a);
        if !At(s, c[i]).busy && !At(s, c[i]).delwri {
          ScanWriters(t, p, k, b, i + 1, a);
        }
      }
    }
  }

  lemma DisplaceWriters(s: State, p: nat, k: Key, b: nat, e: nat, a: nat)
    requires Writer(s, a) && p != a
    ensures a in Displaced(s, p, k, b, e).uses && Displaced(s, p, k, b, e).uses[a] == s.uses[a]
  {
    hide Put, Spoilt, Taken, Started;
    TakenUses(s, e);
    TakenUses(Taken(s, e), e);
    StartedIs(Taken(s, e), e);
    PutWriters(Spoilt(Taken(s, e), e), e, a);
  }

  lemma {:induction false} RenewWriters(s: State, p: nat, k: Key, a: nat)
    requires Writer(s, a) && p != a
    ensures a in Renewed(s, p, k).uses && Renewed(s, p, k).uses[a] == s.uses[a]
    decreases |s.lru| + |s.age|
  {
    hide Scanned, Renewed;
    RenewedIs(s, p, k);
    if s.age != [] || s.lru != [] {
      var b := Oldest(s);
      if At(s, b).delwri {
        Shorter(s, b);
        RenewWriters(Started(Taken(s, b), b, true), p, k, a);
      } else if k.Blk? {
        ScanWriters(Bound(Taken(s, b), b, k), p, k, b, 0, a);
      }
    }
  }

  lemma SeekWriters(s: State, p: nat, k: Key, a: nat)
    requires Writer(s, a) && p != a
    ensures a in Sought(s, p, k).uses && Sought(s, p, k).uses[a] == s.uses[a]
  {
    hide Renewed;
    RenewWriters(s, p, k, a);
  }

  /** A process in bwrite leaves it by its own step alone. */
  lemma GoneWriters(s: State, c: nat, a: nat)
    requires c in s.uses && Writer(s, a)
    ensures
      var t := Step(s, Go(c));
      && (c == a && s.uses[a].Wrote? ==> a !in t.uses && t.disk == s.disk)
      && (c != a || s.uses[a].Writing? ==> a in t.uses && t.uses[a] == s.uses[a])
  {
    hide Sought, Renewed, Scanned, Put;
    var t, u := Dropped(s, c), s.uses[c];
    if c == a {
      if u.Wrote? {
        PutAsks(t, u.b);
        PutDisk(t, u.b);
      }
    } else {
      match u
      case Look(k) => SeekWriters(t, c, k, a);
      case Need(k) => RenewWriters(t, c, k, a);
      case Claim(k, b) => ScanWriters(t, c, k, b, 0, a);
      case Flushed(k, b, e) =>
        PutWriters(t, e, a);
        ScanWriters(Put(t, e), c, k, b, 0, a);
      case Wrote(k, b) => PutWriters(t, b, a);
      case _ =>
    }
  }

  lemma PutDisk(s: State, b: nat)
    ensures Put(s, b).disk == s.disk
  {
  }

  lemma UsedWriters(s: State, c: nat, op: Op, k: Key, b: nat, a: nat)
    requires Writer(s, a) && c != a
    ensures a in Used(s, c, op, k, b).uses && Used(s, c, op, k, b).uses[a] == s.uses[a]
  {
    PutWriters(s, b, a);
    if Writes(op) {
      PutWriters(Stored(s, b, op.d), b, a);
    }
    hide Put;
  }

  lemma DoneWriters(s: State, b: nat, a: nat)
    requires Writer(s, a)
    ensures
      var t := Biodone(s, b);
      a in t.uses && t.uses[a] == if s.uses[a].Writing? && s.uses[a].b == b && !At(s, b).async
        then Wrote(s.uses[a].k, b) else s.uses[a]
  {
    PutWriters(Finished(s, b), b, a);
    hide Put;
  }

  /** A run in which a process has a use up to the last step, and not after. */
  ghost predicate LeavesLast(s: State, es: seq<Event>, a: nat)
    decreases |es|
  {
    && es != []
    && if a in Step(s, es[0]).uses then LeavesLast(Step(s, es[0]), es[1..], a) else es[1..] == []
  }

  lemma {:induction false} InWriteToTheEnd(s: State, es: seq<Event>, a: nat, k: Key, b: nat, d: Block)
    requires Inv(s) && InWrite(s, a, k, b, d) && LeavesLast(s, es, a)
    ensures Content(Run(s, es).disk, k) == d
    decreases |es|
  {
    hide Inv, Step, InWrite;
    WriteStep(s, es[0], a, k, b, d);
    StepKeepsInv(s, es[0]);
    if a in Step(s, es[0]).uses {
      InWriteToTheEnd(Step(s, es[0]), es[1..], a, k, b, d);
    }
  }

  /**
   bwrite waits: whatever others do in between, when the process leaves it what it wrote is on the disk.
   */
  lemma BwriteWaits(s: State, a: nat, d: Block, es: seq<Event>)
    requires Inv(s) && a in s.uses && s.uses[a].Hold? && s.uses[a].k.Blk?
    requires LeavesLast(Step(s, Does(a, Bwrite(d))), es, a)
    ensures a in Step(s, Does(a, Bwrite(d))).uses
    ensures Content(Run(Step(s, Does(a, Bwrite(d))), es).disk, s.uses[a].k) == d
  {
    hide Inv, Step, LeavesLast, Run;
    OpDoes(s, a, Bwrite(d));
    LatestIs(s, Does(a, Bwrite(d)));
    StepKeepsInv(s, Does(a, Bwrite(d)));
    InWriteToTheEnd(Step(s, Does(a, Bwrite(d))), es, a, s.uses[a].k, s.uses[a].b, d);
  }

  // ---------------------------------------------------------------------------------------------------
  // Getting a buffer
  // ---------------------------------------------------------------------------------------------------

  /** No buffer of block `k` but `b` is in use. */
  ghost predicate NoneInUse(s: State, k: Key, b: nat) {
    forall e: nat :: e < |s.buf| && e != b && Same(s.buf[e], k) ==> !InUse(s, e)
  }

  /**
   Process `a`, at making `b` a buffer of block `k`, sleeps until `e` is given up or written, another of the block.
   */
  ghost predicate WaitsAt(s: State, t: State, a: nat, k: Key, b: nat, e: nat) {
    && a in t.uses && e < |s.buf| == |t.buf| && e != b && Same(s.buf[e], k) && InUse(s, e)
    && if t.uses[a].WaitClaim? then t.uses[a].k == k && t.uses[a].b == b && t.uses[a].e == e && t.buf[e].wanted
       else t.uses[a] == Flushing(k, b, e) && e in t.flight && !t.buf[e].read && !t.buf[e].async && !s.buf[e].busy
  }

  /** brealloc: the process has buffer `b` if no other of the block is in use, and else waits for such a one. */
  ghost predicate Claimer(s: State, t: State, a: nat, k: Key, b: nat) {
    && a in t.uses
    && if k.NoDev? || NoneInUse(s, k, b) then t.uses[a] == Hold(k, b) else exists e: nat :: WaitsAt(s, t, a, k, b, e)
  }

  /** The rest of the chain has every other buffer of the block. */
  ghost predicate OthersAhead(s: State, k: Key, b: nat, i: nat) {
    forall e: nat :: e < |s.buf| && e != b && Same(s.buf[e], k) ==> OnRest(s, k, e, i)
  }

  lemma {:induction false} ScanDoes(s: State, a: nat, k: Key, b: nat, i: nat)
    requires k.Blk? && OthersAhead(s, k, b, i)
    ensures Claimer(s, Scanned(s, a, k, b, i), a, k, b) && |Scanned(s, a, k, b, i).buf| == |s.buf|
    decreases |ChainAt(s.chain, Home(k))| - i
  {
    hide Displaced, Sized, Claimer;
    ScannedIs(s, a, k, b, i);
    ScanNarrows(s, a, k, b, i);
    var c := ChainAt(s.chain, Home(k));
    if i >= |c| {
      ClaimedHold(s, a, k, b);
    } else if c[i] == b || !Same(At(s, c[i]), k) {
      ScanDoes(s, a, k, b, i + 1);
    } else {
      var e := c[i];
      var t := Displaced(s, a, k, b, e);
      DisplacedBuf(s, a, k, b, e);
      DisplaceAsks(s, a, k, b, e);
      if InUse(s, e) {
        DisplacedWaits(s, a, k, b, e);
      } else {
        SameRest(s, t, k, b, i, e);
        ScanDoes(t, a, k, b, i + 1);
        ClaimerBefore(s, t, Scanned(t, a, k, b, i + 1), a, k, b, e);
      }
    }
  }

  lemma ClaimedHold(s: State, a: nat, k: Key, b: nat)
    requires forall e: nat :: e < |s.buf| && e != b ==> !Same(s.buf[e], k)
    ensures Claimer(s, Given(Sized(s, b), a, Hold(k, b)), a, k, b)
  {
  }

  lemma DisplacedWaits(s: State, a: nat, k: Key, b: nat, e: nat)
    requires e < |s.buf| && e != b && Same(s.buf[e], k) && InUse(s, e) && k.Blk?
    ensures Claimer(s, Displaced(s, a, k, b, e), a, k, b)
  {
    DisplacedBuf(s, a, k, b, e);
    assert !NoneInUse(s, k, b);
    hide Taken, NoneInUse;
    assert WaitsAt(s, Displaced(s, a, k, b, e), a, k, b, e);
  }

  lemma SameRest(s: State, t: State, k: Key, b: nat, i: nat, e: nat)
    requires OthersAhead(s, k, b, i) && t.chain == s.chain && e < |s.buf| == |t.buf| && t.buf == s.buf[e := t.buf[e]]
      && t.buf[e].inval && i < |ChainAt(s.chain, Home(k))| && ChainAt(s.chain, Home(k))[i] == e
    ensures OthersAhead(t, k, b, i + 1)
  {
    forall c: nat | c < |t.buf| && c != b && Same(t.buf[c], k)
      ensures OnRest(t, k, c, i + 1)
    {
      assert c != e && OnRest(s, k, c, i);
    }
  }

  lemma ClaimerBefore(s: State, t: State, u: State, a: nat, k: Key, b: nat, e: nat)
    requires e < |s.buf| == |t.buf| && t.buf == s.buf[e := t.buf[e]] && t.buf[e].inval && e != b && !InUse(s, e)
      && Claimer(t, u, a, k, b)
    ensures Claimer(s, u, a, k, b)
  {
    assert NoneInUse(t, k, b) <==> NoneInUse(s, k, b) by {
      forall c: nat | c < |s.buf| && c != b && Same(s.buf[c], k) && InUse(s, c)
        ensures Same(t.buf[c], k) && InUse(t, c)
      {
      }
    }
    forall c: nat | WaitsAt(t, u, a, k, b, c)
      ensures WaitsAt(s, u, a, k, b, c)
    {
    }
  }

  /** The free buffers in the order in which they are taken. */
  function Order(s: State): seq<nat> {
    s.age + s.lru
  }

  /** The first free buffer that need not be written first. */
  ghost predicate FirstClean(s: State, i: nat) {
    i < |Order(s)| && !At(s, Order(s)[i]).delwri && DirtyUpTo(s, i)
  }

  /**
   getnewbuf: dirty buffers are sent to the disk until one is found that is not, and that one is taken for the block;
   if there is none the process sleeps.
   */
  ghost predicate Renewal(s: State, t: State, a: nat, k: Key) {
    && a in t.uses && |t.buf| == |s.buf|
    && (DirtyUpTo(s, |Order(s)|) ==> t.uses[a] == WaitFree(k) && InFlightUpTo(s, t, |Order(s)|))
    && forall i: nat :: FirstClean(s, i) ==> Claimer(s, t, a, k, Order(s)[i]) && InFlightUpTo(s, t, i)
  }

  /** The first free buffers are to be written. */
  ghost predicate DirtyUpTo(s: State, i: nat) {
    i <= |Order(s)| && forall j :: 0 <= j < i ==> At(s, Order(s)[j]).delwri
  }

  /** They are on their way to the disk. */
  ghost predicate InFlightUpTo(s: State, t: State, i: nat) {
    i <= |Order(s)| && forall j :: 0 <= j < i ==> Order(s)[j] in t.flight
  }

  lemma {:induction false} ScanFlight(s: State, a: nat, k: Key, b: nat, i: nat)
    ensures s.flight <= Scanned(s, a, k, b, i).flight
    decreases |ChainAt(s.chain, Home(k))| - i
  {
    hide Displaced, Sized;
    ScannedIs(s, a, k, b, i);
    var c := ChainAt(s.chain, Home(k));
    if i >= |c| {
      SizedFlight(s, b);
    } else if c[i] == b || !Same(At(s, c[i]), k) {
      ScanFlight(s, a, k, b, i + 1);
    } else {
      DisplacedFlight(s, a, k, b, c[i]);
      DisplaceAsks(s, a, k, b, c[i]);
      if !InUse(s, c[i]) && !At(s, c[i]).busy && !At(s, c[i]).delwri {
        ScanFlight(Displaced(s, a, k, b, c[i]), a, k, b, i + 1);
      }
    }
  }

  lemma SizedFlight(s: State, b: nat)
    ensures Sized(s, b).flight == s.flight
  {
  }

  lemma DisplacedFlight(s: State, a: nat, k: Key, b: nat, e: nat)
    ensures s.flight <= Displaced(s, a, k, b, e).flight
  {
    hide Without;
  }

  lemma {:induction false} RenewDoes(s: State, a: nat, k: Key)
    requires Inv(s) && a !in s.uses
    ensures Renewal(s, Renewed(s, a, k), a, k) && s.flight <= Renewed(s, a, k).flight
    decreases |s.lru| + |s.age|
  {
    hide InvWith, Taken, Started, Bound, Scanned, Sized, Claimed, Renewed, Renewal;
    RenewedIs(s, a, k);
    if s.age == [] && s.lru == [] {
      NoneToTake(s, Renewed(s, a, k), a, k);
    } else {
      var b := Oldest(s);
      AllFree(s, {}, b);
      TakenIs(s, b);
      OrderTaken(s, b);
      if s.buf[b].delwri {
        var t := Started(Taken(s, b), b, true);
        CleanKeepsInv(s, b, {});
        StartedIs(Taken(s, b), b);
        StartedSame(s, b);
        StartedOne(s, b);
        Shorter(s, b);
        RenewDoes(t, a, k);
        RenewalAfterOne(s, t, Renewed(t, a, k), a, k, b);
      } else {
        TakeKeepsInv(s, b, {});
        assert {} + {b} == {b};
        BindKeepsInv(Taken(s, b), b, k, {b});
        BoundIs(Taken(s, b), b, k);
        var t := Bound(Taken(s, b), b, k);
        ClaimDoes(t, a, k, b);
        RenewalAtOnce(s, t, Claimed(t, a, k, b), a, k, b);
      }
    }
  }

  lemma NoneToTake(s: State, t: State, a: nat, k: Key)
    requires Order(s) == [] && t == Given(s.(short := true), a, WaitFree(k))
    ensures Renewal(s, t, a, k)
  {
  }

  /** The first is taken: the others follow in their order. */
  lemma OrderTaken(s: State, b: nat)
    requires Inv(s) && (s.age != [] || s.lru != []) && b == Oldest(s)
    ensures Order(s) != [] && Order(s)[0] == b && Order(Taken(s, b)) == Order(s)[1..] && b !in Order(s)[1..]
  {
    hide BufsOk, Hashed, Unique, Durable, UsesOk, Apart, Minded;
    if s.age != [] {
      assert s.age[0] !in s.age[1..] && b !in s.lru;
      WithoutIs(s.lru, b);
      WithoutNot(s.lru, b);
    } else {
      assert s.lru[0] !in s.lru[1..];
    }
  }

  lemma {:induction false} WithoutNot(c: seq<nat>, b: nat)
    requires b !in c
    ensures Without(c, b) == c
  {
    if c != [] {
      WithoutNot(c[1..], b);
    }
  }

  lemma StartedOne(s: State, b: nat)
    requires b < |s.buf|
    ensures
      var t := Started(Taken(s, b), b, true);
      && t.buf == s.buf[b := t.buf[b]] && t.buf[b].sized == s.buf[b].sized && t.flight == s.flight + {b}
      && t.buf[b].key == s.buf[b].key && t.buf[b].inval == s.buf[b].inval && t.buf[b].busy
  {
    hide Without;
  }

  lemma RenewalAfterOne(s: State, t: State, u: State, a: nat, k: Key, b: nat)
    requires Order(s) != [] && Order(s)[0] == b && Order(t) == Order(s)[1..] && b !in Order(s)[1..]
    requires Busied(s, t, b) && t.flight == s.flight + {b} && t.flight <= u.flight && Alike(s, t)
    requires Renewal(t, u, a, k)
    ensures Renewal(s, u, a, k) && s.flight <= u.flight
  {
    hide Order, Claimer, Alike;
    forall i: nat | 0 < i <= |Order(s)|
      ensures DirtyUpTo(s, i) <==> DirtyUpTo(t, i - 1)
      ensures InFlightUpTo(t, u, i - 1) ==> InFlightUpTo(s, u, i)
    {
      OneBehind(s, t, u, b, i);
    }
    forall i: nat | FirstClean(s, i)
      ensures Claimer(s, u, a, k, Order(s)[i]) && InFlightUpTo(s, u, i)
    {
      assert At(s, Order(s)[0]).delwri;
      var c := Order(s)[i];
      assert Order(t)[i - 1] == c && c in Order(s)[1..];
      assert FirstClean(t, i - 1);
      ClaimerAlike(s, t, u, a, k, c, b);
    }
  }

  /** Buffer `b`, that was to be written, is busy instead. */
  ghost predicate Busied(s: State, t: State, b: nat) {
    && b < |s.buf| == |t.buf| && t.buf == s.buf[b := t.buf[b]] && s.buf[b].delwri && t.buf[b].busy
    && t.buf[b].sized == s.buf[b].sized && t.buf[b].key == s.buf[b].key && t.buf[b].inval == s.buf[b].inval
  }

  lemma OneBehind(s: State, t: State, u: State, b: nat, i: nat)
    requires Order(s) != [] && Order(s)[0] == b && Order(t) == Order(s)[1..] && b !in Order(s)[1..] && Busied(s, t, b)
    requires 0 < i <= |Order(s)| && b in u.flight
    ensures DirtyUpTo(s, i) <==> DirtyUpTo(t, i - 1)
    ensures InFlightUpTo(t, u, i - 1) ==> InFlightUpTo(s, u, i)
  {
    hide Order;
    forall j: nat | j < |Order(t)|
      ensures Order(t)[j] == Order(s)[j + 1] && At(t, Order(t)[j]) == At(s, Order(s)[j + 1])
    {
      assert Order(t)[j] in Order(s)[1..];
    }
    if DirtyUpTo(s, i) {
      forall j: nat | j < i - 1
        ensures At(t, Order(t)[j]).delwri
      {
        assert At(s, Order(s)[j + 1]).delwri;
      }
    }
    if DirtyUpTo(t, i - 1) {
      forall j: nat | j < i
        ensures At(s, Order(s)[j]).delwri
      {
        if 0 < j {
          assert At(t, Order(t)[j - 1]).delwri;
        }
      }
    }
    if InFlightUpTo(t, u, i - 1) {
      forall j: nat | j < i
        ensures Order(s)[j] in u.flight
      {
        if 0 < j {
          assert Order(t)[j - 1] in u.flight;
        }
      }
    }
  }

  /** To send a buffer to the disk that was to be written makes no difference to who is waited for, but for how. */
  lemma ClaimerAlike(s: State, t: State, u: State, a: nat, k: Key, c: nat, b: nat)
    requires Busied(s, t, b) && c != b && Claimer(t, u, a, k, c)
    ensures Claimer(s, u, a, k, c)
  {
    assert forall e: nat :: InUse(t, e) <==> InUse(s, e);
    assert forall e: nat :: e < |s.buf| ==> (Same(t.buf[e], k) <==> Same(s.buf[e], k));
    assert NoneInUse(t, k, c) <==> NoneInUse(s, k, c);
    forall e: nat | WaitsAt(t, u, a, k, c, e)
      ensures WaitsAt(s, u, a, k, c, e)
    {
    }
  }

  /** The buffer that is taken is clean. */
  lemma RenewalAtOnce(s: State, t: State, u: State, a: nat, k: Key, b: nat)
    requires Order(s) != [] && Order(s)[0] == b && b < |s.buf| == |t.buf| == |u.buf| && !s.buf[b].delwri
      && Claimer(t, u, a, k, b)
    requires forall e :: 0 <= e < |s.buf| && e != b ==> t.buf[e] == s.buf[e]
    ensures Renewal(s, u, a, k)
  {
    assert a in u.uses;
    assert NoneInUse(t, k, b) <==> NoneInUse(s, k, b) by {
      assert forall e: nat :: e < |s.buf| && e != b ==> (InUse(t, e) <==> InUse(s, e));
    }
    forall e: nat | WaitsAt(t, u, a, k, b, e)
      ensures WaitsAt(s, u, a, k, b, e)
    {
    }
    forall i: nat | 0 < i
      ensures !FirstClean(s, i)
    {
      assert DirtyUpTo(s, i) ==> At(s, Order(s)[0]).delwri;
    }
    assert At(s, Order(s)[0]) == s.buf[b];
  }

  lemma ClaimDoes(s: State, a: nat, k: Key, b: nat)
    requires InvWith(s, {b}) && b < |s.buf|
    ensures Claimer(s, Claimed(s, a, k, b), a, k, b) && |Claimed(s, a, k, b).buf| == |s.buf|
    ensures s.flight <= Claimed(s, a, k, b).flight
  {
    hide BufsOk, Listed, Unique, Durable, UsesOk, Apart, Minded, HandOk, Scanned, Hashed;
    if k.Blk? {
      forall e: nat | e < |s.buf| && e != b && Same(s.buf[e], k)
        ensures OnRest(s, k, e, 0)
      {
        Chained(s, k, e);
      }
      ScanDoes(s, a, k, b, 0);
      ScanFlight(s, a, k, b, 0);
    }
  }

  /** The first buffer of the block on its chain is the process's, or if it is busy, the process sleeps for it. */
  ghost predicate Hit(s: State, t: State, a: nat, k: Key, b: nat) {
    && OfBlock(s, b, k) && a in t.uses && b < |t.buf|
    && (forall c :: 0 <= c < |s.buf| && c != b ==> c < |t.buf| && t.buf[c] == s.buf[c])
    && t.flight == s.flight && t.disk == s.disk
    && if s.buf[b].busy then t.uses[a] == WaitBuf(k, b) && t.buf[b] == s.buf[b].(wanted := true)
       else t.uses[a] == Hold(k, b) && t.buf[b] == s.buf[b].(busy := true)
  }

  /** getblk: a buffer of the block if there is one, and else a new one. */
  ghost predicate Got(s: State, t: State, a: nat, k: Key) {
    if exists b :: OfBlock(s, b, k) then exists b :: Hit(s, t, a, k, b) else Renewal(s, t, a, k)
  }

  lemma SeekDoes(s: State, a: nat, k: Key)
    requires Inv(s) && a !in s.uses && k.Blk?
    ensures Got(s, Sought(s, a, k), a, k)
  {
    hide InvWith, Renewed, Taken, Wanted, Renewal;
    var c := ChainAt(s.chain, Home(k));
    var i := Find(s, c, k, 0);
    HashedOf(s, {});
    forall b: nat | OfBlock(s, b, k)
      ensures i < |c|
    {
      Chained(s, k, b);
    }
    if i == |c| {
      RenewDoes(s, a, k);
    } else {
      var b := c[i];
      OnChain(s, {}, k, i);
      TakenIs(s, b);
      WantedIs(s, b);
      assert Hit(s, Sought(s, a, k), a, k, b);
    }
  }

  lemma GetDoes(s: State, a: nat, dev: int, blkno: int)
    requires Inv(s) && a !in s.uses
    ensures
      var far := blkno < 0 || blkno >= 0x80_0000;
      Got(s, Step(s, Getblk(a, dev, blkno)), a, Blk(dev, if far then 0x100_0000 else blkno))
  {
    hide InvWith, Sought, Got;
    SeekDoes(s, a, Blk(dev, Clip(blkno)));
  }

  lemma GeteblkDoes(s: State, a: nat)
    requires Inv(s) && a !in s.uses
    ensures Renewal(s, Step(s, Geteblk(a)), a, NoDev)
  {
    hide InvWith, Renewed, Renewal;
    RenewDoes(s, a, NoDev);
  }

  /**
   A process that was woken goes on from where it was: it searches the chain again, or tries again for a free buffer, or
   for the others of the block, or gives up what it had written for another, or leaves bwrite; one that was not, does
   nothing.
   */
  lemma GoDoes(s: State, a: nat)
    requires Inv(s) && a in s.uses
    ensures
      var t, d := Step(s, Go(a)), s.(uses := s.uses - {a});
      match s.uses[a]
      case Look(k) => Got(d, t, a, k)
      case Need(k) => Renewal(d, t, a, k)
      case Claim(k, b) => Claimer(d, t, a, k, b)
      case Flushed(k, b, e) => e < |s.buf| && Claimer(d.(buf := d.buf[e := d.buf[e].(busy := false)]), t, a, k, b)
      case Wrote(k, b) => OnlyBuf(s, t, b) && LastFree(s, t, b) && a !in t.uses && t.buf[b].data == s.buf[b].data
      case _ => t == s
  {
    hide Inv, Sought, Renewed, Scanned, Put, Renewal, Got, Claimer, OnlyBuf, LastFree, Owned;
    var d, u := Dropped(s, a), s.uses[a];
    UseOf(s, a);
    DroppedOnly(s, a);
    DropKeepsInv(s, a);
    match u
    case Look(k) => SeekAgain(d, a, k, s);
    case Need(k) => RenewAgain(d, a, k, s);
    case Claim(k, b) => ScanAgain(s, a, k, b);
    case Flushed(k, b, e) => FlushedOn(s, a, k, b, e);
    case Wrote(k, b) => WroteOut(s, a, k, b);
    case _ => GivenBack(s, a);
  }

  lemma SeekAgain(d: State, a: nat, k: Key, s: State)
    requires Inv(s) && a in s.uses && s.uses[a] == Look(k) && d == Dropped(s, a)
    ensures Got(d, Sought(d, a, k), a, k)
  {
    DropKeepsInv(s, a);
    UseOf(s, a);
    SeekDoes(d, a, k);
  }

  lemma RenewAgain(d: State, a: nat, k: Key, s: State)
    requires Inv(s) && a in s.uses && s.uses[a] == Need(k) && d == Dropped(s, a)
    ensures Renewal(d, Renewed(d, a, k), a, k)
  {
    DropKeepsInv(s, a);
    RenewDoes(d, a, k);
  }

  lemma AllAhead(s: State, k: Key, b: nat)
    requires Hashed(s)
    ensures OthersAhead(s, k, b, 0)
  {
    hide Hashed;
    forall e: nat | e < |s.buf| && e != b && Same(s.buf[e], k)
      ensures OnRest(s, k, e, 0)
    {
      Chained(s, k, e);
    }
  }

  lemma GivenBack(s: State, a: nat)
    requires a in s.uses
    ensures Given(Dropped(s, a), a, s.uses[a]) == s
  {
    assert (s.uses - {a})[a := s.uses[a]] == s.uses;
  }

  lemma HashedDropped(s: State, a: nat)
    requires Inv(s)
    ensures Hashed(Dropped(s, a))
  {
    hide BufsOk, Listed, Unique, Durable, UsesOk, Apart, Minded;
  }

  lemma ScanAgain(s: State, a: nat, k: Key, b: nat)
    requires Inv(s) && a in s.uses && s.uses[a] == Claim(k, b)
    ensures Claimer(Dropped(s, a), Scanned(Dropped(s, a), a, k, b, 0), a, k, b)
  {
    hide Inv, Hashed, Scanned, Claimer, OthersAhead;
    UseOf(s, a);
    HashedDropped(s, a);
    AllAhead(Dropped(s, a), k, b);
    ScanDoes(Dropped(s, a), a, k, b, 0);
  }

  lemma FlushedOn(s: State, a: nat, k: Key, b: nat, e: nat)
    requires Inv(s) && a in s.uses && s.uses[a] == Flushed(k, b, e)
    ensures e < |s.buf|
    ensures
      var d := Dropped(s, a);
      e < |d.buf| && Claimer(d.(buf := d.buf[e := d.buf[e].(busy := false)]),
        Scanned(Put(d, e), a, k, b, 0), a, k, b)
  {
    hide Inv, Hashed, Scanned, Claimer, OthersAhead, Put;
    UseOf(s, a);
    var d := Dropped(s, a);
    HashedDropped(s, a);
    PutOn(d, e);
    HashedSame(d, Put(d, e));
    AllAhead(Put(d, e), k, b);
    ScanDoes(Put(d, e), a, k, b, 0);
    ClaimerSame(Put(d, e), d.(buf := d.buf[e := d.buf[e].(busy := false)]), Scanned(Put(d, e), a, k, b, 0), a, k, b, e);
  }

  lemma HashedSame(s: State, t: State)
    requires Hashed(s) && t.chain == s.chain && |t.buf| == |s.buf| && forall c :: 0 <= c < |s.buf| ==>
      t.buf[c].key == s.buf[c].key
    ensures Hashed(t)
  {
  }

  /** Who waits for a buffer that is not in use makes no difference. */
  lemma ClaimerSame(s: State, t: State, u: State, a: nat, k: Key, b: nat, e: nat)
    requires e < |s.buf| == |t.buf| && t.buf == s.buf[e := t.buf[e]] && !InUse(s, e) && !InUse(t, e)
      && t.buf[e].key == s.buf[e].key && Claimer(s, u, a, k, b)
    ensures Claimer(t, u, a, k, b)
  {
    assert NoneInUse(t, k, b) <==> NoneInUse(s, k, b) by {
      assert forall c: nat :: c < |s.buf| ==> (InUse(t, c) <==> InUse(s, c));
      assert forall c: nat :: c < |s.buf| && InUse(s, c) ==> t.buf[c] == s.buf[c];
    }
    forall c: nat | WaitsAt(s, u, a, k, b, c)
      ensures WaitsAt(t, u, a, k, b, c)
    {
    }
  }

  lemma WroteOut(s: State, a: nat, k: Key, b: nat)
    requires Inv(s) && a in s.uses && s.uses[a] == Wrote(k, b)
    ensures
      var t := Put(Dropped(s, a), b);
      OnlyBuf(s, t, b) && LastFree(s, t, b) && a !in t.uses && t.buf[b].data == s.buf[b].data
  {
    hide Inv, Put;
    UseOf(s, a);
    PutOn(Dropped(s, a), b);
  }
}
