/**
 What a process finds in the cache, and on the disk after bflush, in any run.
 */
module BufferRuns {
  import opened Seqs
  import opened BufferState
  import opened BufferSteps

  predicate Writes(op: Op) {
    op.Bwrite? || op.Bawrite? || op.Bdwrite?
  }

  lemma UseSpares(s: State, a: nat, op: Op)
    requires Inv(s) && a in s.uses && s.uses[a].Hold?
    ensures Spares(Dropped(s, a), Step(s, Does(a, op)), Owned(s.uses[a]))
    ensures Step(s, Does(a, op)).latest ==
      if Writes(op) && s.uses[a].k.Blk? then s.latest[s.uses[a].k := op.d] else s.latest
  {
    DropKeepsInv(s, a);
    HoldIs(s, a);
    hide Inv, InvWith, Step, Dropped, Used, Spares, Owned, UseOk;
    var t, k, b := Dropped(s, a), s.uses[a].k, s.uses[a].b;
    DroppedIs(s, a);
    DoesIs(s, a, op);
    if Writes(op) && k.Blk? {
      WriteSpares(t, a, op, k, b);
    } else {
      ReadSpares(t, a, op, k, b);
    }
  }

  lemma DroppedIs(s: State, a: nat)
    ensures Dropped(s, a).latest == s.latest && a !in Dropped(s, a).uses && Dropped(s, a).buf == s.buf
  {
  }

  lemma DoesIs(s: State, a: nat, op: Op)
    requires a in s.uses && s.uses[a].Hold?
    ensures Step(s, Does(a, op)) == Used(Dropped(s, a), a, op, s.uses[a].k, s.uses[a].b)
      && Owned(s.uses[a]) == {s.uses[a].b}
  {
    hide Used, Dropped;
  }

  lemma ReadSpares(s: State, a: nat, op: Op, k: Key, b: nat)
    requires b < |s.buf| && a !in s.uses && (!Writes(op) || k.NoDev?)
    ensures Spares(s, Used(s, a, op, k, b), {b}) && Used(s, a, op, k, b).latest == s.latest
  {
    hide Put, Fetched, Stored, Started;
    PutLeaves(s, b, {b});
    FetchedAll(s, b);
  }

  lemma WriteSpares(s: State, a: nat, op: Op, k: Key, b: nat)
    requires b < |s.buf| && a !in s.uses && Writes(op) && k.Blk? && s.buf[b].key == k
    ensures Spares(s, Used(s, a, op, k, b), {b}) && Used(s, a, op, k, b).latest == s.latest[k := op.d]
  {
    hide Put, Fetched, Stored, Started;
    StoredAll(s, b, op.d);
    StartedAll(Stored(s, b, op.d), b);
    PutLeaves(Stored(s, b, op.d), b, {b});
  }

  lemma FetchedAll(s: State, b: nat)
    requires b < |s.buf|
    ensures forall async :: var t := Fetched(s, b, async);
      t.latest == s.latest && t.uses == s.uses && |t.buf| == |s.buf| && t.buf == s.buf[b := t.buf[b]]
  {
  }

  lemma StoredAll(s: State, b: nat, d: Block)
    requires b < |s.buf|
    ensures var t := Stored(s, b, d);
      t.latest == s.latest[s.buf[b].key := d] && t.uses == s.uses && |t.buf| == |s.buf| && t.buf == s.buf[b := t.buf[b]]
  {
  }

  lemma StartedAll(s: State, b: nat)
    requires b < |s.buf|
    ensures forall async :: var t := Started(s, b, async);
      t.latest == s.latest && t.uses == s.uses && |t.buf| == |s.buf| && t.buf == s.buf[b := t.buf[b]]
  {
  }

  lemma DoneSpares(s: State, b: nat)
    requires Inv(s) && b in s.flight
    ensures Biodone(s, b).latest == s.latest && Spares(s, Biodone(s, b), {b})
  {
    hide Listed, Hashed, Unique, Durable, UsesOk, Apart, Minded, BufOk, Landed, Put, Biodone, Spares;
    FreeBuf(s, b);
    LandIs(s, b);
    var t := Landed(s, b);
    if s.buf[b].async {
      AsyncIs(s, b);
      PutLeaves(t, b, {b});
      LandSpares(s, t, Put(t, b), b);
    } else {
      SyncIs(s, b);
      LandSpares(s, s, Biodone(s, b), b);
    }
  }

  lemma LandSpares(s: State, t: State, u: State, b: nat)
    requires OneBuf(s, t, b) && t.uses == s.uses
    requires Spares(t, u, {b}) || (|u.buf| == |s.buf|
      && (forall c :: 0 <= c < |s.buf| && c != b ==> u.buf[c] == s.buf[c]) && u.uses.Keys == s.uses.Keys
      && forall a :: a in s.uses ==> u.uses[a] == Arisen(s.uses[a], b))
    ensures Spares(s, u, {b})
  {
  }

  /** Those who were there still are, each for the block it asked for; and so is `a`, for `k`. */
  ghost predicate Asks(s: State, t: State, a: nat, k: Key) {
    t.uses.Keys == s.uses.Keys + {a} && t.uses[a].k == k && forall c :: c in s.uses && c != a ==>
      t.uses[c].k == s.uses[c].k
  }

  lemma AsksMore(s: State, t: State, u: State, a: nat, k: Key)
    requires t.uses.Keys == s.uses.Keys && (forall c :: c in s.uses ==> t.uses[c].k == s.uses[c].k) && Asks(t, u, a, k)
    ensures Asks(s, u, a, k)
  {
  }

  lemma PutAsks(s: State, b: nat)
    ensures Put(s, b).chain == s.chain
    ensures Put(s, b).uses.Keys == s.uses.Keys && forall c :: c in s.uses ==> Put(s, b).uses[c].k == s.uses[c].k
  {
    var t := Put(s, b);
    assert t.uses == Roused(s.uses, b, At(s, b).wanted, s.short);
  }

  lemma TakenUses(s: State, b: nat)
    ensures Taken(s, b).uses == s.uses && Taken(s, b).chain == s.chain
    ensures Spoilt(s, b).uses == s.uses && Spoilt(s, b).chain == s.chain
  {
  }

  lemma DisplaceAsks(s: State, a: nat, k: Key, b: nat, e: nat)
    ensures Displaced(s, a, k, b, e).chain == s.chain
    ensures At(s, e).busy || At(s, e).delwri ==> Asks(s, Displaced(s, a, k, b, e), a, k)
    ensures !At(s, e).busy && !At(s, e).delwri ==>
      var t := Displaced(s, a, k, b, e);
      t.uses.Keys == s.uses.Keys && forall c :: c in s.uses ==> t.uses[c].k == s.uses[c].k
  {
    hide Put, Spoilt, Taken, Started;
    TakenUses(s, e);
    TakenUses(Taken(s, e), e);
    StartedIs(Taken(s, e), e);
    PutAsks(Spoilt(Taken(s, e), e), e);
  }

  lemma {:induction false} ScanAsks(s: State, a: nat, k: Key, b: nat, i: nat)
    ensures Asks(s, Scanned(s, a, k, b, i), a, k)
    decreases |ChainAt(s.chain, Home(k))| - i
  {
    hide Displaced;
    ScannedIs(s, a, k, b, i);
    var c := ChainAt(s.chain, Home(k));
    if i < |c| {
      if c[i] == b || !Same(At(s, c[i]), k) {
        ScanAsks(s, a, k, b, i + 1);
      } else {
        var t := Displaced(s, a, k, b, c[i]);
        DisplaceAsks(s, a, k, b, c[i]);
        if !At(s, c[i]).busy && !At(s, c[i]).delwri {
          ScanAsks(t, a, k, b, i + 1);
          AsksMore(s, t, Scanned(t, a, k, b, i + 1), a, k);
        }
      }
    }
  }

  lemma {:induction false} RenewAsks(s: State, a: nat, k: Key)
    ensures Asks(s, Renewed(s, a, k), a, k)
    decreases |s.lru| + |s.age|
  {
    hide Scanned, Renewed;
    RenewedIs(s, a, k);
    if s.age != [] || s.lru != [] {
      var b := Oldest(s);
      if At(s, b).delwri {
        Shorter(s, b);
        RenewAsks(Started(Taken(s, b), b, true), a, k);
      } else if k.Blk? {
        ScanAsks(Bound(Taken(s, b), b, k), a, k, b, 0);
      }
    }
  }

  lemma SeekAsks(s: State, a: nat, k: Key)
    ensures Asks(s, Sought(s, a, k), a, k)
  {
    hide Renewed;
    RenewAsks(s, a, k);
  }

  lemma {:induction false} FlushAsks(s: State, dev: int)
    ensures Flush(s, dev).uses == s.uses
    decreases |s.lru| + |s.age|
  {
    hide Flush, Taken, Started;
    FlushIs(s, dev);
    var c := s.lru + s.age;
    var j := Dirty(s, c, dev, 0);
    if j < |c| {
      Shorter(s, c[j]);
      StartedIs(Taken(s, c[j]), c[j]);
      TakenUses(s, c[j]);
      FlushAsks(Started(Taken(s, c[j]), c[j], true), dev);
    }
  }

  /** What a process asks for is what it is at until it ends, whatever happens. */
  lemma AsksForOne(s: State, e: Event, a: nat)
    ensures a in s.uses && a in Step(s, e).uses ==> Step(s, e).uses[a].k == s.uses[a].k
    ensures e.Getblk? && e.a == a && a !in s.uses ==>
      a in Step(s, e).uses && Step(s, e).uses[a].k == Blk(e.dev, Clip(e.blkno))
  {
    hide Sought, Renewed, Scanned, Put, Stored, Fetched, Started, Flush, Biodone;
    match e
    case Getblk(c, dev, blkno) => SeekAsks(s, c, Blk(dev, Clip(blkno)));
    case Geteblk(c) => RenewAsks(s, c, NoDev);
    case Go(c) =>
      if c in s.uses {
        GoneAsks(Dropped(s, c), c, s.uses[c]);
      }
    case Does(c, op) =>
      if c in s.uses && s.uses[c].Hold? {
        UsedAsks(Dropped(s, c), c, op, s.uses[c].k, s.uses[c].b);
      }
    case Iodone(b) => DoneAsks(s, b);
    case Bflush(dev) => FlushAsks(s, dev);
  }

  lemma GoneAsks(s: State, a: nat, u: Use)
    requires a !in s.uses
    ensures var t := Gone(s, a, u);
      && (a in t.uses ==> t.uses[a].k == u.k) && forall c :: c in s.uses ==> c in t.uses && t.uses[c].k == s.uses[c].k
  {
    hide Sought, Renewed, Scanned, Put;
    match u
    case Look(k) => SeekAsks(s, a, k);
    case Need(k) => RenewAsks(s, a, k);
    case Claim(k, b) => ScanAsks(s, a, k, b, 0);
    case Flushed(k, b, e) =>
      PutAsks(s, e);
      ScanAsks(Put(s, e), a, k, b, 0);
    case Wrote(k, b) => PutAsks(s, b);
    case _ =>
  }

  lemma UsedAsks(s: State, a: nat, op: Op, k: Key, b: nat)
    requires a !in s.uses
    ensures var t := Used(s, a, op, k, b);
      && (a in t.uses ==> t.uses[a].k == k) && forall c :: c in s.uses ==> c in t.uses && t.uses[c].k == s.uses[c].k
  {
    PutAsks(s, b);
    if Writes(op) {
      PutAsks(Stored(s, b, op.d), b);
    }
    hide Put;
  }

  lemma DoneAsks(s: State, b: nat)
    ensures Biodone(s, b).uses.Keys == s.uses.Keys && forall c :: c in s.uses ==> Biodone(s, b).uses[c].k == s.uses[c].k
  {
    PutAsks(Finished(s, b), b);
    hide Put;
  }

  predicate By(e: Event, a: nat) {
    e == Go(a) || (e.Does? && e.a == a)
  }

  /** What a process has of a buffer: who has it, and what is in it. */
  predicate Has(s: State, a: nat, k: Key, b: nat) {
    a in s.uses && s.uses[a] == Hold(k, b) && b < |s.buf|
  }

  lemma SpareHold(s: State, t: State, hand: set<nat>, a: nat, k: Key, b: nat)
    requires Spares(s, t, hand) && Has(s, a, k, b) && s.buf[b].busy && b !in hand
    ensures Has(t, a, k, b) && t.buf[b] == s.buf[b].(wanted := t.buf[b].wanted)
  {
  }

  lemma HoldIs(s: State, a: nat)
    requires Inv(s) && a in s.uses && s.uses[a].Hold?
    ensures var k, b := s.uses[a].k, s.uses[a].b;
      b < |s.buf| && s.buf[b].key == k && s.buf[b].busy && b !in s.flight && s.buf[b].inval == k.NoDev?
  {
    hide BufsOk, Listed, Hashed, Unique, Durable, Apart, Minded;
  }

  lemma OthersApart(s: State, a: nat, c: nat)
    requires Inv(s) && a in s.uses && c in s.uses && a != c
    ensures Owned(s.uses[a]) !! Owned(s.uses[c]) && a in Dropped(s, c).uses && Dropped(s, c).uses[a] == s.uses[a]
      && Dropped(s, c).buf == s.buf
  {
    hide BufsOk, Listed, Hashed, Unique, Durable, UsesOk, Minded, Owned;
  }

  /**
   A buffer that a process has is its alone: whatever others do, and the disk, it is as it was but for those who wait
   for it.
   */
  lemma HeldAlone(s: State, e: Event, a: nat)
    requires Inv(s) && a in s.uses && s.uses[a].Hold? && !By(e, a)
    ensures var k, b, t := s.uses[a].k, s.uses[a].b, Step(s, e);
      Has(t, a, k, b) && t.buf[b] == s.buf[b].(wanted := t.buf[b].wanted)
  {
    HoldIs(s, a);
    hide Inv, Sought, Renewed, Gone, Used, Biodone, Flush, Spares, Dropped;
    var k, b := s.uses[a].k, s.uses[a].b;
    match e
    case Getblk(c, dev, blkno) =>
      if c !in s.uses {
        SeekKeepsInv(s, c, Blk(dev, Clip(blkno)));
        SpareHold(s, Step(s, e), {}, a, k, b);
      }
    case Geteblk(c) =>
      if c !in s.uses {
        RenewKeepsInv(s, c, NoDev);
        SpareHold(s, Step(s, e), {}, a, k, b);
      }
    case Go(c) =>
      if c in s.uses {
        GoKeepsInv(s, c);
        OthersApart(s, a, c);
        SpareHold(Dropped(s, c), Step(s, e), Owned(s.uses[c]), a, k, b);
      }
    case Does(c, op) =>
      if c in s.uses && s.uses[c].Hold? {
        UseSpares(s, c, op);
        OthersApart(s, a, c);
        SpareHold(Dropped(s, c), Step(s, e), Owned(s.uses[c]), a, k, b);
      }
    case Iodone(c) =>
      if c in s.flight {
        DoneSpares(s, c);
        SpareHold(s, Step(s, e), {c}, a, k, b);
      }
    case Bflush(dev) =>
      FlushKeepsInv(s, dev);
      SpareHold(s, Step(s, e), {}, a, k, b);
  }

  /**
   What was last written to the blocks changes when a process that has one writes it, at once or later, and at no
   other time.
   */
  lemma LatestIs(s: State, e: Event)
    requires Inv(s)
    ensures Step(s, e).latest ==
      if e.Does? && Writes(e.op) && e.a in s.uses && s.uses[e.a].Hold?
        && s.uses[e.a].k.Blk? then s.latest[s.uses[e.a].k := e.op.d] else s.latest
  {
    hide Inv, Sought, Renewed, Gone, Used, Biodone, Flush, Spares, Dropped;
    match e
    case Getblk(c, dev, blkno) =>
      if c !in s.uses {
        SeekKeepsInv(s, c, Blk(dev, Clip(blkno)));
      }
    case Geteblk(c) =>
      if c !in s.uses {
        RenewKeepsInv(s, c, NoDev);
      }
    case Go(c) =>
      if c in s.uses {
        GoKeepsInv(s, c);
        DroppedIs(s, c);
      }
    case Does(c, op) =>
      if c in s.uses && s.uses[c].Hold? {
        UseSpares(s, c, op);
      }
    case Iodone(c) =>
      if c in s.flight {
        DoneSpares(s, c);
      }
    case Bflush(dev) =>
      FlushKeepsInv(s, dev);
  }

  /**
   Wherever the block has been in between, and whoever else used it: what a process has of a block, in any run, is
   what was last written to it.
   */
  lemma ReadsLatest(s: State, es: seq<Event>, a: nat)
    requires Inv(s)
    ensures var t := Run(s, es); a in t.uses && t.uses[a].Hold? && t.uses[a].k.Blk? ==>
      var b := t.uses[a].b;
        b < |t.buf| && t.buf[b].key == t.uses[a].k && (t.buf[b].done ==>
        t.buf[b].data == Content(t.latest, t.uses[a].k))
  {
    RunKeepsInv(s, es);
    var t := Run(s, es);
    hide Run;
    if a in t.uses && t.uses[a].Hold? {
      HoldIs(t, a);
      hide Listed, Hashed, Unique, Durable, UsesOk, Apart, Minded;
      FreeBuf(t, t.uses[a].b);
    }
  }

  /** bread: the process has the block, or it sleeps until the disk is done, and then has it. */
  lemma BreadBrings(s: State, a: nat)
    requires Inv(s) && a in s.uses && s.uses[a].Hold? && s.uses[a].k.Blk?
    ensures var k, b, t := s.uses[a].k, s.uses[a].b, Step(s, Does(a, Bread));
      && a in t.uses && b < |t.buf|
      && if s.buf[b].done then t.uses[a] == Hold(k, b) && t.buf[b] == s.buf[b]
          else t.uses[a] == Reading(k, b) && b in t.flight
  {
    HoldIs(s, a);
  }

  lemma DiskBrings(s: State, a: nat)
    requires Inv(s) && a in s.uses && s.uses[a].Reading?
    ensures var k, b, t := s.uses[a].k, s.uses[a].b, Step(s, Iodone(s.uses[a].b));
      && a in t.uses && t.uses[a] == Hold(k, b) && b < |t.buf| && t.buf[b].done && t.buf[b].data == Content(t.latest, k)
  {
    ReadingIs(s, a);
    hide Inv, Biodone, Landed;
    var b := s.uses[a].b;
    assert BufsOk(s) && Unique(s) && Durable(s) by {
      InvIs(s);
    }
    LandIs(s, b);
    LandBufs(s, b);
    SyncIs(s, b);
  }

  lemma InvIs(s: State)
    requires Inv(s)
    ensures BufsOk(s) && Listed(s) && Hashed(s) && Unique(s) && Durable(s) && UsesOk(s, {}) && Minded(s, {})
  {
  }

  lemma ReadingIs(s: State, a: nat)
    requires Inv(s) && a in s.uses && s.uses[a].Reading?
    ensures Flies(s, s.uses[a].k, s.uses[a].b, true)
  {
    hide BufsOk, Listed, Hashed, Unique, Durable, Apart, Minded;
  }

  /**
   bflush leaves no buffer of the device waiting on a list to be written; those that did are on their way, and no
   other is touched.
   */
  lemma {:induction false} FlushStartsAll(s: State, dev: int)
    requires Inv(s)
    ensures var t := Flush(s, dev);
      && |t.buf| == |s.buf| && t.uses == s.uses && t.latest == s.latest
      && (forall b :: (b in t.lru || b in t.age) && b < |t.buf| ==> !ToWrite(t.buf[b], dev))
      && forall b :: 0 <= b < |s.buf| ==> FlushedBuf(s, t, b, dev)
    decreases |s.lru| + |s.age|
  {
    hide InvWith, Taken, Started, Flush, FlushedBuf;
    var c := s.lru + s.age;
    var j := Dirty(s, c, dev, 0);
    FlushIs(s, dev);
    if j < |c| {
      var b := c[j];
      var t := Started(Taken(s, b), b, true);
      AllFree(s, {}, b);
      TakenIs(s, b);
      CleanKeepsInv(s, b, {});
      StartedIs(Taken(s, b), b);
      Shorter(s, b);
      FlushStartsAll(t, dev);
      StartedBuf(s, b);
      forall i | 0 <= i < |s.buf|
        ensures FlushedBuf(s, Flush(s, dev), i, dev)
      {
        FlushedMore(s, b, Flush(t, dev), i, dev);
      }
    } else {
      NoneFlushed(s, dev);
      forall b | b in s.lru || b in s.age
        ensures !ToWrite(At(s, b), dev)
      {
        assert b in c;
      }
    }
  }

  predicate ToWrite(x: Buf, dev: int) {
    x.delwri && Of(x.key, dev)
  }

  /** What bflush does to one buffer. */
  predicate FlushedBuf(s: State, t: State, b: nat, dev: int)
    requires b < |s.buf| == |t.buf|
  {
    if !s.buf[b].busy && ToWrite(s.buf[b], dev) then
      b in t.flight && t.buf[b] == s.buf[b].(busy := true, read := false, done := false, delwri := false, async := true)
    else t.buf[b] == s.buf[b] && (b in t.flight <==> b in s.flight)
  }

  lemma NoneFlushed(s: State, dev: int)
    requires Inv(s) && forall b :: b in s.lru + s.age ==> !ToWrite(At(s, b), dev)
    ensures forall b :: 0 <= b < |s.buf| ==> FlushedBuf(s, s, b, dev)
  {
    hide InvWith;
    forall b | 0 <= b < |s.buf|
      ensures FlushedBuf(s, s, b, dev)
    {
      if !s.buf[b].busy {
        FreeIs(s, b, {});
        assert b in s.lru + s.age;
      }
    }
  }

  lemma StartedBuf(s: State, b: nat)
    requires b < |s.buf|
    ensures var t := Started(Taken(s, b), b, true);
      && t.buf == s.buf[b := s.buf[b].(busy := true, read := false, done := false, delwri := false, async := true)]
      && t.flight == s.flight + {b} && t.latest == s.latest
  {
    hide Without;
  }

  lemma FlushedMore(s: State, b: nat, u: State, i: nat, dev: int)
    requires b < |s.buf| && i < |s.buf| == |u.buf| && !s.buf[b].busy && ToWrite(s.buf[b], dev)
      && FlushedBuf(Started(Taken(s, b), b, true), u, i, dev)
    ensures FlushedBuf(s, u, i, dev)
  {
    hide Taken, Started;
    StartedBuf(s, b);
  }

  lemma FlushIs(s: State, dev: int)
    ensures var c := s.lru + s.age; var j := Dirty(s, c, dev, 0);
      && Flush(s, dev) == (if j == |c| then s else Flush(Started(Taken(s, c[j]), c[j], true), dev))
      && (j == |c| ==> forall b :: b in c ==> !ToWrite(At(s, b), dev))
      && (j < |c| ==> ToWrite(At(s, c[j]), dev))
  {
    hide Taken, Started;
    var c := s.lru + s.age;
    var j := Dirty(s, c, dev, 0);
    if j == |c| {
      forall b | b in c
        ensures !ToWrite(At(s, b), dev)
      {
        var l: nat :| l < |c| && c[l] == b;
      }
    }
  }

  /** No buffer of the device waits to be written, and none is in use. */
  ghost predicate Quiet(s: State, dev: int) {
    s.uses == map[] && forall b :: 0 <= b < |s.buf| ==> !ToWrite(s.buf[b], dev)
  }

  lemma FlushQuiets(s: State, dev: int)
    requires Inv(s) && s.uses == map[]
    ensures Quiet(Flush(s, dev), dev)
  {
    hide Hashed, Unique, Durable, Apart, Flush;
    FlushStartsAll(s, dev);
    FlushKeepsInv(s, dev);
    var t := Flush(s, dev);
    forall b | 0 <= b < |t.buf|
      ensures !ToWrite(t.buf[b], dev)
    {
      FreeBuf(t, b);
      NobodyMinds(t);
    }
  }

  lemma NobodyMinds(s: State)
    requires Minded(s, {}) && s.uses == map[]
    ensures forall b :: 0 <= b < |s.buf| && s.buf[b].busy ==> s.buf[b].async
  {
  }

  lemma DoneQuiets(s: State, b: nat, dev: int)
    requires Inv(s) && b in s.flight && Quiet(s, dev)
    ensures Quiet(Biodone(s, b), dev)
  {
    hide Listed, Hashed, Unique, Durable, UsesOk, Apart, BufOk, Biodone, Landed, Put;
    FreeBuf(s, b);
    LandBufs(s, b);
    LandIs(s, b);
    Flying(s, b);
    NobodyMinds(s);
    AsyncIs(s, b);
    PutIs(Landed(s, b), b);
    assert Biodone(s, b).uses.Keys == {};
  }

  predicate Ends(es: seq<Event>) {
    forall i :: 0 <= i < |es| ==> es[i].Iodone?
  }

  lemma {:induction false} RunQuiet(s: State, dev: int, es: seq<Event>)
    requires Inv(s) && Quiet(s, dev) && Ends(es)
    ensures var t := Run(s, es); Inv(t) && Quiet(t, dev) && t.latest == s.latest
    decreases |es|
  {
    hide InvWith, Quiet, Step;
    if es != [] {
      StepKeepsInv(s, es[0]);
      LatestIs(s, es[0]);
      DoneStep(s, es[0]);
      if es[0].b in s.flight {
        DoneQuiets(s, es[0].b, dev);
      }
      RunQuiet(Step(s, es[0]), dev, es[1..]);
    }
  }

  lemma DoneStep(s: State, e: Event)
    requires e.Iodone?
    ensures Step(s, e) == if e.b in s.flight then Biodone(s, e.b) else s
  {
  }

  /**
   What bflush is for: with no process at a buffer, once the disk is done, what was last written to the device's
   blocks is on it.
   */
  lemma FlushedToDisk(s: State, dev: int, es: seq<Event>, k: Key)
    requires Inv(s) && s.uses == map[] && Ends(es) && Run(Flush(s, dev), es).flight == {} && Of(k, dev)
    ensures Content(Run(Flush(s, dev), es).disk, k) == Content(s.latest, k)
  {
    hide InvWith, Run, Flush;
    FlushQuiets(s, dev);
    FlushKeepsInv(s, dev);
    RunQuiet(Flush(s, dev), dev, es);
    var t := Run(Flush(s, dev), es);
    InvIs(t);
    forall b: nat
      ensures !Unwritten(t, b, k)
    {
      assert Unwritten(t, b, k) ==> ToWrite(t.buf[b], dev);
    }
  }

  /** Blocks that getblk takes for one: the same, or both beyond what fits. */
  lemma ClipIs(x: int, y: int)
    ensures Clip(x) == Clip(y) <==> x == y || (Far(x) && Far(y))
  {
  }

  predicate Far(x: int) {
    x < 0 || x >= TOP
  }

  /** A process on its way to a buffer of the block. */
  predicate Claiming(u: Use, k: Key, b: nat) {
    (u.Claim? || u.WaitClaim? || u.Flushing? || u.Flushed?) && u.k == k && u.b == b
  }

  lemma ClaimedUse(s: State, u: Use, b: nat)
    requires BufsOk(s) && UseOk(s, u) && b in Owned(u) && b < |s.buf| && !s.buf[b].sized && !s.buf[b].inval
    ensures Claiming(u, s.buf[b].key, b)
  {
  }

  /**
   Two buffers are of one block only while a process is at making one of them the block's, and waits for the other.
   */
  lemma OneOfABlock(s: State, b: nat, c: nat)
    requires Inv(s) && b < |s.buf| && c < |s.buf| && b != c && s.buf[b].key == s.buf[c].key && !s.buf[b].inval
      && !s.buf[c].inval
    ensures exists d, a :: d in {b, c} && a in s.uses && Claiming(s.uses[a], s.buf[b].key, d)
  {
    hide Listed, Hashed, Durable, UseOk, Apart;
    var d := if s.buf[b].sized then c else b;
    FreeBuf(s, d);
    assert !s.buf[d].sized by {
      assert !(Same(s.buf[b], s.buf[c].key) && Same(s.buf[c], s.buf[b].key));
    }
    var a: nat :| Owns(s, a, d);
    ClaimedUse(s, s.uses[a], d);
  }

  function Down(n: nat): (c: seq<nat>)
    ensures |c| == n && forall i :: 0 <= i < n ==> c[i] == n - 1 - i
  {
    if n == 0 then [] else [n - 1] + Down(n - 1)
  }

  /** What is set up when the system starts. */
  function Init(n: nat, disk: map<Key, Block>): State {
    State(seq(n, _ => NONE), [], Down(n), seq(BUFHSZ + 1, h => if h == BUFHSZ then Down(n) else []), false, {}, map[],
      disk, disk)
  }

  lemma InitInv(n: nat, disk: map<Key, Block>)
    ensures Inv(Init(n, disk))
  {
    assert forall b :: b in Down(n) <==> 0 <= b < n by {
      forall b | 0 <= b < n
        ensures b in Down(n)
      {
        assert Down(n)[n - 1 - b] == b;
      }
    }
  }

  /**
   What a process sleeps for is still to come: the buffer is another's or in flight, and the one who gives it up knows
   that it is waited for; or there is no free one.
   */
  predicate HasCause(s: State, u: Use) {
    match u
    case WaitBuf(_, e) => Sleeps(s, e)
    case WaitClaim(_, _, e) => Sleeps(s, e)
    case WaitFree(_) => s.short && forall b :: 0 <= b < |s.buf| ==> s.buf[b].busy
    case Reading(_, b) => b in s.flight
    case Writing(_, b) => b in s.flight
    case Flushing(_, _, e) => e in s.flight
    case _ => true
  }

  lemma NoWakeupLost(s: State, es: seq<Event>, a: nat)
    requires Inv(s)
    ensures var t := Run(s, es); a in t.uses ==> HasCause(t, t.uses[a])
  {
    RunKeepsInv(s, es);
    var t := Run(s, es);
    hide Run, BufsOk, Hashed, Unique, Durable, Apart, Minded;
  }
}
