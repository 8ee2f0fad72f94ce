/**
 When two buffers come to be of one block.
 */
module BufferTwins {
  import opened Seqs
  import opened BufferState
  import opened BufferSteps
  import opened BufferRuns

  /** A buffer is of a block. */
  predicate OfBlock(s: State, b: nat, k: Key) {
    b < |s.buf| && s.buf[b].key == k && !s.buf[b].inval
  }

  ghost predicate Twins(s: State, k: Key) {
    exists b, c :: b != c && OfBlock(s, b, k) && OfBlock(s, c, k)
  }

  /** A buffer that brealloc has to wait for. */
  predicate InUse(s: State, b: nat) {
    b < |s.buf| && (s.buf[b].busy || s.buf[b].delwri)
  }

  /** A buffer that getnewbuf takes. */
  predicate Spare(s: State, b: nat) {
    b < |s.buf| && !s.buf[b].busy && !s.buf[b].delwri
  }

  /** getnewbuf has a buffer to take for a block, and one of that block is in use. */
  ghost predicate Begets(s: State, k: Key) {
    k.Blk? && (exists b :: OfBlock(s, b, k) && InUse(s, b)) && exists b :: Spare(s, b)
  }

  /** No buffer comes to be of a block. */
  ghost predicate Narrows(s: State, t: State) {
    |t.buf| == |s.buf| && forall b :: 0 <= b < |s.buf| ==>
      t.buf[b].key == s.buf[b].key && (s.buf[b].inval ==> t.buf[b].inval)
  }

  lemma NarrowsMore(s: State, t: State, u: State)
    requires Narrows(s, t) && Narrows(t, u)
    ensures Narrows(s, u)
  {
  }

  lemma NoTwins(s: State, t: State, k: Key)
    requires Narrows(s, t) && !Twins(s, k)
    ensures !Twins(t, k)
  {
    forall b: nat, c: nat | b != c
      ensures !(OfBlock(t, b, k) && OfBlock(t, c, k))
    {
      assert OfBlock(t, b, k) ==> OfBlock(s, b, k);
      assert OfBlock(t, c, k) ==> OfBlock(s, c, k);
    }
  }

  /** What is done to one buffer. */
  lemma OneNarrows(s: State, b: nat)
    ensures Narrows(s, Taken(s, b)) && Narrows(s, Wanted(s, b)) && Narrows(s, Sized(s, b)) && Narrows(s, Spoilt(s, b))
    ensures forall async :: Narrows(s, Started(s, b, async)) && Narrows(s, Fetched(s, b, async))
    ensures forall d :: Narrows(s, Stored(s, b, d))
  {
    hide Without;
  }

  lemma PutNarrows(s: State, b: nat)
    ensures Narrows(s, Put(s, b))
  {
    hide Roused;
  }

  lemma DoneNarrows(s: State, b: nat)
    ensures Narrows(s, Biodone(s, b))
  {
    var t := Finished(s, b);
    PutNarrows(t, b);
    NarrowsMore(s, t, Put(t, b));
    hide Put, Content;
  }

  lemma DisplaceNarrows(s: State, a: nat, k: Key, b: nat, e: nat)
    ensures Narrows(s, Displaced(s, a, k, b, e))
    ensures forall c :: 0 <= c < |s.buf| && (c != e || InUse(s, c)) ==>
      Displaced(s, a, k, b, e).buf[c].inval == s.buf[c].inval
    ensures forall c :: 0 <= c < |s.buf| && c != e ==> Displaced(s, a, k, b, e).buf[c] == s.buf[c]
    ensures e < |s.buf| && !InUse(s, e) ==> Displaced(s, a, k, b, e).buf[e].inval
  {
    hide Displaced;
    DisplacedBuf(s, a, k, b, e);
  }

  lemma DisplacedBuf(s: State, a: nat, k: Key, b: nat, e: nat)
    ensures Displaced(s, a, k, b, e).buf == if e >= |s.buf| then s.buf else s.buf[e :=
      var x := s.buf[e];
      if x.busy then x.(wanted := true)
      else if x.delwri then x.(busy := true, read := false, done := false, delwri := false, async := false)
      else x.(inval := true, wanted := false, async := false)]
  {
    hide Put, Taken, Spoilt, Started, Wanted;
    TakenBuf(s, e);
    WantedBuf(s, e);
    SentBuf(Taken(s, e), e, false);
    SpoiltBuf(Taken(s, e), e);
    PutBuf(Spoilt(Taken(s, e), e), e);
  }

  lemma TakenBuf(s: State, b: nat)
    ensures Taken(s, b).buf == if b < |s.buf| then s.buf[b := s.buf[b].(busy := true)] else s.buf
  {
    hide Without;
  }

  lemma WantedBuf(s: State, b: nat)
    ensures Wanted(s, b).buf == if b < |s.buf| then s.buf[b := s.buf[b].(wanted := true)] else s.buf
  {
  }

  lemma SpoiltBuf(s: State, b: nat)
    ensures Spoilt(s, b).buf == if b < |s.buf| then s.buf[b := s.buf[b].(inval := true)] else s.buf
  {
  }

  lemma SentBuf(s: State, b: nat, async: bool)
    ensures Started(s, b, async).buf == if b < |s.buf|
      then s.buf[b := s.buf[b].(read := false, done := false, delwri := false, async := async)] else s.buf
  {
  }

  lemma PutBuf(s: State, b: nat)
    ensures Put(s, b).buf == if b < |s.buf|
      then s.buf[b := s.buf[b].(wanted := false, busy := false, async := false)] else s.buf
  {
  }

  /** A buffer in use stays one of its block, and no other comes to be. */
  lemma {:induction false} ScanNarrows(s: State, a: nat, k: Key, b: nat, i: nat)
    ensures Narrows(s, Scanned(s, a, k, b, i))
    ensures forall c :: 0 <= c < |s.buf| && InUse(s, c) ==> Scanned(s, a, k, b, i).buf[c].inval == s.buf[c].inval
    decreases |ChainAt(s.chain, Home(k))| - i
  {
    hide Displaced, Sized;
    ScannedIs(s, a, k, b, i);
    var c := ChainAt(s.chain, Home(k));
    if i >= |c| {
      OneNarrows(s, b);
      SizedInval(s, b);
    } else if c[i] == b || !Same(At(s, c[i]), k) {
      ScanNarrows(s, a, k, b, i + 1);
    } else {
      var t := Displaced(s, a, k, b, c[i]);
      DisplaceAsks(s, a, k, b, c[i]);
      DisplaceNarrows(s, a, k, b, c[i]);
      if !At(s, c[i]).busy && !At(s, c[i]).delwri {
        ScanNarrows(t, a, k, b, i + 1);
        NarrowsMore(s, t, Scanned(t, a, k, b, i + 1));
      }
    }
  }

  lemma SizedInval(s: State, b: nat)
    ensures forall c :: 0 <= c < |s.buf| ==> Sized(s, b).buf[c].inval == s.buf[c].inval
  {
  }

  /** What is left of the chain has every other buffer of the block, and brealloc has to wait for none. */
  ghost predicate Clear(s: State, k: Key, b: nat, i: nat) {
    forall c: nat :: c != b && OfBlock(s, c, k) ==> !InUse(s, c) && s.buf[c].sized && OnRest(s, k, c, i)
  }

  ghost predicate OnRest(s: State, k: Key, c: nat, i: nat) {
    exists j :: i <= j < |ChainAt(s.chain, Home(k))| && ChainAt(s.chain, Home(k))[j] == c
  }

  /** Then they are all made invalid. */
  lemma {:induction false} ScanClears(s: State, a: nat, k: Key, b: nat, i: nat)
    requires Clear(s, k, b, i)
    ensures forall c: nat :: c != b ==> !OfBlock(Scanned(s, a, k, b, i), c, k)
    decreases |ChainAt(s.chain, Home(k))| - i
  {
    hide Displaced, Sized;
    ScannedIs(s, a, k, b, i);
    var c := ChainAt(s.chain, Home(k));
    if i >= |c| {
      OneNarrows(s, b);
      SizedInval(s, b);
    } else if c[i] == b || !Same(At(s, c[i]), k) {
      ScanClears(s, a, k, b, i + 1);
    } else {
      var t := Displaced(s, a, k, b, c[i]);
      assert OfBlock(s, c[i], k);
      DisplaceAsks(s, a, k, b, c[i]);
      DisplaceNarrows(s, a, k, b, c[i]);
      assert forall d: nat :: d != b && OfBlock(t, d, k) ==> OfBlock(s, d, k) && d != c[i];
      ScanClears(t, a, k, b, i + 1);
    }
  }

  /** Those of a block are all on its chain. */
  lemma Chained(s: State, k: Key, c: nat)
    requires Hashed(s) && OfBlock(s, c, k)
    ensures OnRest(s, k, c, 0)
  {
    assert c in s.chain[Home(k)];
    var j :| 0 <= j < |s.chain[Home(k)]| && s.chain[Home(k)][j] == c;
    assert ChainAt(s.chain, Home(k))[j] == c;
  }

  /** A buffer is taken for a block: there are two of it exactly if one was in use. */
  lemma ClaimTwins(s: State, a: nat, k: Key, b: nat, j: Key)
    requires InvWith(s, {b}) && b < |s.buf|
      && s.buf[b] == Buf(k, false, true, false, false, false, k.NoDev?, false, false, s.buf[b].data)
    requires forall c: nat, d: nat :: c != b && d != b && OfBlock(s, c, j) && OfBlock(s, d, j) ==> c == d
    ensures Twins(Claimed(s, a, k, b), j) <==> k == j && k.Blk? && exists c :: c != b && OfBlock(s, c, k) && InUse(s, c)
  {
    hide Scanned, Listed, Unique, Durable, UsesOk, Apart, Minded, HandOk, Sized, Hashed;
    var t := Claimed(s, a, k, b);
    OneNarrows(s, b);
    SizedInval(s, b);
    ScanNarrows(s, a, k, b, 0);
    if k == j && k.Blk? {
      assert OfBlock(t, b, k);
      if c: nat :| c != b && OfBlock(s, c, k) && InUse(s, c) {
        assert OfBlock(t, c, k);
      } else {
        forall c: nat | c != b && OfBlock(s, c, k)
          ensures !InUse(s, c) && s.buf[c].sized && OnRest(s, k, c, 0)
        {
          FreeBuf(s, c);
          Chained(s, k, c);
        }
        ScanClears(s, a, k, b, 0);
      }
    } else {
      assert !OfBlock(t, b, j);
      assert forall c: nat :: OfBlock(t, c, j) ==> OfBlock(s, c, j) && c != b;
    }
  }

  /** getnewbuf, and what getblk does after. */
  lemma {:induction false} RenewTwins(s: State, a: nat, k: Key, j: Key)
    requires Inv(s) && a !in s.uses && !Twins(s, j)
    ensures Twins(Renewed(s, a, k), j) <==> k == j && Begets(s, j)
    decreases |s.lru| + |s.age|
  {
    hide InvWith, Taken, Started, Bound, Scanned, Sized, Claimed, Renewed;
    RenewedIs(s, a, k);
    if s.age == [] && s.lru == [] {
      NoneSpare(s);
      NoTwins(s, Renewed(s, a, k), j);
    } else {
      var b := Oldest(s);
      AllFree(s, {}, b);
      TakenIs(s, b);
      if s.buf[b].delwri {
        var t := Started(Taken(s, b), b, true);
        CleanKeepsInv(s, b, {});
        StartedIs(Taken(s, b), b);
        Shorter(s, b);
        StartedSame(s, b);
        NoTwins(s, t, j);
        RenewTwins(t, a, k, j);
        BegetsSame(s, t, j);
      } else {
        TakeKeepsInv(s, b, {});
        assert {} + {b} == {b};
        BindKeepsInv(Taken(s, b), b, k, {b});
        BoundIs(Taken(s, b), b, k);
        var t := Bound(Taken(s, b), b, k);
        forall c: nat, d: nat | c != b && d != b && OfBlock(t, c, j) && OfBlock(t, d, j)
          ensures c == d
        {
          assert OfBlock(s, c, j) && OfBlock(s, d, j);
        }
        ClaimTwins(t, a, k, b, j);
        assert Spare(s, b);
        assert forall c: nat :: c != b ==> (OfBlock(t, c, k) <==> OfBlock(s, c, k)) && (InUse(t, c) <==> InUse(s, c));
      }
    }
  }

  lemma NoneSpare(s: State)
    requires Inv(s) && s.age == [] && s.lru == []
    ensures forall b :: !Spare(s, b)
  {
    hide BufsOk, Hashed, Unique, Durable, UsesOk, Apart, Minded, HandOk;
    forall b: nat | b < |s.buf|
      ensures s.buf[b].busy
    {
      assert !(b in s.lru || b in s.age);
    }
  }

  /** States alike in which buffers are of a block, in use, or spare. */
  ghost predicate Alike(s: State, t: State) {
    && (forall c: nat, k: Key :: OfBlock(s, c, k) <==> OfBlock(t, c, k))
    && (forall c: nat :: InUse(s, c) <==> InUse(t, c))
    && (forall c: nat :: Spare(s, c) <==> Spare(t, c))
  }

  /** A free buffer is written: it was in use before, and is in another way. */
  lemma StartedSame(s: State, b: nat)
    requires b < |s.buf| && s.buf[b].delwri && !s.buf[b].busy
    ensures var t := Started(Taken(s, b), b, true);
      Narrows(s, t) && Alike(s, t)
  {
    hide Taken, Started;
    TakenBuf(s, b);
    SentBuf(Taken(s, b), b, true);
  }

  lemma BegetsSame(s: State, t: State, k: Key)
    requires Alike(s, t)
    ensures (Twins(s, k) <==> Twins(t, k)) && (Begets(s, k) <==> Begets(t, k))
  {
  }

  /** getblk, when it has searched the chain of the block. */
  lemma SeekTwins(s: State, a: nat, k: Key, j: Key)
    requires Inv(s) && a !in s.uses && k.Blk? && !Twins(s, j)
    ensures !Twins(Sought(s, a, k), j)
  {
    hide InvWith, Renewed, Taken, Wanted;
    var c := ChainAt(s.chain, Home(k));
    var i := Find(s, c, k, 0);
    if i == |c| {
      RenewTwins(s, a, k, j);
      HashedOf(s, {});
      forall b: nat
        ensures !OfBlock(s, b, k)
      {
        if OfBlock(s, b, k) {
          Chained(s, k, b);
        }
      }
    } else {
      OneNarrows(s, c[i]);
      NoTwins(s, Sought(s, a, k), j);
    }
  }

  lemma {:induction false} FlushNarrows(s: State, dev: int)
    ensures Narrows(s, Flush(s, dev))
    decreases |s.lru| + |s.age|
  {
    hide Flush, Taken, Started;
    FlushIs(s, dev);
    var c := s.lru + s.age;
    var j := Dirty(s, c, dev, 0);
    if j < |c| {
      var b := c[j];
      var t := Taken(s, b);
      Shorter(s, b);
      StartedIs(t, b);
      OneNarrows(s, b);
      OneNarrows(t, b);
      FlushNarrows(Started(t, b, true), dev);
      NarrowsMore(s, t, Started(t, b, true));
      NarrowsMore(s, Started(t, b, true), Flush(s, dev));
    }
  }

  lemma UseNarrows(s: State, a: nat, op: Op, k: Key, b: nat)
    ensures Narrows(s, Used(s, a, op, k, b))
  {
    hide Put, Fetched, Stored, Started;
    OneNarrows(s, b);
    PutNarrows(s, b);
    if Writes(op) {
      OneNarrows(Stored(s, b, op.d), b);
      PutNarrows(Stored(s, b, op.d), b);
      NarrowsMore(s, Stored(s, b, op.d), Put(Stored(s, b, op.d), b));
      NarrowsMore(s, Stored(s, b, op.d), Started(Stored(s, b, op.d), b, op.Bawrite?));
    }
  }

  /** A process that slept until there was a free buffer goes on, without a second search of the chain. */
  ghost predicate GoesBlind(s: State, e: Event, k: Key) {
    e.Go? && e.a in s.uses && s.uses[e.a] == Need(k) && Begets(s, k)
  }

  lemma DropSame(s: State, a: nat, k: Key)
    ensures var t := Dropped(s, a); Narrows(s, t) && (Twins(t, k) <==> Twins(s, k)) && (Begets(t, k) <==> Begets(s, k))
  {
    BegetsSame(s, Dropped(s, a), k);
  }

  lemma GoTwins(s: State, a: nat, k: Key)
    requires Inv(s) && a in s.uses && !Twins(s, k)
    ensures Twins(Step(s, Go(a)), k) <==> GoesBlind(s, Go(a), k)
  {
    hide InvWith, Sought, Renewed, Scanned, Put, Narrows, Twins, Begets, Dropped;
    var t, u := Dropped(s, a), s.uses[a];
    DropKeepsInv(s, a);
    DropSame(s, a, k);
    DroppedIs(s, a);
    match u
    case Look(j) =>
      LookIs(s, a);
      SeekTwins(t, a, j, k);
    case Need(j) => NeedTwins(s, a, k);
    case _ =>
      OtherNarrows(t, a, u);
      NoTwins(t, Gone(t, a, u), k);
  }

  lemma LookIs(s: State, a: nat)
    requires Inv(s) && a in s.uses && s.uses[a].Look?
    ensures s.uses[a].k.Blk?
  {
    hide BufsOk, Listed, Hashed, Unique, Durable, Apart, Minded, HandOk;
  }

  lemma NeedTwins(s: State, a: nat, k: Key)
    requires Inv(s) && a in s.uses && !Twins(s, k) && s.uses[a].Need?
    ensures Twins(Step(s, Go(a)), k) <==> GoesBlind(s, Go(a), k)
  {
    hide InvWith, Renewed, Narrows, Twins, Begets, Dropped, Owned;
    var t, j := Dropped(s, a), s.uses[a].k;
    DropKeepsInv(s, a);
    DropSame(s, a, k);
    DroppedIs(s, a);
    assert Owned(Need(j)) == {} by { NeedOwns(j); }
    RenewTwins(t, a, j, k);
  }

  lemma NeedOwns(k: Key)
    ensures Owned(Need(k)) == {}
  {
  }

  lemma OtherNarrows(s: State, a: nat, u: Use)
    requires !u.Look? && !u.Need?
    ensures Narrows(s, Gone(s, a, u))
  {
    hide Scanned, Put;
    match u
    case Claim(k, b) => ScanNarrows(s, a, k, b, 0);
    case Flushed(k, b, e) =>
      PutNarrows(s, e);
      ScanNarrows(Put(s, e), a, k, b, 0);
      NarrowsMore(s, Put(s, e), Scanned(Put(s, e), a, k, b, 0));
    case Wrote(k, b) => PutNarrows(s, b);
    case _ =>
  }

  /**
   The one step that leaves two buffers of a block: a process that slept for a free buffer, for that block, goes on
   while there is a free buffer that need not be written first, and somebody has a buffer of the block, or it waits to
   be written.
   */
  lemma TwinsStep(s: State, e: Event, k: Key)
    requires Inv(s) && !Twins(s, k)
    ensures Twins(Step(s, e), k) <==> GoesBlind(s, e, k)
  {
    hide InvWith, Inv, Sought, Renewed, Gone, Used, Biodone, Flush, Twins, Narrows, Begets, Dropped;
    match e
    case Getblk(a, dev, blkno) =>
      if a !in s.uses {
        SeekTwins(s, a, Blk(dev, Clip(blkno)), k);
      }
    case Geteblk(a) =>
      if a !in s.uses {
        RenewTwins(s, a, NoDev, k);
        NoneOfNoDev(s);
      }
    case Go(a) =>
      if a in s.uses {
        GoTwins(s, a, k);
      }
    case Does(a, op) =>
      if a in s.uses && s.uses[a].Hold? {
        DropSame(s, a, k);
        UseNarrows(Dropped(s, a), a, op, s.uses[a].k, s.uses[a].b);
        NoTwins(Dropped(s, a), Step(s, e), k);
      }
    case Iodone(b) =>
      DoneNarrows(s, b);
      if b in s.flight {
        NoTwins(s, Biodone(s, b), k);
      }
    case Bflush(dev) =>
      FlushNarrows(s, dev);
      NoTwins(s, Flush(s, dev), k);
  }

  lemma NoneOfNoDev(s: State)
    ensures !Begets(s, NoDev)
  {
  }

  /** At no point of a run are there two buffers of a block. */
  ghost predicate AlwaysOne(s: State, es: seq<Event>, k: Key)
    decreases |es|
  {
    !Twins(s, k) && (es != [] ==> AlwaysOne(Step(s, es[0]), es[1..], k))
  }

  /** No step of a run is the one above. */
  ghost predicate NeverBlind(s: State, es: seq<Event>, k: Key)
    decreases |es|
  {
    es != [] ==> !GoesBlind(s, es[0], k) && NeverBlind(Step(s, es[0]), es[1..], k)
  }

  lemma {:induction false} AlwaysOneExactly(s: State, es: seq<Event>, k: Key)
    requires Inv(s) && !Twins(s, k)
    ensures AlwaysOne(s, es, k) <==> NeverBlind(s, es, k)
    decreases |es|
  {
    hide Inv, Step, Twins, GoesBlind;
    if es != [] {
      TwinsStep(s, es[0], k);
      StepKeepsInv(s, es[0]);
      if !Twins(Step(s, es[0]), k) {
        AlwaysOneExactly(Step(s, es[0]), es[1..], k);
      }
    }
  }
}
