/**
 The buffer cache as the source keeps it; every method does what its step does.
 */
module BufferCache {
  import opened BufferState
  import opened BufferSteps
  import opened BufferRuns

  lemma FinishedIs(s: State, b: nat)
    requires b < |s.buf|
    ensures var t := Finished(s, b); |t.buf| == |s.buf| && t.buf[b].async == s.buf[b].async
  {
  }

  lemma InFlight(s: State, b: nat)
    requires Inv(s) && b in s.flight
    ensures b < |s.buf|
  {
  }

  /** Those who cannot go on before another, or the disk, wakes them. */
  predicate Asleep(u: Use) {
    u.WaitBuf? || u.WaitFree? || u.WaitClaim? || u.Flushing? || u.Reading? || u.Writing?
  }

  lemma GoIs(s: State, a: nat)
    requires a in s.uses
    ensures Step(s, Go(a)) == Gone(Dropped(s, a), a, s.uses[a])
  {
    hide Gone, Dropped;
  }

  lemma ClaimIs(s: State, k: Key, b: nat)
    requires Claims(s, k, b)
    ensures b < |s.buf| && Sized(s, b) == s.(buf := s.buf[b := s.buf[b].(sized := true, done := false)])
  {
  }

  lemma DisplaceKeeps(s: State, a: nat, k: Key, b: nat, e: nat)
    requires InvWith(s, {b}) && a !in s.uses && Claims(s, k, b) && e < |s.buf| && e != b && !s.buf[e].busy
      && !s.buf[e].delwri
    ensures var t := Displaced(s, a, k, b, e);
      InvWith(t, {b}) && a !in t.uses && Claims(t, k, b) && t.chain == s.chain
  {
    hide InvWith, Put, Spoilt, Taken;
    InvalidateKeepsInv(s, e, {b});
    InvalidatedIs(s, e);
  }

  lemma Chained(s: State, hand: set<nat>)
    requires InvWith(s, hand)
    ensures |s.chain| == BUFHSZ + 1
  {
  }

  /**
   The cache as it is kept: the array of buffers, the heads of the lists and of the chains, and what the processes are
   at.
   */
  class Cache {
    const buf: array<Buf>
    const hash: array<seq<nat>>   // bufhash; its last, the chain of the buffers of no device
    var lru: seq<nat>             // bfreelist[BQ_LRU]
    var age: seq<nat>             // bfreelist[BQ_AGE]
    var short: bool               // someone waits for a free buffer
    var flight: set<nat>          // what the disks are at
    var uses: map<nat, Use>
    var disk: map<Key, Block>
    ghost var latest: map<Key, Block>

    ghost function St(): State
      reads this, buf, hash
    {
      State(buf[..], lru, age, hash[..], short, flight, uses, disk, latest)
    }

    ghost predicate Valid()
      reads this, buf, hash
    {
      Inv(St())
    }

    /** The buffers of the system, as they are set up when it starts. */
    constructor (n: nat, disk: map<Key, Block>)
      ensures Valid() && St() == Init(n, disk) && fresh(buf) && fresh(hash)
    {
      buf := new Buf[n](_ => NONE);
      hash := new seq<nat>[BUFHSZ + 1](_ => []);
      lru, age, short, flight, uses := [], [], false, {}, map[];
      this.disk, latest := disk, disk;
      new;
      var i := 0;
      while i < n
        invariant i <= n && hash[BUFHSZ] == age == Down(i) && hash.Length == BUFHSZ + 1
        invariant forall h :: 0 <= h < BUFHSZ ==> hash[h] == []
        invariant forall b :: 0 <= b < n ==> buf[b] == NONE
        modifies hash, this`age
      {
        hash[BUFHSZ] := [i] + hash[BUFHSZ];
        age := [i] + age;
        i := i + 1;
      }
      InitInv(n, disk);
      assert buf[..] == Init(n, disk).buf;
      assert hash[..] == Init(n, disk).chain;
    }

    /** notavail. */
    method Notavail(b: nat)
      requires b < buf.Length
      modifies this`lru, this`age, buf
      ensures St() == Taken(old(St()), b)
    {
      lru, age := Without(lru, b), Without(age, b);
      buf[b] := buf[b].(busy := true);
    }

    /** Those who sleep on a buffer, or for any, are woken. */
    method Wakeup(b: nat, some: bool, free: bool)
      modifies this`uses
      ensures uses == Roused(old(uses), b, some, free)
    {
      uses := Roused(uses, b, some, free);
    }

    method Brelse(b: nat)
      requires b < buf.Length
      modifies this`uses, this`short, this`lru, this`age, buf
      ensures St() == Put(old(St()), b)
    {
      Wakeup(b, buf[b].wanted, short);
      short := false;
      if buf[b].inval {
        age := [b] + age;
      } else {
        lru := lru + [b];
      }
      buf[b] := buf[b].(wanted := false, busy := false, async := false);
    }

    /** bwrite, up to where it waits. */
    method Start(b: nat, async: bool)
      requires b < buf.Length
      modifies this`flight, buf
      ensures St() == Started(old(St()), b, async)
    {
      buf[b] := buf[b].(read := false, done := false, delwri := false, async := async);
      flight := flight + {b};
    }

    /** bread, up to where it waits. */
    method Fetch(b: nat, async: bool)
      requires b < buf.Length
      modifies this`flight, buf
      ensures St() == Fetched(old(St()), b, async)
    {
      buf[b] := buf[b].(read := true, async := async);
      flight := flight + {b};
    }

    /** bfree, bremhash, binshash and the rest: the buffer is the block's. */
    method Bind(b: nat, k: Key)
      requires b < buf.Length && hash.Length == BUFHSZ + 1
      modifies buf, hash
      ensures St() == Bound(old(St()), b, k)
    {
      var h := Home(buf[b].key);
      hash[h] := Without(hash[h], b);
      hash[Home(k)] := [b] + hash[Home(k)];
      buf[b] := Buf(k, false, true, false, false, false, k.NoDev?, false, false, buf[b].data);
      assert hash[..] == Bound(old(St()), b, k).chain;
    }

    /**
     brealloc, at another buffer of the block: the process waits for it, or for the disk to be done with it, or it is
     made invalid.
     */
    method Displace(a: nat, k: Key, b: nat, e: nat) returns (slept: bool)
      requires e < buf.Length
      modifies this, buf
      ensures slept <==> old(buf[e].busy || buf[e].delwri)
      ensures St() == Displaced(old(St()), a, k, b, e)
    {
      if buf[e].busy {
        buf[e] := buf[e].(wanted := true);
        uses := uses[a := WaitClaim(k, b, e)];
        return true;
      }
      hide Taken, Put, Started;
      ghost var s := St();
      TakenIs(s, e);
      Notavail(e);
      if buf[e].delwri {
        Start(e, false);
        uses := uses[a := Flushing(k, b, e)];
        return true;
      }
      buf[e] := buf[e].(inval := true);
      assert St() == Spoilt(Taken(s, e), e);
      Brelse(e);
      return false;
    }

    /** brealloc, from its search on. */
    method Brealloc(a: nat, k: Key, b: nat)
      requires InvWith(St(), {b}) && a !in uses && Claims(St(), k, b)
      modifies this, buf
      ensures St() == Scanned(old(St()), a, k, b, 0) && Valid()
    {
      hide InvWith, Scanned, Sized, Displaced, Claims;
      ghost var s := St();
      Chained(s, {b});
      ScanKeepsInv(s, a, k, b, 0);
      var i := 0;
      while i < |hash[Home(k)]|
        invariant InvWith(St(), {b}) && a !in uses && Claims(St(), k, b)
        invariant hash.Length == BUFHSZ + 1 && i <= |hash[Home(k)]|
        invariant Scanned(s, a, k, b, 0) == Scanned(St(), a, k, b, i)
        decreases |hash[Home(k)]| - i
        modifies this, buf
      {
        var e := hash[Home(k)][i];
        ghost var t := St();
        OnChain(t, {b}, k, i);
        ScannedIs(t, a, k, b, i);
        if e != b && buf[e].key == k && !buf[e].inval && buf[e].sized {
          if !buf[e].busy && !buf[e].delwri {
            DisplaceKeeps(t, a, k, b, e);
          }
          var slept := Displace(a, k, b, e);
          if slept {
            return;
          }
        }
        i := i + 1;
      }
      ScannedIs(St(), a, k, b, i);
      ClaimIs(St(), k, b);
      buf[b] := buf[b].(sized := true, done := false);
      uses := uses[a := Hold(k, b)];
    }

    /** getnewbuf, and what getblk and geteblk do after. */
    method Getnewbuf(a: nat, k: Key)
      requires Valid() && a !in uses
      modifies this, buf, hash
      ensures St() == Renewed(old(St()), a, k) && Valid()
    {
      hide InvWith, Renewed, Claimed, Taken, Started, Bound, Sized;
      ghost var s := St();
      RenewKeepsInv(s, a, k);
      while true
        invariant Inv(St()) && a !in uses && Renewed(s, a, k) == Renewed(St(), a, k)
        decreases |lru| + |age|
        modifies this, buf, hash
      {
        ghost var t := St();
        RenewedIs(t, a, k);
        if age == [] && lru == [] {
          short := true;
          uses := uses[a := WaitFree(k)];
          return;
        }
        var b := if age != [] then age[0] else lru[0];
        AllFree(t, {}, b);
        TakenIs(t, b);
        Shorter(t, b);
        Notavail(b);
        if !buf[b].delwri {
          TakeKeepsInv(t, b, {});
          assert {} + {b} == {b};
          Claim(a, k, b);
          return;
        }
        CleanKeepsInv(t, b, {});
        StartedIs(Taken(t, b), b);
        Start(b, true);
      }
    }

    /** The buffer that was found is made the block's. */
    method Claim(a: nat, k: Key, b: nat)
      requires b < buf.Length && !buf[b].delwri && !buf[b].wanted && InHand(St(), b, {b}) && a !in uses
      modifies this, buf, hash
      ensures St() == Claimed(Bound(old(St()), b, k), a, k, b)
      ensures Valid()
    {
      hide InvWith, Scanned, Sized, Bound;
      ghost var s := St();
      Chained(s, {b});
      BindKeepsInv(s, b, k, {b});
      BoundIs(s, b, k);
      ClaimKeepsInv(Bound(s, b, k), a, k, b);
      Bind(b, k);
      if k.NoDev? {
        SizedIs(St(), b);
        buf[b] := buf[b].(sized := true, done := false);
        uses := uses[a := Hold(k, b)];
      } else {
        Brealloc(a, k, b);
      }
    }

    /** The search of getblk, for a buffer of the block. */
    method Lookup(k: Key) returns (j: nat)
      requires Valid()
      ensures hash.Length == BUFHSZ + 1 && j == Find(St(), hash[Home(k)], k, 0)
    {
      hide InvWith;
      Chained(St(), {});
      j := 0;
      while j < |hash[Home(k)]|
        invariant j <= |hash[Home(k)]| && Find(St(), hash[Home(k)], k, 0) == Find(St(), hash[Home(k)], k, j)
      {
        OnChain(St(), {}, k, j);
        var b := hash[Home(k)][j];
        if buf[b].key == k && !buf[b].inval {
          return;
        }
        j := j + 1;
      }
    }

    /** getblk, from its search on. */
    method Search(a: nat, k: Key)
      requires Valid() && a !in uses && k.Blk?
      modifies this, buf, hash
      ensures St() == Sought(old(St()), a, k) && Valid()
    {
      hide InvWith, Renewed, Taken, Find;
      ghost var s := St();
      SeekKeepsInv(s, a, k);
      var j := Lookup(k);
      if j == |hash[Home(k)]| {
        Getnewbuf(a, k);
      } else {
        var b := hash[Home(k)][j];
        OnChain(s, {}, k, j);
        if buf[b].busy {
          buf[b] := buf[b].(wanted := true);
          uses := uses[a := WaitBuf(k, b)];
        } else {
          TakenIs(s, b);
          Notavail(b);
          uses := uses[a := Hold(k, b)];
        }
      }
    }

    method Getblk(a: nat, dev: int, blkno: int)
      requires Valid() && a !in uses
      modifies this, buf, hash
      ensures Valid() && St() == Step(old(St()), Event.Getblk(a, dev, blkno))
    {
      hide Inv, Sought;
      var n := blkno;
      if n < 0 || n >= TOP {
        n := 2 * TOP;
      }
      Search(a, Blk(dev, n));
    }

    method Geteblk(a: nat)
      requires Valid() && a !in uses
      modifies this, buf, hash
      ensures Valid() && St() == Step(old(St()), Event.Geteblk(a))
    {
      hide Inv, Renewed;
      Getnewbuf(a, NoDev);
    }

    /** A process that was woken goes on from where it slept. */
    method Resume(a: nat)
      requires Valid() && a in uses && !Asleep(uses[a]) && !uses[a].Hold?
      modifies this, buf, hash
      ensures Valid() && St() == Step(old(St()), Go(a))
    {
      hide InvWith, Sought, Renewed, Scanned, Put, Step;
      ghost var s := St();
      GoKeepsInv(s, a);
      DropKeepsInv(s, a);
      GoIs(s, a);
      var u := uses[a];
      uses := uses - {a};
      ghost var t := St();
      assert t == Dropped(s, a);
      match u {
        case Look(k) => Search(a, k);
        case Need(k) => Getnewbuf(a, k);
        case Claim(k, b) => Brealloc(a, k, b);
        case Flushed(k, b, e) =>
          PutKeepsInv(t, e, {b, e});
          PutIs(t, e);
          assert {b, e} - {e} == {b};
          Brelse(e);
          Brealloc(a, k, b);
        case Wrote(k, b) =>
          Brelse(b);
      }
    }

    /** What the process that has a buffer does: its use ends, but for what is said of it after. */
    method Leave(a: nat) returns (k: Key, b: nat)
      requires Valid() && a in uses && uses[a].Hold?
      modifies this`uses
      ensures St() == Dropped(old(St()), a) && InHand(St(), b, {b}) && old(uses[a]) == Hold(k, b)
      ensures b < buf.Length && buf[b].busy && buf[b].inval == k.NoDev? && buf[b].key == k && buf[b].sized
    {
      hide InvWith;
      HoldIs(St(), a);
      DropKeepsInv(St(), a);
      k, b := uses[a].k, uses[a].b;
      uses := uses - {a};
    }

    method Bread(a: nat)
      requires Valid() && a in uses && uses[a].Hold? && uses[a].k.Blk?
      modifies this, buf
      ensures Valid() && St() == Step(old(St()), Does(a, Op.Bread))
    {
      hide InvWith, Fetched;
      UseKeepsInv(St(), a, Op.Bread);
      var k, b := Leave(a);
      if buf[b].done {
        uses := uses[a := Hold(k, b)];
      } else {
        Fetch(b, false);
        uses := uses[a := Reading(k, b)];
      }
    }

    method Breada(a: nat)
      requires Valid() && a in uses && uses[a].Hold? && uses[a].k.Blk?
      modifies this, buf
      ensures Valid() && St() == Step(old(St()), Does(a, Op.Breada))
    {
      hide InvWith, Fetched, Put;
      UseKeepsInv(St(), a, Op.Breada);
      var k, b := Leave(a);
      if buf[b].done {
        Brelse(b);
      } else {
        Fetch(b, true);
      }
    }

    method Release(a: nat)
      requires Valid() && a in uses && uses[a].Hold?
      modifies this, buf
      ensures Valid() && St() == Step(old(St()), Does(a, Op.Brelse))
    {
      hide InvWith, Put;
      UseKeepsInv(St(), a, Op.Brelse);
      var k, b := Leave(a);
      Brelse(b);
    }

    /** bwrite and, with B_ASYNC, bawrite: `d` is what the process has put in the buffer. */
    method Bwrite(a: nat, d: Block, async: bool)
      requires Valid() && a in uses && uses[a].Hold? && uses[a].k.Blk?
      modifies this, buf
      ensures Valid() && St() == Step(old(St()), Does(a, if async then Op.Bawrite(d) else Op.Bwrite(d)))
    {
      hide InvWith, Inv, Put;
      UseKeepsInv(St(), a, if async then Op.Bawrite(d) else Op.Bwrite(d));
      var k, b := Leave(a);
      ghost var t := St();
      buf[b] := buf[b].(data := d);
      latest := latest[k := d];
      Start(b, async);
      assert St() == Started(Stored(t, b, d), b, async) by {
        assert buf[..] == Started(Stored(t, b, d), b, async).buf;
      }
      if !async {
        uses := uses[a := Writing(k, b)];
      }
    }

    /** On a tape, what is put in a buffer is written at once, so that it is in order. */
    method Bdwrite(a: nat, d: Block, tape: bool)
      requires Valid() && a in uses && uses[a].Hold? && uses[a].k.Blk?
      modifies this, buf
      ensures Valid() && St() == Step(old(St()), Does(a, if tape then Op.Bawrite(d) else Op.Bdwrite(d)))
    {
      hide InvWith, Inv, Put;
      if tape {
        Bwrite(a, d, true);
        return;
      }
      UseKeepsInv(St(), a, Op.Bdwrite(d));
      var k, b := Leave(a);
      buf[b] := buf[b].(data := d, done := true, delwri := true);
      latest := latest[k := d];
      Brelse(b);
    }

    /** What the disk does. */
    method Land(b: nat)
      requires b < buf.Length
      modifies this`flight, this`disk, buf
      ensures St() == Finished(old(St()), b)
    {
      var x := buf[b];
      flight := flight - {b};
      if x.read {
        buf[b] := x.(done := true, data := Content(disk, x.key));
      } else {
        buf[b] := x.(done := true);
        disk := disk[x.key := x.data];
      }
    }

    /** The disk is done with a buffer: biodone. */
    method Iodone(b: nat)
      requires Valid() && b in flight
      modifies this, buf
      ensures Valid() && St() == Step(old(St()), Event.Iodone(b))
    {
      hide InvWith, Put, Finished, Arisen;
      ghost var s := St();
      InFlight(s, b);
      DoneKeepsInv(s, b);
      FinishedIs(s, b);
      Land(b);
      if buf[b].async {
        Brelse(b);
      } else {
        buf[b] := buf[b].(wanted := false);
        uses := map a | a in uses :: Arisen(uses[a], b);
      }
    }

    /** The search of bflush. */
    method NextDirty(dev: int) returns (j: nat)
      requires Valid()
      ensures j == Dirty(St(), lru + age, dev, 0)
    {
      hide InvWith;
      j := 0;
      var c := lru + age;
      while j < |c|
        invariant j <= |c| && Dirty(St(), c, dev, 0) == Dirty(St(), c, dev, j)
      {
        AllFree(St(), {}, c[j]);
        if buf[c[j]].delwri && Of(buf[c[j]].key, dev) {
          return;
        }
        j := j + 1;
      }
    }

    method Bflush(dev: int)
      requires Valid()
      modifies this, buf
      ensures Valid() && St() == Step(old(St()), Event.Bflush(dev))
    {
      hide InvWith, Flush, Taken, Started, Dirty;
      ghost var s := St();
      while true
        invariant Inv(St()) && Flush(s, dev) == Flush(St(), dev)
        decreases |lru| + |age|
        modifies this, buf
      {
        ghost var t := St();
        FlushIs(t, dev);
        var j := NextDirty(dev);
        if j == |lru + age| {
          return;
        }
        var b := (lru + age)[j];
        AllFree(t, {}, b);
        TakenIs(t, b);
        Shorter(t, b);
        CleanKeepsInv(t, b, {});
        StartedIs(Taken(t, b), b);
        Notavail(b);
        Start(b, true);
      }
    }
  }
}
