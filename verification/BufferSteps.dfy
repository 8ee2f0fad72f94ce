/**
 What a step of the cache keeps, whoever takes it.
 */
module BufferSteps {
  import opened Seqs
  import opened BufferState

  lemma {:induction false} WithoutIs(c: seq<nat>, b: nat)
    requires Distinct(c)
    ensures Distinct(Without(c, b)) && forall x :: x in Without(c, b) <==> x in c && x != b
    decreases |c|
  {
    if c != [] {
      var d := c[1..];
      assert forall i :: 0 <= i < |d| ==> d[i] == c[i + 1];
      WithoutIs(d, b);
      assert c == [c[0]] + d;
      if c[0] != b {
        assert c[0] !in d;
        ConsDistinct(c[0], Without(d, b));
      }
    }
  }

  lemma ConsDistinct(x: nat, c: seq<nat>)
    requires Distinct(c) && x !in c
    ensures Distinct([x] + c)
  {
    var d := [x] + c;
    forall i, j | 0 <= i < j < |d|
      ensures d[i] != d[j]
    {
      assert d[j] == c[j - 1] && (i > 0 ==> d[i] == c[i - 1]);
    }
  }

  /** What a process does not do to the others: the buffers they have are left alone, and who has one still has it. */
  ghost predicate Spares(s: State, t: State, hand: set<nat>) {
    && |t.buf| == |s.buf|
    && (forall b :: 0 <= b < |s.buf| && s.buf[b].busy && b !in hand ==>
        t.buf[b] == s.buf[b].(wanted := t.buf[b].wanted))
    && forall a :: a in s.uses && s.uses[a].Hold? ==> a in t.uses && t.uses[a] == s.uses[a]
  }

  ghost predicate Leaves(s: State, t: State, hand: set<nat>) {
    Spares(s, t, hand) && t.latest == s.latest && t.disk == s.disk
  }

  lemma LeavesMore(s: State, t: State, u: State, hand: set<nat>)
    requires Leaves(s, t, hand) && Leaves(t, u, hand)
    ensures Leaves(s, u, hand)
  {
  }

  /** Two states that differ, in their buffers, in one alone. */
  ghost predicate OneBuf(s: State, t: State, b: nat) {
    && b < |s.buf| == |t.buf| && (forall c :: 0 <= c < |s.buf| && c != b ==> t.buf[c] == s.buf[c])
    && forall c :: c != b ==> (c in s.flight <==> c in t.flight)
  }

  lemma KeepBufs(s: State, t: State, b: nat)
    requires BufsOk(s) && OneBuf(s, t, b) && t.latest == s.latest
    requires BufOk(t.buf[b], b in t.flight, Content(t.latest, t.buf[b].key))
    ensures BufsOk(t)
  {
    hide BufOk;
  }

  lemma KeepHashed(s: State, t: State, b: nat)
    requires Hashed(s) && OneBuf(s, t, b) && t.buf[b].key == s.buf[b].key && t.chain == s.chain
    ensures Hashed(t)
  {
    forall h, c | 0 <= h <= BUFHSZ
      ensures c in t.chain[h] <==> 0 <= c < |t.buf| && Home(t.buf[c].key) == h
    {
      if 0 <= c < |s.buf| {
        assert t.buf[c].key == s.buf[c].key;
      }
    }
  }

  lemma KeepUnique(s: State, t: State, b: nat)
    requires Unique(s) && OneBuf(s, t, b) && (Same(t.buf[b], t.buf[b].key) ==> Same(s.buf[b], t.buf[b].key))
    ensures Unique(t)
  {
  }

  lemma KeepDurable(s: State, t: State, b: nat)
    requires Durable(s) && OneBuf(s, t, b) && t.disk == s.disk && t.latest == s.latest
    requires forall k :: Unwritten(s, b, k) ==> Unwritten(t, b, k)
    ensures Durable(t)
  {
    forall k | Content(t.disk, k) != Content(t.latest, k)
      ensures exists c :: Unwritten(t, c, k)
    {
      var c: nat :| Unwritten(s, c, k);
      assert Unwritten(t, c, k);
    }
  }

  /** A buffer that is nobody's is changed: those who have others, or sleep, are as they were. */
  predicate Loose(s: State, t: State, b: nat, hand: set<nat>)
    requires b < |s.buf| && b < |t.buf|
  {
    && (b in hand || (!s.buf[b].busy && b !in s.flight))
    && (s.buf[b].busy && s.buf[b].wanted ==> t.buf[b].busy && t.buf[b].wanted)
    && (s.lru == [] && s.age == [] && s.short ==> t.lru == [] && t.age == [] && t.short)
  }

  lemma KeepUse(s: State, t: State, b: nat, hand: set<nat>, u: Use)
    requires UseOk(s, u) && Owned(u) !! hand && OneBuf(s, t, b) && Loose(s, t, b, hand)
    ensures UseOk(t, u) && b !in Owned(u)
  {
  }

  lemma KeepUses(s: State, t: State, b: nat, hand: set<nat>, rest: set<nat>)
    requires UsesOk(s, hand) && Apart(s) && OneBuf(s, t, b) && Loose(s, t, b, hand) && t.uses == s.uses
      && rest <= hand + {b}
    ensures UsesOk(t, rest) && Apart(t)
  {
    hide UseOk, OneBuf, Loose, Owned;
    forall a | a in t.uses
      ensures UseOk(t, t.uses[a]) && Owned(t.uses[a]) !! rest
    {
      KeepUse(s, t, b, hand, s.uses[a]);
    }
  }

  lemma KeepMinded(s: State, t: State, b: nat, hand: set<nat>, rest: set<nat>)
    requires Minded(s, hand) && OneBuf(s, t, b) && t.uses == s.uses && hand - {b} <= rest
    requires !t.buf[b].busy || t.buf[b].async || b in rest
    ensures Minded(t, rest)
  {
    forall c | 0 <= c < |t.buf| && t.buf[c].busy && !t.buf[c].async && c !in rest
      ensures exists a :: Owns(t, a, c)
    {
      var a: nat :| Owns(s, a, c);
      assert Owns(t, a, c);
    }
  }

  lemma FreeBuf(s: State, b: nat)
    requires BufsOk(s) && b < |s.buf|
    ensures BufOk(s.buf[b], b in s.flight, Content(s.latest, s.buf[b].key))
    ensures !s.buf[b].busy ==> b !in s.flight && !s.buf[b].async && !s.buf[b].wanted
  {
  }

  lemma TakeLists(s: State, b: nat)
    requires Listed(s) && b < |s.buf| && !s.buf[b].busy
    ensures Listed(Taken(s, b)) && OneBuf(s, Taken(s, b), b)
    ensures s.lru == [] && s.age == [] ==> Taken(s, b).lru == [] && Taken(s, b).age == []
  {
    WithoutIs(s.lru, b);
    WithoutIs(s.age, b);
    hide Distinct, Without;
  }

  lemma TakeKeepsInv(s: State, b: nat, hand: set<nat>)
    requires InvWith(s, hand) && b < |s.buf| && !s.buf[b].busy
    ensures InvWith(Taken(s, b), hand + {b}) && b !in hand
  {
    hide BufsOk, Listed, Hashed, Unique, Durable, UsesOk, Apart, Minded, Without;
    var t, rest := Taken(s, b), hand + {b};
    FreeBuf(s, b);
    TakeLists(s, b);
    KeepBufs(s, t, b);
    KeepHashed(s, t, b);
    KeepUnique(s, t, b);
    KeepDurable(s, t, b);
    KeepUses(s, t, b, hand, rest);
    KeepMinded(s, t, b, hand, rest);
  }

  /** A buffer in hand, not in flight. */
  ghost predicate InHand(s: State, b: nat, hand: set<nat>) {
    InvWith(s, hand) && b in hand && b !in s.flight
  }

  lemma HandIs(s: State, b: nat, hand: set<nat>)
    requires InHand(s, b, hand)
    ensures b < |s.buf| && s.buf[b].busy && !s.buf[b].async
    ensures BufOk(s.buf[b], b in s.flight, Content(s.latest, s.buf[b].key))
  {
    hide Listed, Hashed, Unique, Durable, UsesOk, Apart, Minded;
  }

  lemma SpoilKeepsInv(s: State, b: nat, hand: set<nat>)
    requires InHand(s, b, hand) && !s.buf[b].delwri
    ensures InHand(Spoilt(s, b), b, hand)
  {
    hide BufsOk, Listed, Hashed, Unique, Durable, UsesOk, Apart, Minded;
    var t := Spoilt(s, b);
    HandIs(s, b, hand);
    KeepBufs(s, t, b);
    KeepLists(s, t, b);
    KeepHashed(s, t, b);
    KeepUnique(s, t, b);
    KeepDurable(s, t, b);
    KeepUses(s, t, b, hand, hand);
    KeepMinded(s, t, b, hand, hand);
  }

  lemma KeepLists(s: State, t: State, b: nat)
    requires Listed(s) && OneBuf(s, t, b) && t.lru == s.lru && t.age == s.age && t.buf[b].busy == s.buf[b].busy
    ensures Listed(t)
  {
    hide Distinct;
  }

  /** A write, or a read, is started. */
  lemma StartKeepsInv(s: State, b: nat, async: bool, hand: set<nat>)
    requires InHand(s, b, hand) && !s.buf[b].inval && s.buf[b].done
    ensures InvWith(Started(s, b, async), if async then hand - {b} else hand)
  {
    hide BufsOk, Listed, Hashed, Unique, Durable, UsesOk, Apart, Minded;
    var t, rest := Started(s, b, async), if async then hand - {b} else hand;
    HandIs(s, b, hand);
    KeepBufs(s, t, b);
    KeepLists(s, t, b);
    KeepHashed(s, t, b);
    KeepUnique(s, t, b);
    KeepDurable(s, t, b);
    KeepUses(s, t, b, hand, rest);
    KeepMinded(s, t, b, hand, rest);
  }

  lemma FetchKeepsInv(s: State, b: nat, async: bool, hand: set<nat>)
    requires InHand(s, b, hand) && !s.buf[b].inval && !s.buf[b].done && s.buf[b].sized
    ensures InvWith(Fetched(s, b, async), if async then hand - {b} else hand)
  {
    hide BufsOk, Listed, Hashed, Unique, Durable, UsesOk, Apart, Minded;
    var t, rest := Fetched(s, b, async), if async then hand - {b} else hand;
    HandIs(s, b, hand);
    KeepBufs(s, t, b);
    KeepLists(s, t, b);
    KeepHashed(s, t, b);
    KeepUnique(s, t, b);
    KeepDurable(s, t, b);
    KeepUses(s, t, b, hand, rest);
    KeepMinded(s, t, b, hand, rest);
  }

  lemma StoreBufs(s: State, b: nat, d: Block)
    requires BufsOk(s) && Unique(s) && b < |s.buf| && b !in s.flight && s.buf[b].sized && !s.buf[b].inval
      && s.buf[b].busy
    ensures BufsOk(Stored(s, b, d))
  {
    var t := Stored(s, b, d);
    forall c | 0 <= c < |t.buf|
      ensures BufOk(t.buf[c], c in t.flight, Content(t.latest, t.buf[c].key))
    {
      assert BufOk(s.buf[c], c in s.flight, Content(s.latest, s.buf[c].key));
      if c != b && s.buf[c].key == s.buf[b].key {
        assert !Same(s.buf[c], s.buf[b].key);
      }
    }
  }

  lemma StoreDurable(s: State, b: nat, d: Block)
    requires Durable(s) && b < |s.buf|
    ensures Durable(Stored(s, b, d))
  {
    var t := Stored(s, b, d);
    forall k | Content(t.disk, k) != Content(t.latest, k)
      ensures exists c :: Unwritten(t, c, k)
    {
      if k == s.buf[b].key {
        assert Unwritten(t, b, k);
      } else {
        assert Content(s.disk, k) != Content(s.latest, k);
        var c: nat :| Unwritten(s, c, k);
        assert Unwritten(t, c, k);
      }
    }
  }

  lemma StoreKeepsInv(s: State, b: nat, d: Block, hand: set<nat>)
    requires InHand(s, b, hand) && !s.buf[b].inval && s.buf[b].sized
    ensures InHand(Stored(s, b, d), b, hand)
  {
    hide BufsOk, Listed, Hashed, Unique, Durable, UsesOk, Apart, Minded;
    var t := Stored(s, b, d);
    HandIs(s, b, hand);
    StoreBufs(s, b, d);
    KeepLists(s, t, b);
    KeepHashed(s, t, b);
    KeepUnique(s, t, b);
    StoreDurable(s, b, d);
    KeepUses(s, t, b, hand, hand);
    KeepMinded(s, t, b, hand, hand);
  }

  lemma WantUse(s: State, b: nat, u: Use)
    requires UseOk(s, u) && b < |s.buf|
    ensures UseOk(Wanted(s, b), u)
  {
  }

  lemma WantKeepsInv(s: State, b: nat, hand: set<nat>)
    requires InvWith(s, hand) && b < |s.buf| && s.buf[b].busy
    ensures InvWith(Wanted(s, b), hand) && Sleeps(Wanted(s, b), b)
  {
    hide BufsOk, Listed, Hashed, Unique, Durable, UseOk;
    var t := Wanted(s, b);
    FreeBuf(s, b);
    KeepBufs(s, t, b);
    KeepLists(s, t, b);
    KeepHashed(s, t, b);
    KeepUnique(s, t, b);
    KeepDurable(s, t, b);
    forall a | a in t.uses
      ensures UseOk(t, t.uses[a])
    {
      WantUse(s, b, s.uses[a]);
    }
    KeepMindedAll(s, t, hand);
  }

  lemma KeepMindedAll(s: State, t: State, hand: set<nat>)
    requires Minded(s, hand) && |t.buf| == |s.buf|
      && (forall c :: 0 <= c < |s.buf| ==> t.buf[c].busy == s.buf[c].busy && t.buf[c].async == s.buf[c].async)
    requires forall a, c :: Owns(s, a, c) ==> Owns(t, a, c)
    ensures Minded(t, hand)
  {
    forall c | 0 <= c < |t.buf| && t.buf[c].busy && !t.buf[c].async && c !in hand
      ensures exists a :: Owns(t, a, c)
    {
      var a: nat :| Owns(s, a, c);
      assert Owns(t, a, c);
    }
  }

  lemma GiveKeepsInv(s: State, a: nat, u: Use, hand: set<nat>)
    requires InvWith(s, hand) && a !in s.uses && UseOk(s, u) && Owned(u) <= hand
    ensures InvWith(Given(s, a, u), hand - Owned(u))
  {
    hide BufsOk, Listed, Hashed, Unique, Durable, UseOk, UsesOk, Apart, Minded, HandOk, Owned;
    var t := Given(s, a, u);
    SameBufs(s, t);
    GiveUses(s, a, u, hand);
    assert HandOk(t, hand - Owned(u)) by {
      HandIn(s, hand);
    }
  }

  lemma HandIn(s: State, hand: set<nat>)
    ensures HandOk(s, hand) <==> forall b :: b in hand ==> b < |s.buf| && s.buf[b].busy && !s.buf[b].async
  {
  }

  lemma SameBufs(s: State, t: State)
    requires BufsOk(s) && Listed(s) && Hashed(s) && Unique(s) && Durable(s)
    requires t.(uses := s.uses) == s
    ensures BufsOk(t) && Listed(t) && Hashed(t) && Unique(t) && Durable(t)
  {
    hide BufOk, Distinct;
    assert Durable(t) by {
      forall k | Content(t.disk, k) != Content(t.latest, k)
        ensures exists c :: Unwritten(t, c, k)
      {
        var c: nat :| Unwritten(s, c, k);
        assert Unwritten(t, c, k);
      }
    }
  }

  lemma SameUse(s: State, t: State, u: Use)
    requires UseOk(s, u) && t.(uses := s.uses) == s
    ensures UseOk(t, u)
  {
  }

  lemma GiveUses(s: State, a: nat, u: Use, hand: set<nat>)
    requires UsesOk(s, hand) && Apart(s) && Minded(s, hand) && HandOk(s, hand) && a !in s.uses && UseOk(s, u)
      && Owned(u) <= hand
    ensures UsesOk(Given(s, a, u), hand - Owned(u)) && Apart(Given(s, a, u)) && Minded(Given(s, a, u), hand - Owned(u))
    ensures HandOk(Given(s, a, u), hand - Owned(u))
  {
    hide UseOk, Owned;
    var t, rest := Given(s, a, u), hand - Owned(u);
    forall c | c in t.uses
      ensures UseOk(t, t.uses[c]) && Owned(t.uses[c]) !! rest
    {
      SameUse(s, t, t.uses[c]);
    }
    forall c | 0 <= c < |t.buf| && t.buf[c].busy && !t.buf[c].async && c !in rest
      ensures exists i :: Owns(t, i, c)
    {
      if c in Owned(u) {
        assert Owns(t, a, c);
      } else {
        var i: nat :| Owns(s, i, c);
        assert Owns(t, i, c);
      }
    }
  }

  lemma OwnedBusy(s: State, u: Use)
    requires BufsOk(s) && UseOk(s, u)
    ensures forall b :: b in Owned(u) ==> b < |s.buf| && s.buf[b].busy && !s.buf[b].async
  {
  }

  lemma DropKeepsInv(s: State, a: nat)
    requires Inv(s) && a in s.uses
    ensures InvWith(Dropped(s, a), Owned(s.uses[a])) && a !in Dropped(s, a).uses && UseOk(Dropped(s, a), s.uses[a])
  {
    hide Listed, Hashed, Unique, Durable, UseOk, Owned, BufsOk;
    var t := Dropped(s, a);
    SameBufs(s, t);
    OwnedBusy(s, s.uses[a]);
    forall c | c in s.uses
      ensures UseOk(t, s.uses[c])
    {
      SameUse(s, t, s.uses[c]);
    }
    forall c | 0 <= c < |t.buf| && t.buf[c].busy && !t.buf[c].async && c !in Owned(s.uses[a])
      ensures exists i :: Owns(t, i, c)
    {
      var i: nat :| Owns(s, i, c);
      assert Owns(t, i, c);
    }
  }

  lemma SizeKeepsInv(s: State, b: nat, hand: set<nat>)
    requires InHand(s, b, hand) && !s.buf[b].done && !s.buf[b].delwri
    requires forall c :: 0 <= c < |s.buf| && c != b ==> !Same(s.buf[c], s.buf[b].key)
    ensures InHand(Sized(s, b), b, hand)
  {
    hide BufsOk, Listed, Hashed, Durable, UsesOk, Apart, Minded;
    var t := Sized(s, b);
    HandIs(s, b, hand);
    KeepBufs(s, t, b);
    KeepLists(s, t, b);
    KeepHashed(s, t, b);
    KeepDurable(s, t, b);
    KeepUses(s, t, b, hand, hand);
    KeepMinded(s, t, b, hand, hand);
  }

  lemma BindHashed(s: State, b: nat, k: Key)
    requires Hashed(s) && b < |s.buf|
    ensures Hashed(Bound(s, b, k))
  {
    var t, g, h := Bound(s, b, k), Home(s.buf[b].key), Home(k);
    WithoutIs(s.chain[g], b);
    var away := Moved(s.chain, g, Without(s.chain[g], b));
    ConsDistinct(b, away[h]);
    hide Distinct, Without, Home;
    forall i | 0 <= i <= BUFHSZ
      ensures Distinct(t.chain[i]) && forall c :: c in t.chain[i] <==> 0 <= c < |t.buf| && Home(t.buf[c].key) == i
    {
      assert forall c :: c in away[i] <==> 0 <= c < |s.buf| && c != b && Home(s.buf[c].key) == i;
      assert t.chain[i] == if i == h then [b] + away[i] else away[i];
      forall c
        ensures c in t.chain[i] <==> 0 <= c < |t.buf| && Home(t.buf[c].key) == i
      {
        if c != b && 0 <= c < |t.buf| {
          assert t.buf[c] == s.buf[c];
        }
      }
    }
  }

  lemma BindKeepsInv(s: State, b: nat, k: Key, hand: set<nat>)
    requires InHand(s, b, hand) && !s.buf[b].delwri && !s.buf[b].wanted
    ensures InHand(Bound(s, b, k), b, hand)
    ensures k.Blk? ==> Claims(Bound(s, b, k), k, b)
  {
    hide BufsOk, Listed, Hashed, Unique, Durable, UsesOk, Apart, Minded, Without, Moved;
    var t := Bound(s, b, k);
    HandIs(s, b, hand);
    KeepBufs(s, t, b);
    KeepLists(s, t, b);
    BindHashed(s, b, k);
    KeepUnique(s, t, b);
    KeepDurable(s, t, b);
    KeepUses(s, t, b, hand, hand);
    KeepMinded(s, t, b, hand, hand);
  }

  lemma SnocDistinct(c: seq<nat>, x: nat)
    requires Distinct(c) && x !in c
    ensures Distinct(c + [x])
  {
  }

  lemma PutLists(s: State, b: nat)
    requires Listed(s) && b < |s.buf| && s.buf[b].busy
    ensures Listed(Put(s, b)) && OneBuf(s, Put(s, b), b)
  {
    SnocDistinct(s.lru, b);
    ConsDistinct(b, s.age);
    hide Distinct;
  }

  lemma PutUse(s: State, b: nat, hand: set<nat>, u: Use)
    requires UseOk(s, u) && Owned(u) !! hand && b in hand && b < |s.buf|
    ensures UseOk(Put(s, b), Woken(u, b, s.buf[b].wanted, s.short))
      && Owned(Woken(u, b, s.buf[b].wanted, s.short)) == Owned(u)
  {
    hide Roused;
  }

  lemma PutUses(s: State, b: nat, hand: set<nat>)
    requires UsesOk(s, hand) && Apart(s) && Minded(s, hand) && b in hand && b < |s.buf|
    ensures UsesOk(Put(s, b), hand - {b}) && Apart(Put(s, b)) && Minded(Put(s, b), hand - {b})
  {
    hide UseOk, Owned, Woken;
    var t, rest := Put(s, b), hand - {b};
    forall a | a in t.uses
      ensures UseOk(t, t.uses[a]) && Owned(t.uses[a]) !! rest && Owned(t.uses[a]) == Owned(s.uses[a])
    {
      PutUse(s, b, hand, s.uses[a]);
    }
    forall c | 0 <= c < |t.buf| && t.buf[c].busy && !t.buf[c].async && c !in rest
      ensures exists a :: Owns(t, a, c)
    {
      var a: nat :| Owns(s, a, c);
      assert Owns(t, a, c);
    }
  }

  lemma PutKeepsInv(s: State, b: nat, hand: set<nat>)
    requires InHand(s, b, hand) && (s.buf[b].sized || s.buf[b].inval)
    ensures InvWith(Put(s, b), hand - {b})
  {
    hide BufsOk, Listed, Hashed, Unique, Durable, UsesOk, Apart, Minded, Roused;
    var t := Put(s, b);
    HandIs(s, b, hand);
    PutLists(s, b);
    KeepBufs(s, t, b);
    KeepHashed(s, t, b);
    KeepUnique(s, t, b);
    KeepDurable(s, t, b);
    PutUses(s, b, hand);
  }

  /** What a read will bring is what was last written. */
  lemma DiskHasLatest(s: State, b: nat)
    requires BufsOk(s) && Unique(s) && Durable(s) && b in s.flight && s.buf[b].read
    ensures Content(s.disk, s.buf[b].key) == Content(s.latest, s.buf[b].key)
  {
    var k := s.buf[b].key;
    FreeBuf(s, b);
    forall c: nat
      ensures !Unwritten(s, c, k)
    {
      if c < |s.buf| {
        FreeBuf(s, c);
      }
    }
  }

  /** A finished buffer, for which nobody waits that the disk knows of. */
  function Landed(s: State, b: nat): State {
    var t := Finished(s, b);
    t.(buf := With(t, b, At(t, b).(async := false)).buf)
  }

  lemma LandIs(s: State, b: nat)
    requires b < |s.buf|
    ensures var x, t := s.buf[b], Landed(s, b);
      && OneBuf(s, t, b) && t.buf[b] == x.(done := true, async := false, data := if x.read then Content(s.disk, x.key)
          else x.data)
      && t.lru == s.lru && t.age == s.age && t.chain == s.chain && t.uses == s.uses && t.latest == s.latest
          && t.flight == s.flight - {b}
      && t.short == s.short && t.disk == if x.read then s.disk else s.disk[x.key := x.data]
  {
  }

  lemma LandBufs(s: State, b: nat)
    requires BufsOk(s) && Unique(s) && Durable(s) && b in s.flight
    ensures OneBuf(s, Landed(s, b), b) && BufsOk(Landed(s, b))
      && Landed(s, b).buf[b] == s.buf[b].(done := true, async := false, data := Content(s.latest, s.buf[b].key))
    ensures s.buf[b].key.Blk? && s.buf[b].busy && s.buf[b].sized && !s.buf[b].inval && !s.buf[b].delwri
  {
    hide Unique, Durable, BufOk, Landed;
    LandIs(s, b);
    FreeBuf(s, b);
    Flying(s, b);
    if s.buf[b].read {
      DiskHasLatest(s, b);
    }
    KeepBufs(s, Landed(s, b), b);
  }

  lemma Flying(s: State, b: nat)
    requires BufsOk(s) && b in s.flight
    ensures b < |s.buf| && s.buf[b].key.Blk? && s.buf[b].busy && s.buf[b].sized && !s.buf[b].inval && !s.buf[b].delwri
      && !s.buf[b].done
    ensures !s.buf[b].read ==> s.buf[b].data == Content(s.latest, s.buf[b].key)
    ensures BufOk(s.buf[b].(done := true, async := false, data := Content(s.latest, s.buf[b].key)), false,
      Content(s.latest, s.buf[b].key))
  {
    FreeBuf(s, b);
  }

  lemma LandDurable(s: State, b: nat)
    requires BufsOk(s) && Durable(s) && b in s.flight
    ensures Durable(Landed(s, b))
  {
    hide BufsOk, Landed;
    var t := Landed(s, b);
    Flying(s, b);
    LandIs(s, b);
    forall k | Content(t.disk, k) != Content(t.latest, k)
      ensures exists c :: Unwritten(t, c, k)
    {
      assert Content(s.disk, k) != Content(s.latest, k);
      var c: nat :| Unwritten(s, c, k);
      assert Unwritten(t, c, k);
    }
  }

  lemma AsyncUse(s: State, b: nat, u: Use)
    requires UseOk(s, u) && b in s.flight && b < |s.buf| && s.buf[b].async && s.buf[b].busy
    ensures UseOk(Landed(s, b), u) && b !in Owned(u)
  {
    hide Landed;
    LandIs(s, b);
  }

  lemma LandKeepsInv(s: State, b: nat)
    requires Inv(s) && b in s.flight && s.buf[b].async
    ensures InHand(Landed(s, b), b, {b})
  {
    hide BufsOk, Listed, Hashed, Unique, Durable, UseOk, Owned, Minded, Landed;
    var t := Landed(s, b);
    LandBufs(s, b);
    LandIs(s, b);
    LandDurable(s, b);
    KeepLists(s, t, b);
    KeepHashed(s, t, b);
    KeepUnique(s, t, b);
    forall a | a in t.uses
      ensures UseOk(t, t.uses[a]) && Owned(t.uses[a]) !! {b}
    {
      AsyncUse(s, b, s.uses[a]);
    }
    KeepMinded(s, t, b, {}, {b});
  }

  lemma SyncUse(s: State, b: nat, u: Use)
    requires BufsOk(s) && Unique(s) && Durable(s) && UseOk(s, u) && b in s.flight && !s.buf[b].async
    ensures UseOk(Biodone(s, b), Arisen(u, b)) && Owned(Arisen(u, b)) == Owned(u)
  {
    hide Unique, Durable, BufsOk, Landed, Biodone;
    LandBufs(s, b);
    LandIs(s, b);
    SyncIs(s, b);
  }

  lemma DoneKeepsInv(s: State, b: nat)
    requires Inv(s) && b in s.flight
    ensures Inv(Biodone(s, b))
  {
    hide BufsOk, Listed, Hashed, Unique, Durable, UsesOk, Apart, Minded;
    LandBufs(s, b);
    if s.buf[b].async {
      LandKeepsInv(s, b);
      PutKeepsInv(Landed(s, b), b, {b});
      AsyncIs(s, b);
      assert {b} - {b} == {};
    } else {
      SyncKeepsInv(s, b);
    }
  }

  lemma AsyncIs(s: State, b: nat)
    requires b < |s.buf| && s.buf[b].async
    ensures Put(Landed(s, b), b) == Biodone(s, b)
  {
    hide Roused;
  }

  lemma SyncKeepsInv(s: State, b: nat)
    requires Inv(s) && b in s.flight && !s.buf[b].async
    ensures Inv(Biodone(s, b))
  {
    hide BufsOk, Listed, Hashed, Unique, Durable, UseOk, Owned, Landed, Biodone, Arisen;
    var t := Biodone(s, b);
    LandBufs(s, b);
    LandIs(s, b);
    LandDurable(s, b);
    SyncIs(s, b);
    FreeBuf(Landed(s, b), b);
    KeepBufs(Landed(s, b), t, b);
    KeepLists(s, t, b);
    KeepHashed(s, t, b);
    KeepUnique(s, t, b);
    KeepDurable(Landed(s, b), t, b);
    forall a | a in t.uses
      ensures UseOk(t, t.uses[a]) && Owned(t.uses[a]) == Owned(s.uses[a])
    {
      SyncUse(s, b, s.uses[a]);
    }
    KeepMindedAll(s, t, {});
  }

  lemma SyncIs(s: State, b: nat)
    requires b < |s.buf| && !s.buf[b].async
    ensures var t, u := Biodone(s, b), Landed(s, b);
      && OneBuf(u, t, b) && t.buf[b] == u.buf[b].(wanted := false) && t.(buf := u.buf, uses := u.uses) == u
      && t.uses.Keys == s.uses.Keys && forall a :: a in s.uses ==> t.uses[a] == Arisen(s.uses[a], b)
  {
  }

  lemma AllFree(s: State, hand: set<nat>, b: nat)
    requires InvWith(s, hand) && (b in s.lru || b in s.age)
    ensures b < |s.buf| && !s.buf[b].busy && b !in s.flight && b !in hand && (s.buf[b].sized || s.buf[b].inval)
      && !s.buf[b].wanted && !s.buf[b].async
    ensures s.buf[b].delwri ==> s.buf[b].done && !s.buf[b].inval && s.buf[b].sized
  {
    hide Hashed, Unique, Durable, UsesOk, Apart, Minded;
    FreeBuf(s, b);
  }

  /** A free buffer is taken to be written, and nobody waits for it. */
  lemma CleanKeepsInv(s: State, b: nat, hand: set<nat>)
    requires InvWith(s, hand) && (b in s.lru || b in s.age) && s.buf[b].delwri
    ensures InvWith(Started(Taken(s, b), b, true), hand)
    ensures Leaves(s, Started(Taken(s, b), b, true), hand)
  {
    hide InvWith, BufOk;
    AllFree(s, hand, b);
    TakeKeepsInv(s, b, hand);
    TakenIs(s, b);
    StartKeepsInv(Taken(s, b), b, true, hand + {b});
    assert hand + {b} - {b} == hand;
  }

  lemma TakenIs(s: State, b: nat)
    requires b < |s.buf|
    ensures var t := Taken(s, b);
      t.buf == s.buf[b := s.buf[b].(busy := true)] && t.flight == s.flight && t.uses == s.uses && t.chain == s.chain
      && t.latest == s.latest && t.disk == s.disk
  {
  }

  /** One of the same block, free and on the disk already, is made invalid. */
  lemma InvalidateKeepsInv(s: State, e: nat, hand: set<nat>)
    requires InvWith(s, hand) && e < |s.buf| && !s.buf[e].busy && !s.buf[e].delwri
    ensures InvWith(Put(Spoilt(Taken(s, e), e), e), hand)
    ensures Leaves(s, Put(Spoilt(Taken(s, e), e), e), hand)
  {
    hide InvWith, BufOk, Put;
    TakeKeepsInv(s, e, hand);
    TakenIs(s, e);
    FreeIs(s, e, hand);
    SpoilKeepsInv(Taken(s, e), e, hand + {e});
    PutKeepsInv(Spoilt(Taken(s, e), e), e, hand + {e});
    assert hand + {e} - {e} == hand;
    InvalidateLeaves(s, e, hand);
  }

  lemma InvalidateLeaves(s: State, e: nat, hand: set<nat>)
    requires e < |s.buf| && !s.buf[e].busy
    ensures Leaves(s, Put(Spoilt(Taken(s, e), e), e), hand)
  {
    hide Without;
  }

  lemma FreeIs(s: State, b: nat, hand: set<nat>)
    requires InvWith(s, hand) && b < |s.buf| && !s.buf[b].busy
    ensures (b in s.lru || b in s.age) && b !in s.flight && !s.buf[b].async && !s.buf[b].wanted
  {
    hide Hashed, Unique, Durable, UsesOk, Apart, Minded;
    FreeBuf(s, b);
  }

  /** None of the chain up to place `i` is another of the block. */
  ghost predicate Searched(s: State, k: Key, b: nat, i: nat) {
    forall j :: 0 <= j < i && j < |ChainAt(s.chain, Home(k))| ==>
      ChainAt(s.chain, Home(k))[j] == b || !Same(At(s, ChainAt(s.chain, Home(k))[j]), k)
  }

  lemma NoOther(s: State, k: Key, b: nat, i: nat)
    requires Hashed(s) && Searched(s, k, b, i) && i >= |ChainAt(s.chain, Home(k))|
    ensures forall c :: 0 <= c < |s.buf| && c != b ==> !Same(s.buf[c], k)
  {
    forall c | 0 <= c < |s.buf| && c != b
      ensures !Same(s.buf[c], k)
    {
      if s.buf[c].key == k {
        assert c in s.chain[Home(k)];
      }
    }
  }

  lemma InvalidatedIs(s: State, e: nat)
    requires e < |s.buf|
    ensures var t := Put(Spoilt(Taken(s, e), e), e);
      && |t.buf| == |s.buf| && (forall c :: 0 <= c < |s.buf| && c != e ==> t.buf[c] == s.buf[c]) && t.buf[e].inval
      && t.chain == s.chain && t.flight == s.flight && t.uses.Keys == s.uses.Keys
  {
  }

  lemma SizedIs(s: State, b: nat)
    requires b < |s.buf|
    ensures Sized(s, b) == s.(buf := s.buf[b := s.buf[b].(sized := true, done := false)])
  {
  }

  lemma HoldKeepsInv(s: State, a: nat, k: Key, b: nat)
    requires InHand(s, b, {b}) && a !in s.uses && s.buf[b].key == k && !s.buf[b].done && !s.buf[b].delwri
      && s.buf[b].inval == k.NoDev?
    requires forall c :: 0 <= c < |s.buf| && c != b ==> !Same(s.buf[c], k)
    ensures Inv(Given(Sized(s, b), a, Hold(k, b)))
    ensures Leaves(s, Given(Sized(s, b), a, Hold(k, b)), {b})
  {
    HandIs(s, b, {b});
    hide InvWith, BufOk;
    SizeKeepsInv(s, b, {b});
    SizedIs(s, b);
    GiveKeepsInv(Sized(s, b), a, Hold(k, b), {b});
    assert {b} - {b} == {};
  }

  lemma WaitKeepsInv(s: State, a: nat, k: Key, b: nat, e: nat)
    requires InvWith(s, {b}) && a !in s.uses && Claims(s, k, b) && e < |s.buf| && e != b && s.buf[e].busy
    ensures Inv(Given(Wanted(s, e), a, WaitClaim(k, b, e)))
    ensures Leaves(s, Given(Wanted(s, e), a, WaitClaim(k, b, e)), {b})
  {
    hide InvWith;
    WantKeepsInv(s, e, {b});
    GiveKeepsInv(Wanted(s, e), a, WaitClaim(k, b, e), {b});
    assert {b} - {b} == {};
  }

  lemma FlushingKeepsInv(s: State, a: nat, k: Key, b: nat, e: nat)
    requires InvWith(s, {b}) && a !in s.uses && Claims(s, k, b) && e < |s.buf| && e != b && !s.buf[e].busy
      && s.buf[e].delwri && s.buf[e].key == k
    ensures Inv(Given(Started(Taken(s, e), e, false), a, Flushing(k, b, e)))
    ensures Leaves(s, Given(Started(Taken(s, e), e, false), a, Flushing(k, b, e)), {b})
  {
    hide InvWith;
    var hand := {b} + {e};
    FreeIs(s, e, {b});
    AllFree(s, {b}, e);
    TakeKeepsInv(s, e, {b});
    TakenIs(s, e);
    StartKeepsInv(Taken(s, e), e, false, hand);
    GiveKeepsInv(Started(Taken(s, e), e, false), a, Flushing(k, b, e), hand);
    assert hand - {b, e} == {};
  }

  lemma {:induction false} ScanKeepsInv(s: State, a: nat, k: Key, b: nat, i: nat)
    requires InvWith(s, {b}) && a !in s.uses && Claims(s, k, b) && Searched(s, k, b, i)
    ensures Inv(Scanned(s, a, k, b, i))
    ensures Leaves(s, Scanned(s, a, k, b, i), {b})
    decreases |ChainAt(s.chain, Home(k))| - i
  {
    hide InvWith, Taken, Put, Spoilt, Started, Sized, Wanted;
    var c := ChainAt(s.chain, Home(k));
    if i >= |c| {
      HashedOf(s, {b});
      NoOther(s, k, b, i);
      HoldKeepsInv(s, a, k, b);
    } else {
      var e := c[i];
      OnChain(s, {b}, k, i);
      if e == b || !Same(At(s, e), k) {
        ScanKeepsInv(s, a, k, b, i + 1);
      } else if s.buf[e].busy {
        WaitKeepsInv(s, a, k, b, e);
      } else if s.buf[e].delwri {
        FlushingKeepsInv(s, a, k, b, e);
      } else {
        InvalidateKeepsInv(s, e, {b});
        InvalidatedIs(s, e);
        ScanKeepsInv(Put(Spoilt(Taken(s, e), e), e), a, k, b, i + 1);
      }
    }
  }

  lemma HashedOf(s: State, hand: set<nat>)
    requires InvWith(s, hand)
    ensures Hashed(s) && |s.chain| == BUFHSZ + 1
  {
  }

  lemma OnChain(s: State, hand: set<nat>, k: Key, i: nat)
    requires InvWith(s, hand) && i < |ChainAt(s.chain, Home(k))|
    ensures ChainAt(s.chain, Home(k))[i] < |s.buf|
  {
    hide BufsOk, Listed, Unique, Durable, UsesOk, Apart, Minded;
    assert ChainAt(s.chain, Home(k))[i] in s.chain[Home(k)];
  }

  lemma BoundIs(s: State, b: nat, k: Key)
    requires b < |s.buf|
    ensures var t := Bound(s, b, k);
      && t.buf == s.buf[b := Buf(k, false, true, false, false, false, k.NoDev?, false, false, s.buf[b].data)]
          && t.uses == s.uses && t.flight == s.flight
  {
    hide Moved, Without;
  }

  lemma {:induction false} RenewKeepsInv(s: State, a: nat, k: Key)
    requires Inv(s) && a !in s.uses
    ensures Inv(Renewed(s, a, k))
    ensures Leaves(s, Renewed(s, a, k), {})
    decreases |s.lru| + |s.age|
  {
    hide InvWith, Taken, Started, Bound, Scanned, Sized, Claimed;
    RenewedIs(s, a, k);
    if s.age == [] && s.lru == [] {
      ShortKeepsInv(s, a, k);
    } else {
      var b := Oldest(s);
      AllFree(s, {}, b);
      TakenIs(s, b);
      if s.buf[b].delwri {
        CleanKeepsInv(s, b, {});
        StartedIs(Taken(s, b), b);
        Shorter(s, b);
        RenewKeepsInv(Started(Taken(s, b), b, true), a, k);
      } else {
        TakeKeepsInv(s, b, {});
        assert {} + {b} == {b};
        BindKeepsInv(Taken(s, b), b, k, {b});
        BoundIs(Taken(s, b), b, k);
        ClaimKeepsInv(Bound(Taken(s, b), b, k), a, k, b);
        BindLeaves(s, b, k, Claimed(Bound(Taken(s, b), b, k), a, k, b));
      }
    }
  }

  lemma BindLeaves(s: State, b: nat, k: Key, t: State)
    requires b < |s.buf| && !s.buf[b].busy && Leaves(Bound(Taken(s, b), b, k), t, {b})
    ensures Leaves(s, t, {})
  {
    hide Without, Moved;
  }

  lemma ClaimKeepsInv(s: State, a: nat, k: Key, b: nat)
    requires InHand(s, b, {b}) && a !in s.uses && b < |s.buf|
      && s.buf[b] == Buf(k, false, true, false, false, false, k.NoDev?, false, false, s.buf[b].data)
    ensures Inv(Claimed(s, a, k, b))
    ensures Leaves(s, Claimed(s, a, k, b), {b})
  {
    hide InvWith, Scanned, Sized;
    if k.NoDev? {
      InvalNone(s, {b});
      HoldKeepsInv(s, a, k, b);
    } else {
      ScanKeepsInv(s, a, k, b, 0);
    }
  }

  lemma InvalNone(s: State, hand: set<nat>)
    requires InvWith(s, hand)
    ensures forall c :: 0 <= c < |s.buf| ==> !Same(s.buf[c], NoDev)
  {
    hide Listed, Hashed, Unique, Durable, UsesOk, Apart, Minded;
  }

  lemma Shorter(s: State, b: nat)
    requires b in s.lru || b in s.age
    ensures |Taken(s, b).lru| + |Taken(s, b).age| < |s.lru| + |s.age|
  {
  }

  lemma StartedIs(s: State, b: nat)
    ensures forall async :: var t := Started(s, b, async);
      t.lru == s.lru && t.age == s.age && t.uses == s.uses && t.chain == s.chain
  {
  }

  lemma RenewedIs(s: State, a: nat, k: Key)
    ensures s.age == [] && s.lru == [] ==> Renewed(s, a, k) == Given(s.(short := true), a, WaitFree(k))
    ensures s.age != [] || s.lru != [] ==>
      Renewed(s, a, k) == var b := Oldest(s); if At(s, b).delwri then Renewed(Started(Taken(s, b), b, true), a, k)
        else Claimed(Bound(Taken(s, b), b, k), a, k, b)
  {
  }

  lemma ShortUse(s: State, u: Use)
    requires UseOk(s, u)
    ensures UseOk(s.(short := true), u)
  {
  }

  lemma ShortKeepsInv(s: State, a: nat, k: Key)
    requires Inv(s) && a !in s.uses && s.age == [] && s.lru == []
    ensures Inv(Given(s.(short := true), a, WaitFree(k)))
    ensures Leaves(s, Given(s.(short := true), a, WaitFree(k)), {})
  {
    var t := s.(short := true);
    assert InvWith(t, {}) by {
      hide BufOk, Distinct, UseOk, Unique, Hashed;
      forall c | c in t.uses
        ensures UseOk(t, t.uses[c])
      {
        ShortUse(s, s.uses[c]);
      }
      assert forall b, c :: Unwritten(s, b, c) ==> Unwritten(t, b, c);
      KeepMindedAll(s, t, {});
      assert Durable(t) by {
        forall i | Content(t.disk, i) != Content(t.latest, i)
          ensures exists c :: Unwritten(t, c, i)
        {
          var c: nat :| Unwritten(s, c, i);
          assert Unwritten(t, c, i);
        }
      }
    }
    hide InvWith;
    GiveKeepsInv(t, a, WaitFree(k), {});
    assert {} - Owned(WaitFree(k)) == {};
  }

  lemma SeekKeepsInv(s: State, a: nat, k: Key)
    requires Inv(s) && a !in s.uses && k.Blk?
    ensures Inv(Sought(s, a, k))
    ensures Leaves(s, Sought(s, a, k), {})
  {
    hide InvWith, Renewed, Taken, Wanted;
    var c := ChainAt(s.chain, Home(k));
    var j := Find(s, c, k, 0);
    if j == |c| {
      RenewKeepsInv(s, a, k);
    } else {
      var b := c[j];
      OnChain(s, {}, k, j);
      if s.buf[b].busy {
        WantKeepsInv(s, b, {});
        WantedIs(s, b);
        GiveKeepsInv(Wanted(s, b), a, WaitBuf(k, b), {});
        assert {} - Owned(WaitBuf(k, b)) == {};
      } else {
        FreeIs(s, b, {});
        AllFree(s, {}, b);
        TakeKeepsInv(s, b, {});
        TakenIs(s, b);
        assert {} + {b} == {b};
        GiveKeepsInv(Taken(s, b), a, Hold(k, b), {b});
        assert {b} - {b} == {};
      }
    }
  }

  lemma WantedIs(s: State, b: nat)
    requires b < |s.buf|
    ensures Wanted(s, b) == s.(buf := s.buf[b := s.buf[b].(wanted := true)])
  {
  }

  lemma GoKeepsInv(s: State, a: nat)
    requires Inv(s) && a in s.uses
    ensures Inv(Step(s, Go(a)))
    ensures Leaves(Dropped(s, a), Step(s, Go(a)), Owned(s.uses[a]))
  {
    hide InvWith, Sought, Renewed, Scanned, Put, Leaves;
    var t, u := Dropped(s, a), s.uses[a];
    DropKeepsInv(s, a);
    match u
    case Look(k) => SeekKeepsInv(t, a, k);
    case Need(k) => RenewKeepsInv(t, a, k);
    case Claim(k, b) => ScanKeepsInv(t, a, k, b, 0);
    case Flushed(k, b, e) =>
      PutKeepsInv(t, e, {b, e});
      PutIs(t, e);
      assert {b, e} - {e} == {b};
      ScanKeepsInv(Put(t, e), a, k, b, 0);
      PutLeaves(t, e, {b, e});
      LeavesLess(Put(t, e), Scanned(Put(t, e), a, k, b, 0), {b}, {b, e});
      LeavesMore(t, Put(t, e), Scanned(Put(t, e), a, k, b, 0), {b, e});
    case Wrote(k, b) =>
      PutKeepsInv(t, b, {b});
      PutLeaves(t, b, {b});
      assert {b} - {b} == {};
    case _ =>
      GiveLeaves(t, a, u, Owned(u));
      GiveKeepsInv(t, a, u, Owned(u));
      assert Owned(u) - Owned(u) == {};
  }

  lemma PutLeaves(s: State, b: nat, hand: set<nat>)
    requires b in hand && b < |s.buf|
    ensures Leaves(s, Put(s, b), hand)
  {
    hide Put;
    PutIs(s, b);
  }

  lemma GiveLeaves(s: State, a: nat, u: Use, hand: set<nat>)
    requires a !in s.uses
    ensures Leaves(s, Given(s, a, u), hand)
  {
  }

  lemma LeavesLess(s: State, t: State, some: set<nat>, hand: set<nat>)
    requires Leaves(s, t, some) && some <= hand
    ensures Leaves(s, t, hand)
  {
  }

  lemma PutIs(s: State, b: nat)
    requires b < |s.buf|
    ensures var t := Put(s, b);
      && t.buf == s.buf[b := s.buf[b].(wanted := false, busy := false, async := false)] && t.uses.Keys == s.uses.Keys
          && t.flight == s.flight && t.latest == s.latest && t.disk == s.disk
    ensures forall a :: a in s.uses && s.uses[a].Hold? ==> Put(s, b).uses[a] == s.uses[a]
  {
  }

  lemma UseKeepsInv(s: State, a: nat, op: Op)
    requires Inv(s) && a in s.uses && s.uses[a].Hold?
    ensures Inv(Step(s, Does(a, op)))
  {
    hide InvWith, Put, Started, Stored, Fetched;
    var t, k, b := Dropped(s, a), s.uses[a].k, s.uses[a].b;
    DropKeepsInv(s, a);
    assert {b} - {b} == {};
    if op.Brelse? {
      PutKeepsInv(t, b, {b});
    } else if k.NoDev? {
      GiveKeepsInv(t, a, Hold(k, b), {b});
    } else if op.Bread? || op.Breada? {
      if t.buf[b].done {
        if op.Bread? {
          GiveKeepsInv(t, a, Hold(k, b), {b});
        } else {
          PutKeepsInv(t, b, {b});
        }
      } else {
        FetchKeepsInv(t, b, op.Breada?, {b});
        FetchedIs(t, b);
        if op.Bread? {
          GiveKeepsInv(Fetched(t, b, false), a, Reading(k, b), {b});
        }
      }
    } else {
      StoreKeepsInv(t, b, op.d, {b});
      StoredIs(t, b, op.d);
      if op.Bdwrite? {
        PutKeepsInv(Stored(t, b, op.d), b, {b});
      } else {
        StartKeepsInv(Stored(t, b, op.d), b, op.Bawrite?, {b});
        WriteIs(Stored(t, b, op.d), b);
        if op.Bwrite? {
          GiveKeepsInv(Started(Stored(t, b, op.d), b, false), a, Writing(k, b), {b});
        }
      }
    }
  }

  lemma FetchedIs(s: State, b: nat)
    requires b < |s.buf|
    ensures Fetched(s, b, false).uses == s.uses && Flies(Fetched(s, b, false), s.buf[b].key, b, true)
  {
  }

  lemma StoredIs(s: State, b: nat, d: Block)
    requires b < |s.buf|
    ensures var t := Stored(s, b, d);
      t.buf == s.buf[b := s.buf[b].(data := d, done := true, delwri := true)] && t.uses == s.uses
      && t.flight == s.flight
  {
  }

  lemma WriteIs(s: State, b: nat)
    requires b < |s.buf|
    ensures Started(s, b, false).uses == s.uses && Flies(Started(s, b, false), s.buf[b].key, b, false)
  {
  }

  lemma {:induction false} FlushKeepsInv(s: State, dev: int)
    requires Inv(s)
    ensures Inv(Flush(s, dev))
    ensures Leaves(s, Flush(s, dev), {})
    decreases |s.lru| + |s.age|
  {
    hide InvWith, Taken, Started;
    var c := s.lru + s.age;
    var j := Dirty(s, c, dev, 0);
    if j < |c| {
      AllFree(s, {}, c[j]);
      TakenIs(s, c[j]);
      CleanKeepsInv(s, c[j], {});
      StartedIs(Taken(s, c[j]), c[j]);
      Shorter(s, c[j]);
      FlushKeepsInv(Started(Taken(s, c[j]), c[j], true), dev);
    }
  }

  lemma StepKeepsInv(s: State, e: Event)
    requires Inv(s)
    ensures Inv(Step(s, e))
  {
    hide InvWith, Inv, Sought, Renewed, Gone, Used, Biodone, Flush;
    match e
    case Getblk(a, dev, blkno) =>
      if a !in s.uses {
        SeekKeepsInv(s, a, Blk(dev, Clip(blkno)));
      }
    case Geteblk(a) =>
      if a !in s.uses {
        RenewKeepsInv(s, a, NoDev);
      }
    case Go(a) =>
      if a in s.uses {
        GoKeepsInv(s, a);
      }
    case Does(a, op) =>
      if a in s.uses && s.uses[a].Hold? {
        UseKeepsInv(s, a, op);
      }
    case Iodone(b) =>
      if b in s.flight {
        DoneKeepsInv(s, b);
      }
    case Bflush(dev) =>
      FlushKeepsInv(s, dev);
  }

  /** At every point of every run, with any number of processes. */
  lemma {:induction false} RunKeepsInv(s: State, es: seq<Event>)
    requires Inv(s)
    ensures Inv(Run(s, es))
    decreases |es|
  {
    if es != [] {
      StepKeepsInv(s, es[0]);
      RunKeepsInv(Step(s, es[0]), es[1..]);
    }
  }

  lemma ScannedIs(s: State, a: nat, k: Key, b: nat, i: nat)
    ensures Scanned(s, a, k, b, i) ==
      var c := ChainAt(s.chain, Home(k));
      if i >= |c| then Given(Sized(s, b), a, Hold(k, b))
      else if c[i] == b || !Same(At(s, c[i]), k) then Scanned(s, a, k, b, i + 1)
      else
        var t := Displaced(s, a, k, b, c[i]);
        if At(s, c[i]).busy || At(s, c[i]).delwri then t else Scanned(t, a, k, b, i + 1)
  {
    hide Sized, Taken, Put, Spoilt, Started, Wanted;
  }
}
