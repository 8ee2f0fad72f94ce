/**
 The three lists the slots of the process table are on, and the chains of the pid hash.
 */
module ProcLists {
  import opened Links
  import opened Seqs

  const ALLPROC := -1       // what p_prev holds for the first process of a list: the address of the list head
  const ZOMBPROC := -2

  /** p_nxt and p_prev of each slot, and the three list heads; p_prev is the slot whose p_nxt it is, or a list head. */
  datatype Lists = Lists(nxt: seq<int>, prev: seq<int>, allproc: int, zombproc: int, freeproc: int)

  ghost predicate Apart(c: seq<int>, d: seq<int>) {
    forall x <- c :: x !in d
  }

  /** The lists are `all`, `zomb` and `free`, and no slot is on two of them. */
  ghost predicate ListsAre(l: Lists, all: seq<int>, zomb: seq<int>, free: seq<int>) {
    && |l.nxt| == |l.prev|
    && Chain(l.nxt, l.allproc, all, NIL) && Back(l.prev, all, ALLPROC)
    && Chain(l.nxt, l.zombproc, zomb, NIL) && Back(l.prev, zomb, ZOMBPROC)
    && Chain(l.nxt, l.freeproc, free, NIL)
    && Apart(all, zomb) && Apart(all, free) && Apart(zomb, free)
  }

  predicate Slot(l: Lists, x: int) {
    0 <= x < |l.nxt| && 0 <= x < |l.prev|
  }

  /** What `p` is reached through is made to lead to what comes after it, and that to point back there. */
  function Off(l: Lists, p: int): Lists
    requires Slot(l, p) && (l.prev[p] >= 0 ==> Slot(l, l.prev[p])) && (l.nxt[p] != NIL ==> Slot(l, l.nxt[p]))
  {
    var m :=
      if l.prev[p] == ALLPROC then l.(allproc := l.nxt[p])
      else if l.prev[p] == ZOMBPROC then l.(zombproc := l.nxt[p])
      else if l.prev[p] >= 0 then l.(nxt := l.nxt[l.prev[p] := l.nxt[p]])
      else l;
    if l.nxt[p] != NIL then m.(prev := m.prev[l.nxt[p] := l.prev[p]]) else m
  }

  /** A slot on no list put in front of the zombies. */
  function OntoZomb(l: Lists, p: int): Lists
    requires Slot(l, p) && (l.zombproc != NIL ==> Slot(l, l.zombproc))
  {
    l.(nxt := l.nxt[p := l.zombproc], prev := (if l.zombproc != NIL then l.prev[l.zombproc := p]
      else l.prev)[p := ZOMBPROC], zombproc := p)
  }

  function OntoAll(l: Lists, p: int): Lists
    requires Slot(l, p) && Slot(l, l.allproc)
  {
    l.(nxt := l.nxt[p := l.allproc], prev := l.prev[l.allproc := p][p := ALLPROC], allproc := p)
  }

  function OntoFree(l: Lists, p: int): Lists
    requires Slot(l, p)
  {
    l.(nxt := l.nxt[p := l.freeproc], freeproc := p)
  }

  function OffFree(l: Lists): Lists
    requires Slot(l, l.freeproc)
  {
    l.(freeproc := l.nxt[l.freeproc])
  }

  /** The links at a place on a doubly linked list. */
  lemma OnList(l: Lists, c: seq<int>, head: int, at: int, i: nat)
    requires Chain(l.nxt, head, c, NIL) && Back(l.prev, c, at) && |l.nxt| == |l.prev| && i < |c| && at < 0
    ensures Slot(l, c[i]) && l.prev[c[i]] == (if i == 0 then at else c[i - 1])
      && l.nxt[c[i]] == (if i + 1 < |c| then c[i + 1] else NIL)
    ensures (i > 0 ==> Slot(l, c[i - 1])) && (i + 1 < |c| ==> Slot(l, c[i + 1]) && c[i + 1] != NIL)
  {
    ChainAt(l.nxt, head, c, NIL, i);
    BackAt(l.prev, c, at, i);
    if i > 0 {
      ChainAt(l.nxt, head, c, NIL, i - 1);
    }
    if i + 1 < |c| {
      ChainAt(l.nxt, head, c, NIL, i + 1);
    }
  }

  /** A list and its head are all a change elsewhere has to leave alone. */
  lemma OtherList(l: Lists, m: Lists, c: seq<int>, head: int, at: int)
    requires Chain(l.nxt, head, c, NIL) && Back(l.prev, c, at) && |l.nxt| == |m.nxt| && |l.prev| == |m.prev|
    requires forall x <- c ::
      (0 <= x < |l.nxt| ==> m.nxt[x] == l.nxt[x])
      && (0 <= x < |l.prev| ==> m.prev[x] == l.prev[x])
    ensures Chain(m.nxt, head, c, NIL) && Back(m.prev, c, at)
  {
    ChainFrame(l.nxt, m.nxt, head, c, NIL);
    BackFrame(l.prev, m.prev, c, at);
  }

  lemma OffList(l: Lists, c: seq<int>, head: int, at: int, i: nat)
    requires Chain(l.nxt, head, c, NIL) && Back(l.prev, c, at) && |l.nxt| == |l.prev| && i < |c| && at < 0
    requires Slot(l, c[i]) && (l.prev[c[i]] >= 0 ==> Slot(l, l.prev[c[i]]))
      && (l.nxt[c[i]] != NIL ==> Slot(l, l.nxt[c[i]]))
    ensures Chain(Off(l, c[i]).nxt, if i == 0 then l.nxt[c[i]] else head, Removed(c, i), NIL)
      && Back(Off(l, c[i]).prev, Removed(c, i), at)
  {
    hide Chain, Back;
    OnList(l, c, head, at, i);
    ChainLess(l.nxt, head, c, NIL, i);
    IsDistinct(l.nxt, head, c);
    BackLess(l.prev, c, at, i);
  }

  lemma IsDistinct(next: seq<int>, head: int, c: seq<int>)
    requires Chain(next, head, c, NIL)
    ensures Distinct(c) && head == Head(c, NIL)
  {
  }

  lemma OffAllIs(l: Lists, all: seq<int>, zomb: seq<int>, free: seq<int>, i: nat)
    requires ListsAre(l, all, zomb, free) && i < |all|
    ensures Slot(l, all[i]) && (l.prev[all[i]] >= 0 ==> Slot(l, l.prev[all[i]]))
      && (l.nxt[all[i]] != NIL ==> Slot(l, l.nxt[all[i]]))
    ensures ListsAre(Off(l, all[i]), Removed(all, i), zomb, free)
  {
    hide Chain, Back;
    var p := all[i];
    OnList(l, all, l.allproc, ALLPROC, i);
    OffList(l, all, l.allproc, ALLPROC, i);
    IsDistinct(l.nxt, l.allproc, all);
    RemovedHas(all, i);
    var m := Off(l, p);
    assert l.prev[p] >= 0 ==> l.prev[p] in all;
    assert l.nxt[p] != NIL ==> l.nxt[p] in all;
    OtherList(l, m, zomb, l.zombproc, ZOMBPROC);
    ChainFrame(l.nxt, m.nxt, l.freeproc, free, NIL);
  }

  lemma OffZombIs(l: Lists, all: seq<int>, zomb: seq<int>, free: seq<int>, i: nat)
    requires ListsAre(l, all, zomb, free) && i < |zomb|
    ensures Slot(l, zomb[i]) && (l.prev[zomb[i]] >= 0 ==> Slot(l, l.prev[zomb[i]]))
      && (l.nxt[zomb[i]] != NIL ==> Slot(l, l.nxt[zomb[i]]))
    ensures ListsAre(Off(l, zomb[i]), all, Removed(zomb, i), free)
  {
    hide Chain, Back;
    var p := zomb[i];
    OnList(l, zomb, l.zombproc, ZOMBPROC, i);
    OffList(l, zomb, l.zombproc, ZOMBPROC, i);
    IsDistinct(l.nxt, l.zombproc, zomb);
    RemovedHas(zomb, i);
    var m := Off(l, p);
    assert l.prev[p] >= 0 ==> l.prev[p] in zomb;
    assert l.nxt[p] != NIL ==> l.nxt[p] in zomb;
    OtherList(l, m, all, l.allproc, ALLPROC);
    ChainFrame(l.nxt, m.nxt, l.freeproc, free, NIL);
  }

  lemma OntoZombIs(l: Lists, all: seq<int>, zomb: seq<int>, free: seq<int>, p: int)
    requires ListsAre(l, all, zomb, free) && Slot(l, p) && p !in all && p !in zomb && p !in free
    ensures l.zombproc != NIL ==> Slot(l, l.zombproc)
    ensures ListsAre(OntoZomb(l, p), all, [p] + zomb, free)
  {
    hide Chain, Back;
    IsDistinct(l.nxt, l.zombproc, zomb);
    if zomb != [] {
      OnList(l, zomb, l.zombproc, ZOMBPROC, 0);
    }
    ChainPush(l.nxt, l.zombproc, zomb, NIL, p);
    BackPush(l.prev, zomb, ZOMBPROC, p);
    var m := OntoZomb(l, p);
    OtherList(l, m, all, l.allproc, ALLPROC);
    ChainFrame(l.nxt, m.nxt, l.freeproc, free, NIL);
  }

  lemma OntoAllIs(l: Lists, all: seq<int>, zomb: seq<int>, free: seq<int>, p: int)
    requires ListsAre(l, all, zomb, free) && Slot(l, p) && p !in all && p !in zomb && p !in free && all != []
    ensures Slot(l, l.allproc) && ListsAre(OntoAll(l, p), [p] + all, zomb, free)
  {
    hide Chain, Back;
    IsDistinct(l.nxt, l.allproc, all);
    OnList(l, all, l.allproc, ALLPROC, 0);
    ChainPush(l.nxt, l.allproc, all, NIL, p);
    BackPush(l.prev, all, ALLPROC, p);
    var m := OntoAll(l, p);
    OtherList(l, m, zomb, l.zombproc, ZOMBPROC);
    ChainFrame(l.nxt, m.nxt, l.freeproc, free, NIL);
  }

  lemma OntoFreeIs(l: Lists, all: seq<int>, zomb: seq<int>, free: seq<int>, p: int)
    requires ListsAre(l, all, zomb, free) && Slot(l, p) && p !in all && p !in zomb && p !in free
    ensures ListsAre(OntoFree(l, p), all, zomb, [p] + free)
  {
    hide Chain, Back;
    ChainPush(l.nxt, l.freeproc, free, NIL, p);
    var m := OntoFree(l, p);
    OtherList(l, m, all, l.allproc, ALLPROC);
    OtherList(l, m, zomb, l.zombproc, ZOMBPROC);
  }

  lemma OffFreeIs(l: Lists, all: seq<int>, zomb: seq<int>, free: seq<int>)
    requires ListsAre(l, all, zomb, free) && free != []
    ensures Slot(l, l.freeproc) && l.freeproc == free[0] && ListsAre(OffFree(l), all, zomb, free[1..])
    ensures free[0] !in all && free[0] !in zomb && free[0] !in free[1..]
  {
    hide Back;
    ChainAt(l.nxt, l.freeproc, free, NIL, 0);
    ChainLess(l.nxt, l.freeproc, free, NIL, 0);
    assert Removed(free, 0) == free[1..];
    RemovedHas(free, 0);
  }

  /** p_idhash of each slot and the heads of the hash chains; 0 ends a chain. */
  datatype Hash = Hash(idhash: seq<int>, pidhash: seq<int>)

  /** The chains are `b`, and no slot is on two of them. */
  ghost predicate ChainsAre(h: Hash, b: seq<seq<int>>) {
    && |h.pidhash| == |b|
    && (forall n :: 0 <= n < |b| ==> Chain(h.idhash, h.pidhash[n], b[n], 0))
    && forall m, n :: 0 <= m < n < |b| ==> Apart(b[m], b[n])
  }

  function Hashed(h: Hash, n: nat, x: int): Hash
    requires n < |h.pidhash| && 0 <= x < |h.idhash|
  {
    Hash(h.idhash[x := h.pidhash[n]], h.pidhash[n := x])
  }

  lemma HashedIs(h: Hash, b: seq<seq<int>>, n: nat, x: int)
    requires ChainsAre(h, b) && n < |b| && 0 < x < |h.idhash| && forall m :: 0 <= m < |b| ==> x !in b[m]
    ensures ChainsAre(Hashed(h, n, x), b[n := [x] + b[n]])
  {
    hide Chain;
    ChainPush(h.idhash, h.pidhash[n], b[n], 0, x);
    var g, c := Hashed(h, n, x), b[n := [x] + b[n]];
    forall m | 0 <= m < |c|
      ensures Chain(g.idhash, g.pidhash[m], c[m], 0)
    {
      if m != n {
        ChainFrame(h.idhash, g.idhash, h.pidhash[m], b[m], 0);
      }
    }
  }

  /** The `i`th slot taken off the chain of hash `n`. */
  function Unhashed(h: Hash, b: seq<seq<int>>, n: nat, i: nat): Hash
    requires n < |h.pidhash| == |b| && i < |b[n]| && 0 <= b[n][i] < |h.idhash|
      && (i > 0 ==> 0 <= b[n][i - 1] < |h.idhash|)
  {
    if i == 0 then h.(pidhash := h.pidhash[n := h.idhash[b[n][0]]])
    else h.(idhash := h.idhash[b[n][i - 1] := h.idhash[b[n][i]]])
  }

  lemma UnhashedIs(h: Hash, b: seq<seq<int>>, n: nat, i: nat)
    requires ChainsAre(h, b) && n < |b| && i < |b[n]|
    ensures 0 <= b[n][i] < |h.idhash| && (i > 0 ==> 0 <= b[n][i - 1] < |h.idhash|)
    ensures ChainsAre(Unhashed(h, b, n, i), b[n := Removed(b[n], i)])
    ensures Distinct(b[n])
  {
    ChainLess(h.idhash, h.pidhash[n], b[n], 0, i);
    assert Distinct(b[n]);
    RemovedHas(b[n], i);
    hide Chain;
    var g, c := Unhashed(h, b, n, i), b[n := Removed(b[n], i)];
    forall m | 0 <= m < |c|
      ensures Chain(g.idhash, g.pidhash[m], c[m], 0)
    {
      if m != n && i > 0 {
        assert b[n][i - 1] in b[n];
        ChainFrame(h.idhash, g.idhash, h.pidhash[m], b[m], 0);
      }
    }
  }

  lemma HashAt(h: Hash, b: seq<seq<int>>, n: nat, i: nat)
    requires ChainsAre(h, b) && n < |b| && i < |b[n]|
    ensures 0 < b[n][i] < |h.idhash| && h.idhash[b[n][i]] == if i + 1 < |b[n]| then b[n][i + 1] else 0
  {
    ChainAt(h.idhash, h.pidhash[n], b[n], 0, i);
  }

  lemma HashHead(h: Hash, b: seq<seq<int>>, n: nat)
    requires ChainsAre(h, b) && n < |b|
    ensures n < |h.pidhash| && h.pidhash[n] == Head(b[n], 0) && Distinct(b[n])
  {
  }
}
