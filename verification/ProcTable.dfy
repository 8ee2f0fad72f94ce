/**
 The process table: fork, exit and wait as they rewrite the tree, the lists and the pid hash, and the walk over a
 subtree.
 */
module ProcTable {
  import opened Links
  import opened ProcLists
  import opened ProcTree
  import opened Seqs

  const SIGTSTP := 18
  const SIGTTIN := 21
  const SIGTTOU := 22

  /** p_stat, as far as it says which list a slot is on. */
  datatype Stat = Free | Run | Zombie

  /** Some processes have lost the stop signals of the terminal from those pending, and nothing else has changed. */
  ghost predicate SigCleared(sig: seq<set<int>>, was: seq<set<int>>, who: seq<int>) {
    |sig| == |was| && forall x :: 0 <= x < |sig| ==>
      sig[x] == if x in who then was[x] - {SIGTSTP, SIGTTIN, SIGTTOU} else was[x]
  }

  /** What a slot is: on which list, and whether it is a process of the tree; a zombie has no children. */
  ghost predicate Placed(stat: seq<Stat>, p: int, live: set<int>, kids: seq<seq<int>>, all: seq<int>, zomb: seq<int>,
        free: seq<int>)
    requires 0 <= p < |stat| == |kids|
  {
    match stat[p]
    case Free => p in free && p !in live
    case Run => p in all && p in live
    case Zombie => p in zomb && p in live && kids[p] == []
  }

  /** PIDHASH. */
  function Bucket(pid: int, size: nat): (n: nat)
    requires size > 0
    ensures n < size
  {
    pid % size
  }

  ghost predicate AllPlaced(stat: seq<Stat>, live: set<int>, kids: seq<seq<int>>, all: seq<int>, zomb: seq<int>,
        free: seq<int>)
    requires |stat| == |kids|
  {
    forall p :: 0 <= p < |stat| ==> Placed(stat, p, live, kids, all, zomb, free)
  }

  /** The hash chains hold exactly the processes that run, but for slot 0, each under its pid. */
  ghost predicate HashHolds(stat: seq<Stat>, pid: seq<int>, chains: seq<seq<int>>, size: nat)
    requires 0 < size == |chains| && |pid| == |stat|
  {
    && (forall p :: 0 < p < |stat| && stat[p] == Run ==> p in chains[Bucket(pid[p], size)])
    && forall n, x :: 0 <= n < size && x in chains[n] ==> RunsUnder(stat, pid, size, n, x)
  }

  predicate RunsUnder(stat: seq<Stat>, pid: seq<int>, size: nat, n: int, x: int)
    requires 0 < size && |pid| == |stat|
  {
    0 < x < |stat| && stat[x] == Run && n == Bucket(pid[x], size)
  }

  /** No two processes have one pid, and each knows that of its parent. */
  ghost predicate PidsOk(pid: seq<int>, ppid: seq<int>, pptr: seq<int>, live: set<int>) {
    && 0 < |pid| == |ppid| == |pptr| && pid[0] == 0 && ppid[0] == 0 && (forall p <- live :: 0 <= p < |pid|)
    && (forall p <- live :: p != 0 ==> 0 < pid[p] && 0 <= pptr[p] < |pid| && ppid[p] == pid[pptr[p]])
    && forall p, q :: p in live && q in live && p != q ==> pid[p] != pid[q]
  }

  /** Slot 0 runs; slot 1 is the first to be taken, by its child of pid 1, and everyone else is younger. */
  ghost predicate Begun(stat: seq<Stat>, pid: seq<int>, pptr: seq<int>, birth: seq<nat>, live: set<int>,
        free: seq<int>) {
    && 1 < |stat| == |pid| == |pptr| == |birth| && stat[0] == Run && birth[0] == 0
    && if stat[1] == Free then live == {0} && free != [] && free[0] == 1
       else stat[1] == Run && birth[1] == 1 && pid[1] == 1 && pptr[1] == 0 && forall p <- live :: 1 < p < |birth| ==>
         1 < birth[p]
  }

  /** What the table stands for: the tree with the processes in it, the three lists, and the hash chains. */
  datatype Book = Book(shape: Shape, live: set<int>, all: seq<int>, zomb: seq<int>, free: seq<int>,
        chains: seq<seq<int>>)

  /** The fields of the slots but for the links. */
  datatype Slots = Slots(pid: seq<int>, ppid: seq<int>, stat: seq<Stat>)

  ghost predicate Sizes(l: Lists, h: Hash, s: Slots, g: Book, size: nat) {
    1 < |g.shape.kids| == |s.stat| == |s.pid| == |s.ppid| == |l.nxt| == |h.idhash| && 0 < size == |g.chains|
  }

  /** The links form a tree, each slot is on one list, the hash holds those that run, and pids tell processes. */
  ghost predicate Good(t: Tree, l: Lists, h: Hash, s: Slots, g: Book, size: nat) {
    && Sizes(l, h, s, g, size)
    && TreeOk(t, g.shape, g.live) && ListsAre(l, g.all, g.zomb, g.free) && ChainsAre(h, g.chains)
    && AllPlaced(s.stat, g.live, g.shape.kids, g.all, g.zomb, g.free) && HashHolds(s.stat, s.pid, g.chains, size)
    && PidsOk(s.pid, s.ppid, t.pptr, g.live) && Begun(s.stat, s.pid, t.pptr, g.shape.birth, g.live, g.free)
        && (s.stat[1] == Free ==> g.shape.clock == 0)
  }

  class Table {
    const size: nat               // PIDHSZ
    var tree: Tree
    var lists: Lists
    var hash: Hash
    var slots: Slots
    var xstat: seq<int>
    var sig: seq<set<int>>        // p_sig
    ghost var book: Book

    ghost predicate Valid()
      reads this
    {
      Good(tree, lists, hash, slots, book, size) && |xstat| == |sig| == |slots.stat|
    }

    /** The table as it comes up: slot 0 runs, and pqinit has put the others on the free list in their order. */
    constructor (nproc: nat, size: nat)
      requires 1 < nproc && 0 < size
      ensures Valid() && this.size == size && |book.shape.kids| == nproc && book.live == {0} && book.all == [0]
        && book.zomb == []
      ensures book.free == seq(nproc - 1, i => i + 1) && book.chains == seq(size, _ => [])
      ensures slots == Slots(seq(nproc, _ => 0), seq(nproc, _ => 0), seq(nproc, i => if i == 0 then Run else Free))
    {
      var none, zero := seq(nproc, _ => NIL), seq(nproc, _ => 0);
      this.size := size;
      tree := Tree(none, none, none, none);
      hash := Hash(zero, seq(size, _ => 0));
      slots := Slots(zero, zero, seq(nproc, i => if i == 0 then Run else Free));
      xstat := zero;
      sig := seq(nproc, _ => {});
      var nxt, freeproc := Pqinit(nproc);
      lists := Lists(nxt, seq(nproc, _ => ALLPROC), 0, NIL, freeproc);
      book := Book(Shape(seq(nproc, _ => []), seq(nproc, _ => 0), 0), {0}, [0], [], seq(nproc - 1, i => i + 1),
        seq(size, _ => []));
      FreshGood(nproc, size, nxt, freeproc);
    }

    /** The loop of pqinit. */
    static method Pqinit(nproc: nat) returns (nxt: seq<int>, freeproc: int)
      requires 1 < nproc
      ensures |nxt| == nproc && nxt[0] == NIL && Chain(nxt, freeproc, seq(nproc - 1, i => i + 1), NIL)
    {
      nxt, freeproc := seq(nproc, _ => NIL), NIL;
      var p := nproc - 1;
      ghost var c: seq<int> := [];
      while p > 0
        invariant 0 <= p < nproc == |nxt| && Chain(nxt, freeproc, c, NIL) && nxt[0] == NIL && |c| == nproc - 1 - p
          && forall i :: 0 <= i < |c| ==> c[i] == p + 1 + i
        decreases p
      {
        ChainPush(nxt, freeproc, c, NIL, p);
        c := [p] + c;
        nxt := nxt[p := freeproc];
        freeproc := p;
        p := p - 1;
      }
      assert c == seq(nproc - 1, i => i + 1);
    }

    /**
     spgrp: every process from `top` down, and no other, has the three stop signals of the terminal taken off those it
     has pending; and how many processes those are. `u` is the tree, of which the links may be wrong at one slot that
     is older.
     */
    method Spgrp(top: int, ghost u: Tree, ghost hole: int) returns (f: nat)
      requires TreeOk(u, book.shape, book.live) && Astray(tree, u, hole) && top in book.live
        && |sig| == |book.shape.kids|
      requires 0 <= hole < |book.shape.kids| ==> book.shape.birth[hole] < book.shape.birth[top]
      modifies this`sig
      ensures Distinct(Pre(book.shape, top)) && f == |Pre(book.shape, top)|
      ensures forall x <- book.live :: x in Pre(book.shape, top) <==> Under(u, book.shape, book.live, x, top)
      ensures SigCleared(sig, old(sig), Pre(book.shape, top))
    {
      f := Walk(top, u, hole);
      WalkIsSubtree(u, book.shape, book.live, top);
    }

    /** The loop of spgrp. */
    method Walk(top: int, ghost u: Tree, ghost hole: int) returns (f: nat)
      requires TreeOk(u, book.shape, book.live) && Astray(tree, u, hole) && top in book.live
        && |sig| == |book.shape.kids|
      requires 0 <= hole < |book.shape.kids| ==> book.shape.birth[hole] < book.shape.birth[top]
      modifies this`sig
      ensures f == |Pre(book.shape, top)| && SigCleared(sig, old(sig), Pre(book.shape, top))
    {
      hide TreeOk, Pre, PreFrom, Rest, Leads, Pending, Astray, Ordered, OkPath, Under, SigCleared;
      ghost var s, was := book.shape, sig;
      NoneCleared(sig);
      Begin(u, s, book.live, top, tree, hole);
      LiveIn(u, s, book.live);
      f := 0;
      var p := top;
      ghost var path: seq<Level>, seen: seq<int> := [], [];
      while true
        invariant p in book.live && 0 <= p < |s.kids| == |sig| && OkPath(s, path) && Leads(s, path, p, top)
        invariant Pre(s, top) == seen + Rest(s, p, path) && f == |seen|
        invariant SigCleared(sig, was, seen)
        decreases |Pre(s, top)| - |seen|
      {
        LeadsDown(s, path, p, top);
        LinksAt(u, s, book.live, path, p, top);
        SameLinks(tree, u, s, hole, p);
        Descend(s, path, p, top);
        OneCleared(sig, was, seen, p);
        sig := sig[p := sig[p] - {SIGTSTP, SIGTTIN, SIGTTOU}];
        f := f + 1;
        seen := seen + [p];
        if tree.cptr[p] != NIL {
          LinksAt(u, s, book.live, [Level(p, 0)] + path, tree.cptr[p], top);
          path := [Level(p, 0)] + path;
          p := tree.cptr[p];
        } else if p == top {
          EndOfPath(s);
          assert Pre(s, top) == seen + Pending(s, path) && path == [] && seen + [] == seen;
          return;
        } else if tree.osptr[p] != NIL {
          Sideways(s, path, p, top);
          path := [Level(path[0].parent, path[0].index + 1)] + path[1..];
          p := tree.osptr[p];
        } else {
          var done;
          done, p, path := Climb(p, top, u, path, seen, hole);
          if done {
            return;
          }
        }
      }
    }

    /**
     The inner loop of spgrp: up to the first process on the way to the top that has an older sibling; `done` if there
     is none below the top.
     */
    method Climb(from: int, top: int, ghost u: Tree, ghost way: seq<Level>, ghost seen: seq<int>, ghost hole: int)
          returns (done: bool, p: int, ghost path: seq<Level>)
      requires TreeOk(u, book.shape, book.live) && Astray(tree, u, hole) && top in book.live
        && 0 <= top < |book.shape.kids| && from in book.live
      requires OkPath(book.shape, way) && Leads(book.shape, way, from, top) && way != []
        && 0 <= from < |book.shape.kids| <= |tree.osptr| && tree.osptr[from] == NIL
      requires Pre(book.shape, top) == seen + Pending(book.shape, way)
      requires 0 <= hole < |book.shape.kids| ==> book.shape.birth[hole] < book.shape.birth[top]
      ensures done ==> Pre(book.shape, top) == seen
      ensures !done ==>
        p in book.live && 0 <= p < |book.shape.kids| && OkPath(book.shape, path) && Leads(book.shape, path, p, top)
        && Pre(book.shape, top) == seen + Rest(book.shape, p, path)
    {
      hide TreeOk, Pre, PreFrom, Rest, Leads, Pending, Astray, Ordered, OkPath;
      ghost var s := book.shape;
      Begin(u, s, book.live, top, tree, hole);
      LiveIn(u, s, book.live);
      p, path := from, way;
      LeadsDown(s, path, p, top);
      while true
        invariant p in book.live && 0 <= p < |s.kids| && OkPath(s, path) && Leads(s, path, p, top) && p != top
          && path != [] && tree.osptr[p] == NIL
        invariant Pre(s, top) == seen + Pending(s, path)
        decreases |path|
      {
        LeadsDown(s, path, p, top);
        LinksAt(u, s, book.live, path, p, top);
        SameLinks(tree, u, s, hole, p);
        Sideways(s, path, p, top);
        p := tree.pptr[p];
        path := path[1..];
        LeadsDown(s, path, p, top);
        if p == top {
          EndOfPath(s);
          return true, p, path;
        }
        LinksAt(u, s, book.live, path, p, top);
        SameLinks(tree, u, s, hole, p);
        if tree.osptr[p] != NIL {
          Sideways(s, path, p, top);
          p := tree.osptr[p];
          path := [Level(path[0].parent, path[0].index + 1)] + path[1..];
          return false, p, path;
        }
      }
    }

    /** The lines of newproc that link the new process into the tree. */
    method LinkChild(p: int, x: int)
      requires Sized(tree, |tree.cptr|) && 0 <= p < |tree.cptr| && 0 <= x < |tree.cptr|
        && (tree.cptr[p] != NIL ==> 0 <= tree.cptr[p] < |tree.cptr|)
      modifies this`tree
      ensures tree == Forked(old(tree), p, x)
    {
      tree := tree.(pptr := tree.pptr[x := p]);
      tree := tree.(osptr := tree.osptr[x := tree.cptr[p]]);
      if tree.cptr[p] != NIL {
        tree := tree.(ysptr := tree.ysptr[tree.cptr[p] := x]);
      }
      tree := tree.(ysptr := tree.ysptr[x := NIL]);
      tree := tree.(cptr := tree.cptr[x := NIL]);
      tree := tree.(cptr := tree.cptr[p := x]);
    }

    /** The lines of newproc that put it on allproc. */
    method LinkAll(x: int)
      requires Slot(lists, x) && Slot(lists, lists.allproc)
      modifies this`lists
      ensures lists == OntoAll(old(lists), x)
    {
      lists := lists.(nxt := lists.nxt[x := lists.allproc]);
      lists := lists.(prev := lists.prev[lists.nxt[x] := x]);
      lists := lists.(prev := lists.prev[x := ALLPROC]);
      lists := lists.(allproc := x);
    }

    /**
     newproc, for a pid that no process has; slot 1 is given out first, for pid 1. `panic` exactly when no slot is
     free; otherwise the first free slot is the youngest child of `p`, and runs.
     */
    method Newproc(p: int, newpid: int) returns (panic: bool, x: int)
      requires Valid() && MayFork(slots, book, p, newpid)
      modifies this
      ensures Valid() && (panic <==> old(book).free == [])
      ensures panic ==> book == old(book) && slots == old(slots) && sig == old(sig) && xstat == old(xstat)
      ensures !panic ==> NewChild(old(tree), tree, old(book).live, p, x) && slots.pid[x] == newpid
      ensures !panic ==>
        ForkedBook(old(book), old(slots), book, slots, p, x, newpid) && sig == old(sig) && xstat == old(xstat)
      ensures !panic ==>
        0 < size == |old(book).chains|
        && book.chains == Pushed(old(book).chains, Bucket(newpid, size), x)
    {
      hide Good, Sizes, Forked, OntoAll, OffFree, Hashed, Bucket, MayFork;
      x := lists.freeproc;
      panic := x == NIL;
      FreeHead(tree, lists, hash, slots, book, size);
      if panic {
        return;
      }
      ForkGood(tree, lists, hash, slots, book, size, p, newpid);
      lists := lists.(freeproc := lists.nxt[x]);
      OffFreeDef(old(lists), lists);
      slots := Slots(slots.pid[x := newpid], slots.ppid[x := slots.pid[p]], slots.stat[x := Run]);
      LinkChild(p, x);
      var n := Bucket(slots.pid[x], size);
      hash := Hashed(hash, n, x);
      LinkAll(x);
      book := Book(Grown(book.shape, p, x), book.live + {x}, [x] + book.all, book.zomb, book.free[1..],
        book.chains[n := [x] + book.chains[n]]);
      ForkChild(old(tree), old(lists), old(hash), old(slots), old(book), size, this, p, newpid);
    }

    /** pfind: the process that runs under a pid; none for slot 0. */
    method Pfind(id: int) returns (p: int)
      requires Valid()
      ensures p != 0 ==> 0 < p < |slots.stat| && slots.stat[p] == Run && slots.pid[p] == id
      ensures p == 0 <==> forall q :: 0 < q < |slots.stat| && slots.stat[q] == Run ==> slots.pid[q] != id
    {
      hide Chain, TreeOk, ListsAre, AllPlaced, PidsOk, Begun, Bucket;
      ghost var n := Bucket(id, size);
      ghost var c, i := book.chains[n], 0;
      HashHead(hash, book.chains, n);
      if c != [] {
        HashAt(hash, book.chains, n, 0);
      }
      p := hash.pidhash[Bucket(id, size)];
      while p != 0
        invariant i <= |c| && p == (if i < |c| then c[i] else 0) && (i < |c| ==> p != 0)
        invariant forall j :: 0 <= j < i ==> 0 <= c[j] < |slots.pid| && slots.pid[c[j]] != id
        decreases |c| - i
      {
        HashAt(hash, book.chains, n, i);
        if i + 1 < |c| {
          HashAt(hash, book.chains, n, i + 1);
        }
        if slots.pid[p] == id {
          assert RunsUnder(slots.stat, slots.pid, size, n, p);
          return;
        }
        p := hash.idhash[p];
        i := i + 1;
      }
    }

    /** inferior: whether `p` is `me` or under it, if `me` is not slot 0; the search ends at a parent of pid 0. */
    method Inferior(p: int, me: int) returns (r: bool)
      requires Valid() && p in book.live && me in book.live
      ensures r == if me == 0 then p == 0 else Under(tree, book.shape, book.live, p, me)
    {
      hide ListsAre, ChainsAre, AllPlaced, HashHolds, PidsOk, Begun, TreeOk;
      var q := p;
      RootIn(tree, book.shape, book.live, p);
      AllParentsLive(tree, book.shape, book.live);
      while q != me
        invariant q in book.live && (me == 0 ==> q == p || q != 0)
        invariant me != 0 ==> (Under(tree, book.shape, book.live, p, me) <==> Under(tree, book.shape, book.live, q, me))
        invariant me == 0 && p != 0 ==> q != 0
        decreases book.shape.birth[q]
      {
        PidOfParent(slots, tree.pptr, book.live, q);
        if q != 0 {
          ParentOf(tree, book.shape, book.live, q);
        }
        if slots.ppid[q] == 0 {
          if me != 0 && q != 0 {
            RootNotUnder(tree, book.shape, book.live, me);
          }
          return false;
        }
        q := tree.pptr[q];
      }
      r := true;
    }

    /** The lines of wait3 that take a dead child off its brothers and parent. */
    method Unlink(x: int)
      requires Sized(tree, |tree.cptr|) && 0 <= x < |tree.cptr| && 0 <= tree.pptr[x] < |tree.cptr|
        && In(tree.osptr[x], |tree.cptr|) && In(tree.ysptr[x], |tree.cptr|)
      requires tree.ysptr[x] != x && tree.osptr[x] != x && tree.pptr[x] != x
      modifies this`tree
      ensures tree == Reaped(old(tree), x)
    {
      if tree.ysptr[x] != NIL {
        tree := tree.(osptr := tree.osptr[tree.ysptr[x] := tree.osptr[x]]);
      }
      if tree.osptr[x] != NIL {
        tree := tree.(ysptr := tree.ysptr[tree.osptr[x] := tree.ysptr[x]]);
      }
      if tree.cptr[tree.pptr[x]] == x {
        tree := tree.(cptr := tree.cptr[tree.pptr[x] := tree.osptr[x]]);
      }
      tree := Tree(tree.pptr[x := NIL], tree.cptr[x := NIL], tree.osptr[x := NIL], tree.ysptr[x := NIL]);
    }

    /** The lines of wait3, and of exit, that take a process off its list. */
    method Unqueue(p: int)
      requires Slot(lists, p) && (lists.prev[p] >= 0 ==> Slot(lists, lists.prev[p]) && lists.prev[p] != p)
        && (lists.nxt[p] != NIL ==> Slot(lists, lists.nxt[p]))
      modifies this`lists
      ensures lists == Off(old(lists), p)
    {
      if lists.prev[p] == ALLPROC {
        lists := lists.(allproc := lists.nxt[p]);
      } else if lists.prev[p] == ZOMBPROC {
        lists := lists.(zombproc := lists.nxt[p]);
      } else if lists.prev[p] >= 0 {
        lists := lists.(nxt := lists.nxt[lists.prev[p] := lists.nxt[p]]);
      }
      if lists.nxt[p] != NIL {
        lists := lists.(prev := lists.prev[lists.nxt[p] := lists.prev[p]]);
      }
    }

    /**
     wait3, but for children that are stopped: the youngest child that is a zombie is laid to rest, and its slot is the
     first to be given out again.
     */
    method Wait3(q: int) returns (r: Waited, ghost i: nat)
      requires Valid() && q in book.live
      modifies this
      ensures Valid() && 0 <= q < |old(book).shape.kids| == |old(slots).stat|
      ensures
        var kids := old(book).shape.kids[q];
        && i <= |kids| && (forall j :: 0 <= j < i ==>
            0 <= kids[j] < |old(slots).stat| && old(slots).stat[kids[j]] != Zombie)
        && (i < |kids| ==> 0 <= kids[i] < |old(slots).stat| && old(slots).stat[kids[i]] == Zombie)
        && (i == |kids| ==>
            r == (if kids == [] then NoChildren else NoneDead) && book == old(book) && slots == old(slots))
        && (i < |kids| ==>
            r == Reaping(old(slots).pid[kids[i]], old(xstat)[kids[i]])
            && ReapedBook(old(book), old(slots), book, slots, q, i))
        && (i == |kids| ==> xstat == old(xstat) && sig == old(sig))
        && (i < |kids| ==>
            |old(xstat)| == |old(sig)| == |old(slots).stat|
            && xstat == old(xstat)[kids[i] := 0] && sig == old(sig)[kids[i] := {}]
            && OthersStay(old(tree), tree, old(book).live, kids[i]))
    {
      hide Good, Sizes, Reaped, Off, OntoFree, Shrunk;
      TreeOf(tree, lists, hash, slots, book, size, q);
      ghost var kids := book.shape.kids[q];
      var p, f;
      p, f, i := DeadChild(q);
      if p != NIL {
        ReapLinks(tree, book.shape, book.live, q, i);
        ghost var k := ZombieAt(tree, lists, hash, slots, book, size, p);
        ReapGood(tree, lists, hash, slots, book, size, q, i, k);
        r := Reaping(slots.pid[p], xstat[p]);
        xstat := xstat[p := 0];
        slots := Slots(slots.pid[p := 0], slots.ppid[p := 0], slots.stat[p := Free]);
        Unqueue(p);
        lists := lists.(nxt := lists.nxt[p := lists.freeproc]);
        lists := lists.(freeproc := p);
        OntoFreeDef(Off(old(lists), p), p, lists);
        Unlink(p);
        sig := sig[p := {}];
        book := Book(Shrunk(book.shape, q, i), book.live - {p}, book.all, Removed(book.zomb, k), [p] + book.free,
          book.chains);
        ReapOthers(old(tree), old(lists), old(hash), old(slots), old(book), size, this, q, i);
      } else {
        r := if f == 0 then NoChildren else NoneDead;
      }
    }

    /** The loop of wait3: the youngest child that is a zombie, and how many children were met. */
    method DeadChild(q: int) returns (p: int, f: nat, ghost i: nat)
      requires Valid() && q in book.live
      ensures 0 <= q < |book.shape.kids| == |slots.stat|
      ensures
        var kids := book.shape.kids[q];
        && i <= |kids| && (forall j :: 0 <= j < i ==> 0 <= kids[j] < |slots.stat| && slots.stat[kids[j]] != Zombie)
        && (i < |kids| ==> p == kids[i] && 0 <= p < |slots.stat| && slots.stat[p] == Zombie)
        && (i == |kids| ==> p == NIL && f == i)
    {
      hide Good;
      TreeOf(tree, lists, hash, slots, book, size, q);
      ghost var kids := book.shape.kids[q];
      hide TreeOk;
      p, f, i := tree.cptr[q], 0, 0;
      while p != NIL
        invariant i == f <= |kids| && p == (if i < |kids| then kids[i] else NIL)
        invariant forall j :: 0 <= j < i ==> 0 <= kids[j] < |slots.stat| && slots.stat[kids[j]] != Zombie
        decreases |kids| - i
      {
        ReapLinks(tree, book.shape, book.live, q, i);
        f := f + 1;
        if slots.stat[p] == Zombie {
          return;
        }
        p := tree.osptr[p];
        i := i + 1;
      }
    }

    /** The lines of exit that put a process in front of the zombies. */
    method LinkZombie(p: int)
      requires Slot(lists, p) && (lists.zombproc != NIL ==> Slot(lists, lists.zombproc) && lists.zombproc != p)
      modifies this`lists
      ensures lists == OntoZomb(old(lists), p)
    {
      lists := lists.(nxt := lists.nxt[p := lists.zombproc]);
      if lists.nxt[p] != NIL {
        lists := lists.(prev := lists.prev[lists.nxt[p] := p]);
      }
      lists := lists.(prev := lists.prev[p := ZOMBPROC]);
      lists := lists.(zombproc := p);
    }

    /**
     The lines of exit that take a process off its hash chain; whether it was the first there, and whether it was
     there at all.
     */
    method LeaveHash(p: int, id: int, ghost j: nat) returns (first: bool, found: bool)
      requires 0 < size == |book.chains| && ChainsAre(hash, book.chains) && j < |book.chains[Bucket(id, size)]|
        && book.chains[Bucket(id, size)][j] == p
      requires 0 <= p < |hash.idhash| && (j > 0 ==> 0 <= book.chains[Bucket(id, size)][j - 1] < |hash.idhash|)
        && |hash.pidhash| == size
      modifies this`hash
      ensures found && (first <==> j == 0) && hash == Unhashed(old(hash), book.chains, Bucket(id, size), j)
    {
      hide ChainsAre, Bucket;
      ghost var n := Bucket(id, size);
      ghost var c := book.chains[n];
      HashHead(hash, book.chains, n);
      HashAt(hash, book.chains, n, 0);
      if hash.pidhash[Bucket(id, size)] == p {
        assert j == 0;
        hash := hash.(pidhash := hash.pidhash[Bucket(id, size) := hash.idhash[p]]);
        return true, true;
      }
      var i := hash.pidhash[Bucket(id, size)];
      ghost var k := 0;
      while i != 0
        invariant hash == old(hash) && k < j && i == c[k]
        decreases j - k
      {
        HashAt(hash, book.chains, n, k);
        HashAt(hash, book.chains, n, k + 1);
        if hash.idhash[i] == p {
          assert k + 1 == j;
          hash := hash.(idhash := hash.idhash[i := hash.idhash[p]]);
          return false, true;
        }
        i := hash.idhash[i];
        k := k + 1;
      }
      HashAt(hash, book.chains, n, k);
      first, found := false, false;
    }

    /** The lines of exit that make the youngest child left, `q`, the youngest of slot 1. */
    method GiveToInit(q: int)
      requires Sized(tree, |tree.cptr|) && 1 < |tree.cptr| && 0 <= q < |tree.cptr| && In(tree.osptr[q], |tree.cptr|)
        && In(tree.cptr[1], |tree.cptr|)
      modifies this`tree
      ensures
        var t := old(tree);
        var y := if t.osptr[q] == NIL then t.ysptr else t.ysptr[t.osptr[q] := NIL];
        var z := if t.cptr[1] == NIL then y else y[t.cptr[1] := q];
        tree == Tree(t.pptr[q := 1], t.cptr[1 := q], t.osptr[q := t.cptr[1]], z[q := NIL])
      ensures tree == GivenToInit(old(tree), q)
    {
      var nq := tree.osptr[q];
      if nq != NIL {
        tree := tree.(ysptr := tree.ysptr[nq := NIL]);
      }
      if tree.cptr[1] != NIL {
        tree := tree.(ysptr := tree.ysptr[tree.cptr[1] := q]);
      }
      tree := tree.(osptr := tree.osptr[q := tree.cptr[1]]);
      tree := tree.(ysptr := tree.ysptr[q := NIL]);
      tree := tree.(cptr := tree.cptr[1 := q]);
      tree := tree.(pptr := tree.pptr[q := 1]);
    }

    /** The loop of exit over the children: each goes to slot 1, and the walk below it takes the stop signals away. */
    method Orphan(p: int)
      requires TreeOk(tree, book.shape, book.live) && p in book.live && 1 in book.live && p != 1
        && |sig| == |slots.ppid| == |book.shape.kids|
      requires 0 <= p < |book.shape.birth| && 1 < |book.shape.birth| && book.shape.birth[1] < book.shape.birth[p]
        && p < |book.shape.kids| == |book.shape.birth|
      modifies this`tree, this`slots, this`sig, this`book
      ensures book == old(book).(shape := book.shape) && TreeOk(tree, book.shape, book.live)
        && book.shape == Orphaned(old(book).shape, p)
      ensures slots == old(slots).(ppid := slots.ppid)
        && Adoptions(old(book).shape.kids[p], old(slots).ppid, slots.ppid)
      ensures Adoptions(old(book).shape.kids[p], old(tree).pptr, tree.pptr)
      ensures SigCleared(sig, old(sig), PreFrom(old(book).shape, p, 0)) && |sig| == |old(sig)|
    {
      hide TreeOk, Ordered, Pre, PreFrom, SigCleared, Adopted, Moved, Adoptions, MovedUpTo, ButFor, Orphaned;
      ghost var s0, live, u := book.shape, book.live, tree;
      ghost var kids := s0.kids[p];
      ghost var i: nat, done: seq<int> := 0, [];
      OrphanStart(tree, s0, live, p, slots.ppid, sig);
      var q := tree.cptr[p];
      while q != NIL
        invariant |u.cptr| == |tree.cptr| == |slots.ppid| == |s0.kids|
        invariant i <= |kids| && TreeOk(u, book.shape, live) && MovedUpTo(s0, book.shape, p, i)
          && book == old(book).(shape := book.shape)
        invariant ButFor(tree, u, p) && tree.ysptr == u.ysptr && q == u.cptr[p] && (q == NIL <==> i == |kids|)
        invariant Adoptions(kids[..i], old(tree).pptr, tree.pptr)
        invariant slots == old(slots).(ppid := slots.ppid) && Adoptions(kids[..i], old(slots).ppid, slots.ppid)
        invariant PreFrom(s0, p, 0) == done + PreFrom(s0, p, i) && SigCleared(sig, old(sig), done) && |sig| == |s0.kids|
        decreases |kids| - i
      {
        ghost var t := tree;
        OrphanStep(t, u, s0, book.shape, live, p, i);
        var nq := tree.osptr[q];
        GiveToInit(q);
        AdoptionStep(kids, i, old(tree).pptr, t.pptr);
        AdoptionStep(kids, i, old(slots).ppid, slots.ppid);
        slots := slots.(ppid := slots.ppid[q := 1]);
        u := Adopted(u, p, 1);
        book := book.(shape := Moved(book.shape, p, 1));
        SubtreeKept(u, s0, book.shape, live, p, i);
        ghost var was := sig;
        ButForAstray(tree, u, p);
        var _ := Spgrp(q, u, p);
        SigMore(old(sig), was, sig, done, Pre(book.shape, q));
        done := done + Pre(s0, q);
        q := nq;
        i := i + 1;
      }
      HoleKept(tree, u, p);
      tree := tree.(cptr := tree.cptr[p := NIL]);
      OrphanEnd(tree, u, s0, book.shape, live, p);
      assert kids[..i] == kids && done + [] == done;
    }

    /**
     The same loop where slot 1 is the one that exits: each child becomes its own parent's youngest, behind which the
     one moved before it is looked for. The walks are not misled, as they do not leave what is below the child.
     */
    method OrphanOwn()
      requires TreeOk(tree, book.shape, book.live) && 1 in book.live && |sig| == |slots.ppid| == |book.shape.kids|
      requires 1 < |book.shape.kids| && Ordered(book.shape)
      modifies this`tree, this`slots, this`sig
      ensures Stranded(old(tree), tree, book.shape.kids[1])
      ensures slots == old(slots).(ppid := slots.ppid) && Adoptions(book.shape.kids[1], old(slots).ppid, slots.ppid)
      ensures SigCleared(sig, old(sig), PreFrom(book.shape, 1, 0)) && |sig| == |old(sig)|
    {
      hide TreeOk, Ordered, Pre, PreFrom, SigCleared, Adoptions, Stranding, Stranded, Astray;
      ghost var s, live, u := book.shape, book.live, tree;
      ghost var kids := s.kids[1];
      ghost var i: nat, done: seq<int> := 0, [];
      StrandStart(u, s, live, slots.ppid, sig);
      var q := tree.cptr[1];
      while q != NIL
        invariant |slots.ppid| == |sig| == |s.kids| && i <= |kids| && q == if i < |kids| then kids[i] else NIL
        invariant Stranding(u, tree, kids, i)
        invariant slots == old(slots).(ppid := slots.ppid) && Adoptions(kids[..i], old(slots).ppid, slots.ppid)
        invariant PreFrom(s, 1, 0) == done + PreFrom(s, 1, i) && SigCleared(sig, old(sig), done)
        decreases |kids| - i
      {
        StrandStep(u, tree, s, live, i);
        var nq := tree.osptr[q];
        GiveToInit(q);
        AdoptionStep(kids, i, old(slots).ppid, slots.ppid);
        slots := slots.(ppid := slots.ppid[q := 1]);
        ghost var was := sig;
        var _ := Spgrp(q, u, 1);
        SigMore(old(sig), was, sig, done, Pre(s, q));
        done := done + Pre(s, q);
        q := nq;
        i := i + 1;
      }
      StrandEnd(u, tree, s, i);
      tree := tree.(cptr := tree.cptr[1 := NIL]);
      assert kids[..i] == kids && done + [] == done;
    }

    /**
     exit, as far as the table goes. The process is a zombie, off its hash chain; its children are the youngest of
     slot 1, and everyone below it has lost the stop signals of the terminal. The panic for a process missing from its
     chain does not come about. The death of slot 1 is noticed only where it is the first of its chain; where it is not,
     the links of its children lead in a circle.
     */
    method Exit(p: int, rv: int) returns (r: Exited)
      requires Valid() && 0 < p < |slots.stat| && slots.stat[p] == Run
      modifies this
      ensures r != Missing
      ensures p == 1 ==> r == if FirstOfChain(old(book), size, 1) then InitDied else InitUnnoticed
      ensures r == InitUnnoticed ==> 1 < |old(book).shape.kids| && Stranded(old(tree), tree, old(book).shape.kids[1])
      ensures r == InitUnnoticed ==> OrphansCleared(sig, old(sig), old(book), 1) && xstat == old(xstat)[1 := rv]
      ensures r == InitUnnoticed ==>
        slots.pid == old(slots).pid && slots.stat == old(slots).stat[1 := Zombie]
        && Adoptions(old(book).shape.kids[1], old(slots).ppid, slots.ppid)
      ensures p != 1 ==> r == Gone && Valid() && xstat == old(xstat)[p := rv]
      ensures p != 1 ==> ExitedBook(old(book), old(slots), book, slots, p)
      ensures p != 1 ==> AllAdopted(old(tree), tree, old(book).live, p)
      ensures p != 1 ==> OrphansCleared(sig, old(sig), old(book), p)
    {
      hide Good, Sizes, Off, OntoZomb, Unhashed, Orphaned, SigCleared, Adoptions, PreFrom, Bucket, Stranded;
      ghost var t, l, h, s, g := tree, lists, hash, slots, book;
      ghost var k, j := ExitStart(t, l, h, s, g, size, p);
      Unqueue(p);
      LinkZombie(p);
      slots := slots.(stat := slots.stat[p := Zombie]);
      var first, found := LeaveHash(p, slots.pid[p], j);
      if !found {
        return Missing;
      }
      if first {
        if slots.pid[p] == 1 {
          return InitDied;
        }
      }
      xstat := xstat[p := rv];
      if p == 1 {
        OwnStart(t, l, h, s, g, size);
        OrphanOwn();
        return InitUnnoticed;
      }
      OlderInit(t, l, h, s, g, size, p);
      Orphan(p);
      book := Book(book.shape, book.live, Removed(book.all, k), [p] + book.zomb, book.free,
        book.chains[Bucket(slots.pid[p], size) := Removed(book.chains[Bucket(slots.pid[p], size)], j)]);
      ExitGood(t, l, h, s, g, size, p, k, j, tree, slots);
      ExitOrphans(t, l, h, s, g, size, this, p);
      r := Gone;
    }
  }

  lemma ForkChild(t: Tree, l: Lists, h: Hash, s: Slots, g: Book, size: nat, c: Table, p: int, newpid: int)
    requires Good(t, l, h, s, g, size) && c.Valid() && MayFork(s, g, p, newpid) && g.free != []
    requires 0 <= p < |g.shape.kids| && 0 <= g.free[0] < |g.shape.birth|
    requires c.book.shape == Grown(g.shape, p, g.free[0]) && c.book.live == g.live + {g.free[0]}
    ensures NewChild(t, c.tree, g.live, p, g.free[0])
  {
    hide TreeOk, ListsAre, ChainsAre, AllPlaced, HashHolds, PidsOk, Begun, Grown, OffFree;
    var x := g.free[0];
    RootIn(t, g.shape, g.live, p);
    OffFreeIs(l, g.all, g.zomb, g.free);
    SlotIn(l, g.all, g.zomb, g.free, x);
    SlotOf(s.stat, g.live, g.shape.kids, g.all, g.zomb, g.free, x, p);
    GrownLinks(t, g.shape, g.live, c.tree, p, x);
  }

  lemma ExitOrphans(t: Tree, l: Lists, h: Hash, s: Slots, g: Book, size: nat, c: Table, p: int)
    requires Good(t, l, h, s, g, size) && c.Valid() && 0 <= p < |g.shape.kids| && 1 < |g.shape.kids| && p != 1
    requires c.book.shape == Orphaned(g.shape, p) && c.book.live == g.live
    ensures AllAdopted(t, c.tree, g.live, p)
  {
    hide TreeOk;
    var k := g.shape.kids[p];
    forall y | y in k
      ensures y in Reversed(k)
    {
      InReversed(k, y);
    }
    AdoptedLinks(t, g.shape, g.live, c.tree, c.book.shape, p);
  }

  lemma {:induction false} InReversed(c: seq<int>, y: int)
    requires y in c
    ensures y in Reversed(c)
  {
    if y != c[|c| - 1] {
      InReversed(c[..|c| - 1], y);
    }
  }

  lemma ReapOthers(t: Tree, l: Lists, h: Hash, s: Slots, g: Book, size: nat, c: Table, q: int, i: nat)
    requires Good(t, l, h, s, g, size) && c.Valid() && 0 <= q < |g.shape.kids| && i < |g.shape.kids[q]|
    requires c.book.shape == Shrunk(g.shape, q, i) && c.book.live == g.live - {g.shape.kids[q][i]}
    ensures OthersStay(t, c.tree, g.live, g.shape.kids[q][i])
  {
    hide TreeOk;
    ShrunkLinks(t, g.shape, g.live, c.tree, q, i);
  }

  datatype Exited = Gone | InitDied | InitUnnoticed | Missing

  /** A process is the first of the hash chain of pid 1. */
  ghost predicate FirstOfChain(g: Book, size: nat, p: int) {
    0 < size == |g.chains| && g.chains[Bucket(1, size)] != [] && g.chains[Bucket(1, size)][0] == p
  }

  /** Everyone below `p`, and no other, has lost the stop signals. */
  ghost predicate OrphansCleared(sig: seq<set<int>>, was: seq<set<int>>, g: Book, p: int) {
    Ordered(g.shape) && 0 <= p < |g.shape.kids| && SigCleared(sig, was, PreFrom(g.shape, p, 0))
  }

  /** What an exit makes of the table. */
  ghost predicate ExitedBook(g: Book, s: Slots, h: Book, r: Slots, p: int) {
    && 0 <= p < |g.shape.kids| == |s.stat| && 1 < |g.shape.kids|
    && h.shape == Orphaned(g.shape, p) && h.live == g.live && h.zomb == [p] + g.zomb && h.free == g.free
    && r.pid == s.pid && r.stat == s.stat[p := Zombie] && Adoptions(g.shape.kids[p], s.ppid, r.ppid)
    && exists k :: 0 <= k < |g.all| && g.all[k] == p && h.all == Removed(g.all, k)
  }

  /** What exit finds: where the process is on allproc and on its hash chain, and the links it is about to follow. */
  lemma ExitStart(t: Tree, l: Lists, h: Hash, s: Slots, g: Book, size: nat, p: int) returns (k: nat, j: nat)
    requires Good(t, l, h, s, g, size) && 0 < p < |s.stat| && s.stat[p] == Run
    ensures k < |g.all| && g.all[k] == p && p in g.live && |s.pid| == |s.ppid| == |s.stat| == |g.shape.kids|
      && 1 < |s.pid| && 0 < size == |g.chains| == |h.pidhash|
    ensures Slot(l, p) && (l.prev[p] >= 0 ==> Slot(l, l.prev[p]) && l.prev[p] != p)
      && (l.nxt[p] != NIL ==> Slot(l, l.nxt[p])) && Slot(Off(l, p), p)
    ensures Off(l, p).zombproc != NIL ==> Slot(Off(l, p), Off(l, p).zombproc) && Off(l, p).zombproc != p
    ensures ListsAre(OntoZomb(Off(l, p), p), Removed(g.all, k), [p] + g.zomb, g.free)
    ensures ChainsAre(h, g.chains) && j < |g.chains[Bucket(s.pid[p], size)]| && g.chains[Bucket(s.pid[p], size)][j] == p
      && p < |h.idhash|
    ensures j > 0 ==> 0 <= g.chains[Bucket(s.pid[p], size)][j - 1] < |h.idhash|
    ensures (s.pid[p] == 1 <==> p == 1) && (s.pid[p] == 1 ==> (j == 0 <==> FirstOfChain(g, size, 1)))
  {
    hide TreeOk, Chain, Back, Bucket, Off, OntoZomb;
    assert Placed(s.stat, p, g.live, g.shape.kids, g.all, g.zomb, g.free);
    k :| 0 <= k < |g.all| && g.all[k] == p;
    var n := Bucket(s.pid[p], size);
    j :| 0 <= j < |g.chains[n]| && g.chains[n][j] == p;
    UnhashedIs(h, g.chains, n, j);
    HashAt(h, g.chains, n, j);
    OnList(l, g.all, l.allproc, ALLPROC, k);
    OffAllIs(l, g.all, g.zomb, g.free, k);
    AllLinks(l, g.all, g.zomb, g.free, k);
    OffSize(l, p);
    OntoZombIs(Off(l, p), Removed(g.all, k), g.zomb, g.free, p);
    ZombHead(Off(l, p), Removed(g.all, k), g.zomb, g.free, p);
    InitPid(s, g, t.pptr, p);
  }

  lemma InitPid(s: Slots, g: Book, pptr: seq<int>, p: int)
    requires |s.stat| == |g.shape.kids| && AllPlaced(s.stat, g.live, g.shape.kids, g.all, g.zomb, g.free)
      && PidsOk(s.pid, s.ppid, pptr, g.live)
    requires Begun(s.stat, s.pid, pptr, g.shape.birth, g.live, g.free) && p in g.live && 0 < p < |s.pid|
    ensures s.stat[1] == Run && s.pid[1] == 1 && 1 in g.live && (s.pid[p] == 1 <==> p == 1)
  {
    assert Placed(s.stat, 1, g.live, g.shape.kids, g.all, g.zomb, g.free);
  }

  lemma AllLinks(l: Lists, all: seq<int>, zomb: seq<int>, free: seq<int>, k: nat)
    requires ListsAre(l, all, zomb, free) && k < |all|
    ensures Slot(l, all[k]) && l.prev[all[k]] != all[k] && all[k] !in zomb && all[k] !in free
      && all[k] !in Removed(all, k)
  {
    OnList(l, all, l.allproc, ALLPROC, k);
    RemovedHas(all, k);
  }

  lemma ZombHead(l: Lists, all: seq<int>, zomb: seq<int>, free: seq<int>, p: int)
    requires ListsAre(l, all, zomb, free) && p !in zomb
    ensures l.zombproc != NIL ==> Slot(l, l.zombproc) && l.zombproc != p
  {
    if zomb != [] {
      OnList(l, zomb, l.zombproc, ZOMBPROC, 0);
    }
  }

  /** Slot 1 is a process, and older than the one that exits. */
  lemma OlderInit(t: Tree, l: Lists, h: Hash, s: Slots, g: Book, size: nat, p: int)
    requires Good(t, l, h, s, g, size) && 1 < p < |s.stat| && s.stat[p] == Run
    ensures TreeOk(t, g.shape, g.live) && 1 in g.live && p in g.live
      && |s.ppid| == |g.shape.kids| == |g.shape.birth| == |s.stat| && g.shape.birth[1] < g.shape.birth[p]
  {
    assert Placed(s.stat, p, g.live, g.shape.kids, g.all, g.zomb, g.free);
    assert Placed(s.stat, 1, g.live, g.shape.kids, g.all, g.zomb, g.free);
  }

  lemma OwnStart(t: Tree, l: Lists, h: Hash, s: Slots, g: Book, size: nat)
    requires Good(t, l, h, s, g, size) && s.stat[1] == Run
    ensures TreeOk(t, g.shape, g.live) && 1 in g.live && |s.ppid| == |g.shape.kids| == |s.stat| && Ordered(g.shape)
  {
    assert Placed(s.stat, 1, g.live, g.shape.kids, g.all, g.zomb, g.free);
  }

  lemma ExitGood(t: Tree, l: Lists, h: Hash, s: Slots, g: Book, size: nat, p: int, k: nat, j: nat, u: Tree, r: Slots)
    requires Good(t, l, h, s, g, size) && 1 < p < |s.stat| && s.stat[p] == Run && k < |g.all| && g.all[k] == p
    requires |s.pid| == |s.stat| && 0 < size == |g.chains| == |h.pidhash| && j < |g.chains[Bucket(s.pid[p], size)]|
      && g.chains[Bucket(s.pid[p], size)][j] == p
    requires p < |h.idhash| && (j > 0 ==> 0 <= g.chains[Bucket(s.pid[p], size)][j - 1] < |h.idhash|)
    requires Slot(l, p) && (l.prev[p] >= 0 ==> Slot(l, l.prev[p])) && (l.nxt[p] != NIL ==> Slot(l, l.nxt[p]))
      && Slot(Off(l, p), p)
    requires Off(l, p).zombproc != NIL ==> Slot(Off(l, p), Off(l, p).zombproc)
    requires ListsAre(OntoZomb(Off(l, p), p), Removed(g.all, k), [p] + g.zomb, g.free)
    requires p < |g.shape.kids| && TreeOk(u, Orphaned(g.shape, p), g.live) && Adoptions(g.shape.kids[p], t.pptr, u.pptr)
    requires r.pid == s.pid && r.stat == s.stat[p := Zombie] && Adoptions(g.shape.kids[p], s.ppid, r.ppid)
    ensures
      var n := Bucket(s.pid[p], size);
      Good(u, OntoZomb(Off(l, p), p), Unhashed(h, g.chains, n, j), r,
        Book(Orphaned(g.shape, p), g.live, Removed(g.all, k), [p] + g.zomb, g.free,
          g.chains[n := Removed(g.chains[n], j)]), size)
  {
    hide TreeOk, ListsAre, ChainsAre, AllPlaced, HashHolds, PidsOk, Begun, Off, OntoZomb, Orphaned, Unhashed, Adoptions,
      Bucket;
    OlderInit(t, l, h, s, g, size, p);
    InitPid(s, g, t.pptr, p);
    UnhashedIs(h, g.chains, Bucket(s.pid[p], size), j);
    AllLinks(l, g.all, g.zomb, g.free, k);
    OneList(l, g.all, g.zomb, g.free);
    ExitPlaced(s.stat, g.live, g.shape, g.all, g.zomb, g.free, p, k);
    ExitHash(s.stat, s.pid, g.chains, size, p, j);
    ExitPids(t, g.shape, s.pid, s.ppid, g.live, p, u.pptr, r.ppid);
    ExitBegun(t, s.stat, s.pid, g.shape, g.live, g.free, p, u.pptr);
    ExitSizes(l, h, g.shape, g.chains, p, Bucket(s.pid[p], size), j);
  }

  lemma OneList(l: Lists, all: seq<int>, zomb: seq<int>, free: seq<int>)
    requires ListsAre(l, all, zomb, free)
    ensures Distinct(all)
  {
  }

  lemma ExitPlaced(stat: seq<Stat>, live: set<int>, s: Shape, all: seq<int>, zomb: seq<int>, free: seq<int>, p: int,
        k: nat)
    requires |stat| == |s.kids| && AllPlaced(stat, live, s.kids, all, zomb, free) && 1 < p < |stat| && stat[p] == Run
      && k < |all| && all[k] == p && Distinct(all)
    requires stat[1] != Zombie
    ensures AllPlaced(stat[p := Zombie], live, Orphaned(s, p).kids, Removed(all, k), [p] + zomb, free)
  {
    RemovedHas(all, k);
    var r, v := stat[p := Zombie], Orphaned(s, p).kids;
    forall q | 0 <= q < |r|
      ensures Placed(r, q, live, v, Removed(all, k), [p] + zomb, free)
    {
      assert Placed(stat, q, live, s.kids, all, zomb, free);
    }
  }

  lemma ExitHash(stat: seq<Stat>, pid: seq<int>, chains: seq<seq<int>>, size: nat, p: int, j: nat)
    requires 0 < size == |chains| && |pid| == |stat| && HashHolds(stat, pid, chains, size) && 0 < p < |stat|
    requires j < |chains[Bucket(pid[p], size)]| && chains[Bucket(pid[p], size)][j] == p
      && Distinct(chains[Bucket(pid[p], size)])
    ensures HashHolds(stat[p := Zombie], pid, chains[Bucket(pid[p], size) := Removed(chains[Bucket(pid[p], size)], j)],
      size)
  {
    hide Bucket, Removed, Distinct;
    var n := Bucket(pid[p], size);
    RemovedHas(chains[n], j);
    var s, c := stat[p := Zombie], chains[n := Removed(chains[n], j)];
    forall q | 0 < q < |s| && s[q] == Run
      ensures q in c[Bucket(pid[q], size)]
    {
      assert q != p && q in chains[Bucket(pid[q], size)];
    }
    forall m, y | 0 <= m < size && y in c[m]
      ensures RunsUnder(s, pid, size, m, y)
    {
      assert y in chains[m] && (m == n ==> y != p);
      assert RunsUnder(stat, pid, size, m, y);
    }
  }

  lemma ExitPids(t: Tree, s: Shape, pid: seq<int>, ppid: seq<int>, live: set<int>, p: int, pptr: seq<int>,
        now: seq<int>)
    requires TreeOk(t, s, live) && PidsOk(pid, ppid, t.pptr, live) && 0 <= p < |s.kids| && 1 in live && pid[1] == 1
    requires Adoptions(s.kids[p], t.pptr, pptr) && Adoptions(s.kids[p], ppid, now)
    ensures PidsOk(pid, now, pptr, live)
  {
    if 0 in s.kids[p] {
      KidIn(t, s, live, p, 0);
    }
  }

  lemma ExitBegun(t: Tree, stat: seq<Stat>, pid: seq<int>, s: Shape, live: set<int>, free: seq<int>, p: int,
        pptr: seq<int>)
    requires TreeOk(t, s, live) && Begun(stat, pid, t.pptr, s.birth, live, free) && 1 < p < |stat| && p in live
      && 0 <= p < |s.kids| && Adoptions(s.kids[p], t.pptr, pptr) && 1 < |s.kids|
    ensures Begun(stat[p := Zombie], pid, pptr, Orphaned(s, p).birth, live, free) && stat[1] == Run && pid[1] == 1
  {
    if 1 in s.kids[p] {
      KidIn(t, s, live, p, 1);
    }
  }

  lemma ExitSizes(l: Lists, h: Hash, s: Shape, b: seq<seq<int>>, p: int, n: nat, j: nat)
    requires 0 <= p < |s.kids| && 1 < |s.kids|
    ensures |Orphaned(s, p).kids| == |s.kids| && Orphaned(s, p).clock == s.clock
    ensures
      Slot(l, p) && (l.prev[p] >= 0 ==> Slot(l, l.prev[p])) && (l.nxt[p] != NIL ==> Slot(l, l.nxt[p]))
      && Slot(Off(l, p), p) ==>
      (Off(l, p).zombproc != NIL ==> Slot(Off(l, p), Off(l, p).zombproc)) ==> |OntoZomb(Off(l, p), p).nxt| == |l.nxt|
    ensures
      n < |h.pidhash| == |b| && j < |b[n]| && 0 <= b[n][j] < |h.idhash|
      && (j > 0 ==> 0 <= b[n][j - 1] < |h.idhash|) ==>
      |Unhashed(h, b, n, j).idhash| == |h.idhash|
  {
  }

  /** What the lines of exit do with the youngest child left of whoever exits. */
  function GivenToInit(t: Tree, q: int): Tree
    requires Sized(t, |t.cptr|) && 1 < |t.cptr| && 0 <= q < |t.cptr| && In(t.osptr[q], |t.cptr|)
      && In(t.cptr[1], |t.cptr|)
  {
    var y := if t.osptr[q] == NIL then t.ysptr else t.ysptr[t.osptr[q] := NIL];
    var z := if t.cptr[1] == NIL then y else y[t.cptr[1] := q];
    Tree(t.pptr[q := 1], t.cptr[1 := q], t.osptr[q := t.cptr[1]], z[q := NIL])
  }

  /**
   Where a child of slot 1 leads once `i` of them have been moved: to the one moved before it, the first to itself.
   */
  ghost predicate Led(t: Tree, c: seq<int>, j: nat, i: nat)
    requires j < i <= |c|
  {
    && 0 <= c[j] < |t.osptr| == |t.ysptr| && t.osptr[c[j]] == (if j == 0 then c[0] else c[j - 1])
    && t.ysptr[c[j]] == if j + 1 < i then c[j + 1] else NIL
  }

  /** The links while slot 1 gives its children `c` to itself, the first `i` of them done. */
  ghost predicate Stranding(u: Tree, t: Tree, c: seq<int>, i: nat) {
    && i <= |c| && 1 < |u.cptr| && Sized(u, |u.cptr|) && Sized(t, |u.cptr|) && t.pptr == u.pptr
    && t.cptr == (if i == 0 then u.cptr else u.cptr[1 := c[i - 1]])
    && (forall j: nat :: j < i ==> Led(t, c, j, i))
    && (forall x :: 0 <= x < |t.osptr| && x !in c[..i] ==> t.osptr[x] == u.osptr[x])
    && forall x :: 0 <= x < |t.ysptr| && x !in c ==> t.ysptr[x] == u.ysptr[x]
  }

  /**
   The links once slot 1 has gone unnoticed: none of its children `c` can be found from it, each has the one before it
   for an older brother, and the first has itself.
   */
  ghost predicate Stranded(u: Tree, t: Tree, c: seq<int>) {
    && 1 < |u.cptr| && Sized(u, |u.cptr|) && Sized(t, |u.cptr|) && t.pptr == u.pptr && t.cptr == u.cptr[1 := NIL]
    && (forall j: nat :: j < |c| ==> Led(t, c, j, |c|))
    && forall x :: 0 <= x < |t.osptr| && x !in c ==> t.osptr[x] == u.osptr[x] && t.ysptr[x] == u.ysptr[x]
  }

  lemma StrandStart(u: Tree, s: Shape, live: set<int>, ppid: seq<int>, sig: seq<set<int>>)
    requires TreeOk(u, s, live) && 1 in live && 1 < |s.kids| == |sig|
    ensures |u.cptr| == |s.kids| && Ordered(s) && Stranding(u, u, s.kids[1], 0)
    ensures u.cptr[1] == if s.kids[1] == [] then NIL else s.kids[1][0]
    ensures NIL !in s.kids[1]
    ensures Adoptions(s.kids[1][..0], ppid, ppid)
    ensures SigCleared(sig, sig, []) && PreFrom(s, 1, 0) == [] + PreFrom(s, 1, 0)
  {
    hide TreeOk, Family, PreFrom, Ordered;
    RootIn(u, s, live, 1);
    FamilyOf(u, s, live, 1);
    if s.kids[1] != [] {
      ChainAt(u.osptr, u.cptr[1], s.kids[1], NIL, 0);
    }
    forall j | 0 <= j < |s.kids[1]|
      ensures s.kids[1][j] != NIL
    {
      KidOf(u, s, live, 1, j);
      RootIn(u, s, live, s.kids[1][j]);
    }
    NoneCleared(sig);
  }

  lemma StrandOne(u: Tree, t: Tree, c: seq<int>, i: nat)
    requires Stranding(u, t, c, i) && i < |c| && Distinct(c) && (forall j :: 0 <= j < |c| ==> 0 <= c[j] < |u.cptr|)
    requires u.pptr[c[i]] == 1 && u.cptr[1] == c[0] && u.osptr[c[i]] == if i + 1 < |c| then c[i + 1] else NIL
    ensures Sized(t, |t.cptr|) && 1 < |t.cptr| == |u.cptr| && In(t.osptr[c[i]], |t.cptr|) && In(t.cptr[1], |t.cptr|)
      && t.osptr[c[i]] == u.osptr[c[i]]
    ensures Stranding(u, GivenToInit(t, c[i]), c, i + 1)
  {
    assert c[i] !in c[..i];
    assert c[..i + 1] == c[..i] + [c[i]];
    var r, n := GivenToInit(t, c[i]), i + 1;
    forall j: nat | j < n
      ensures Led(r, c, j, n)
    {
      assert j < i ==> Led(t, c, j, i);
    }
  }

  lemma StrandStep(u: Tree, t: Tree, s: Shape, live: set<int>, i: nat)
    requires TreeOk(u, s, live) && 1 in live && 1 < |s.kids| && Stranding(u, t, s.kids[1], i) && i < |s.kids[1]|
    ensures
      var c := s.kids[1];
      var q := c[i];
      && Sized(t, |t.cptr|) && 1 < |t.cptr| == |s.kids| == |s.birth| && 0 <= q < |t.cptr| && In(t.osptr[q], |t.cptr|)
      && In(t.cptr[1], |t.cptr|) && t.osptr[q] == (if i + 1 < |c| then c[i + 1] else NIL)
      && Stranding(u, GivenToInit(t, q), c, i + 1) && Astray(GivenToInit(t, q), u, 1) && q in live && Ordered(s)
      && s.birth[1] < s.birth[q] && PreFrom(s, 1, i) == Pre(s, q) + PreFrom(s, 1, i + 1)
  {
    hide TreeOk, Stranding, Astray, Led;
    var c := s.kids[1];
    RootIn(u, s, live, 1);
    FamilyOf(u, s, live, 1);
    ChainAt(u.osptr, u.cptr[1], c, NIL, 0);
    KidsDistinct(u, s, live, 1);
    forall j | 0 <= j < |c|
      ensures 0 <= c[j] < |s.kids| && u.pptr[c[j]] == 1
    {
      KidOf(u, s, live, 1, j);
    }
    KidOf(u, s, live, 1, i);
    StrandOne(u, t, c, i);
    StrandAstray(u, GivenToInit(t, c[i]), c, i + 1);
  }

  lemma StrandAstray(u: Tree, t: Tree, c: seq<int>, i: nat)
    requires Stranding(u, t, c, i) && forall j :: 0 <= j < |c| ==> 0 <= c[j] < |u.pptr| && u.pptr[c[j]] == 1
    ensures Astray(t, u, 1)
  {
    forall p | 0 <= p < |t.osptr| && u.pptr[p] != 1
      ensures p !in c[..i]
    {
    }
  }

  lemma StrandEnd(u: Tree, t: Tree, s: Shape, i: nat)
    requires 1 < |s.kids| && Stranding(u, t, s.kids[1], i) && i == |s.kids[1]|
    ensures 1 < |t.cptr| && Stranded(u, t.(cptr := t.cptr[1 := NIL]), s.kids[1])
    ensures Ordered(s) ==> PreFrom(s, 1, i) == []
  {
    var c, r := s.kids[1], t.(cptr := t.cptr[1 := NIL]);
    assert c[..i] == c;
    forall j: nat | j < |c|
      ensures Led(r, c, j, |c|)
    {
      assert Led(t, c, j, i);
    }
  }

  /** Such links are those of no tree: the first child follows itself. */
  lemma StrandedIsNoTree(u: Tree, t: Tree, c: seq<int>, s: Shape, live: set<int>)
    requires Stranded(u, t, c) && c != [] && 0 < c[0] && c[0] in live
    ensures !TreeOk(t, s, live)
  {
    if TreeOk(t, s, live) {
      assert Led(t, c, 0, |c|);
      var p := t.pptr[c[0]];
      ParentOf(t, s, live, c[0]);
      var i :| 0 <= i < |s.kids[p]| && s.kids[p][i] == c[0];
      KidOf(t, s, live, p, i);
      KidsDistinct(t, s, live, p);
      assert false;
    }
  }

  function Reversed(c: seq<int>): (r: seq<int>)
    ensures |r| == |c|
  {
    if c == [] then [] else [c[|c| - 1]] + Reversed(c[..|c| - 1])
  }

  /** The children of `p` are those of slot 1, in front of its own and the other way round. */
  function Orphaned(s: Shape, p: int): Shape
    requires 0 <= p < |s.kids| && 1 < |s.kids|
  {
    s.(kids := s.kids[1 := Reversed(s.kids[p]) + s.kids[1]][p := []])
  }

  ghost predicate MovedUpTo(s: Shape, v: Shape, p: int, i: nat) {
    && 0 <= p < |s.kids| && 1 < |s.kids| && i <= |s.kids[p]| && p != 1
    && v == s.(kids := s.kids[1 := Reversed(s.kids[p][..i]) + s.kids[1]][p := s.kids[p][i..]])
  }

  /** Some slots have slot 1, or its pid, for their parent; the rest what they had. */
  ghost predicate Adoptions(who: seq<int>, was: seq<int>, now: seq<int>) {
    |now| == |was| && forall x :: 0 <= x < |was| ==> now[x] == if x in who then 1 else was[x]
  }

  lemma AdoptionStep(kids: seq<int>, i: nat, was: seq<int>, now: seq<int>)
    requires i < |kids| && Adoptions(kids[..i], was, now) && 0 <= kids[i] < |now|
    ensures Adoptions(kids[..i + 1], was, now[kids[i] := 1])
  {
    assert kids[..i + 1] == kids[..i] + [kids[i]];
  }

  lemma OrphanStart(t: Tree, s: Shape, live: set<int>, p: int, ppid: seq<int>, sig: seq<set<int>>)
    requires TreeOk(t, s, live) && p in live && p != 1 && 1 in live && 0 <= p < |s.kids| == |sig|
    ensures |t.cptr| == |s.kids| && MovedUpTo(s, s, p, 0) && ButFor(t, t, p) && (t.cptr[p] == NIL <==> s.kids[p] == [])
      && Ordered(s)
    ensures Adoptions(s.kids[p][..0], t.pptr, t.pptr) && Adoptions(s.kids[p][..0], ppid, ppid)
    ensures SigCleared(sig, sig, []) && PreFrom(s, p, 0) == [] + PreFrom(s, p, 0)
  {
    hide TreeOk, Family, PreFrom, Ordered;
    RootIn(t, s, live, 1);
    FamilyOf(t, s, live, p);
    if s.kids[p] != [] {
      ChainAt(t.osptr, t.cptr[p], s.kids[p], NIL, 0);
    }
    NotMoved(s, p);
    NoneCleared(sig);
  }

  lemma NotMoved(s: Shape, p: int)
    requires 0 <= p < |s.kids| && 1 < |s.kids| && p != 1
    ensures MovedUpTo(s, s, p, 0)
  {
    assert s.kids[p][0..] == s.kids[p] && s.kids[p][..0] == [] && Reversed([]) + s.kids[1] == s.kids[1];
    assert s.kids[1 := s.kids[1]][p := s.kids[p]] == s.kids;
  }

  lemma OrphanStep(t: Tree, u: Tree, s: Shape, v: Shape, live: set<int>, p: int, i: nat)
    requires TreeOk(u, v, live) && MovedUpTo(s, v, p, i) && i < |s.kids[p]| && ButFor(t, u, p) && t.ysptr == u.ysptr
      && p in live && 1 in live
    requires 0 <= p < |s.birth| == |s.kids| && s.birth[1] < s.birth[p]
    ensures
      var q := s.kids[p][i];
      && Sized(t, |t.cptr|) && 1 < |t.cptr| == |s.kids| && q == u.cptr[p] && 0 <= q < |t.cptr|
          && In(t.osptr[q], |t.cptr|) && In(t.cptr[1], |t.cptr|)
      && p < |u.cptr| && 0 <= u.cptr[p] < |u.cptr| && Sized(u, |u.cptr|) && In(u.osptr[u.cptr[p]], |u.cptr|)
          && In(u.cptr[1], |u.cptr|) && 1 < |u.cptr|
      && 1 < |v.kids| && p < |v.kids| && v.kids[p] != [] && TreeOk(Adopted(u, p, 1), Moved(v, p, 1), live)
          && MovedUpTo(s, Moved(v, p, 1), p, i + 1)
      && (t.osptr[q] == NIL <==> i + 1 == |s.kids[p]|) && |Adopted(u, p, 1).cptr| == |u.cptr|
          && Adopted(u, p, 1).cptr[p] == t.osptr[q]
      && var y := if t.osptr[q] == NIL then t.ysptr else t.ysptr[t.osptr[q] := NIL];
      && var z := if t.cptr[1] == NIL then y else y[t.cptr[1] := q];
      && var r := Tree(t.pptr[q := 1], t.cptr[1 := q], t.osptr[q := t.cptr[1]], z[q := NIL]);
      && ButFor(r, Adopted(u, p, 1), p) && r.ysptr == Adopted(u, p, 1).ysptr
  {
    hide TreeOk, Reversed, MovedUpTo, Adopted, Moved, ButFor;
    RootIn(u, v, live, p);
    MovedOne(s, v, p, i);
    AdoptLinks(u, v, live, p, 1);
    AdoptKeepsTree(u, v, live, p, 1);
    if i + 1 < |s.kids[p]| {
      FamilyOf(u, v, live, p);
      ChainAt(u.osptr, u.cptr[p], v.kids[p], NIL, 1);
    }
    AdoptedBut(t, u, p);
  }

  /** A tree and one like it but for a child link, when the first child is given to slot 1. */
  lemma AdoptedBut(t: Tree, u: Tree, p: int)
    requires ButFor(t, u, p) && t.ysptr == u.ysptr && Sized(u, |u.cptr|) && 1 < |u.cptr| && 0 <= p < |u.cptr| && p != 1
    requires 0 <= u.cptr[p] < |u.cptr| && In(u.osptr[u.cptr[p]], |u.cptr|) && In(u.cptr[1], |u.cptr|)
    ensures t.osptr == u.osptr
    ensures
      var q := u.cptr[p];
      && Sized(t, |t.cptr|) && |t.cptr| == |u.cptr| && In(t.osptr[q], |t.cptr|) && In(t.cptr[1], |t.cptr|)
      && |Adopted(u, p, 1).cptr| == |u.cptr| && Adopted(u, p, 1).cptr[p] == t.osptr[q]
      && var y := if t.osptr[q] == NIL then t.ysptr else t.ysptr[t.osptr[q] := NIL];
      && var z := if t.cptr[1] == NIL then y else y[t.cptr[1] := q];
      && var r := Tree(t.pptr[q := 1], t.cptr[1 := q], t.osptr[q := t.cptr[1]], z[q := NIL]);
      && ButFor(r, Adopted(u, p, 1), p) && r.ysptr == Adopted(u, p, 1).ysptr
  {
  }

  lemma MovedOne(s: Shape, v: Shape, p: int, i: nat)
    requires MovedUpTo(s, v, p, i) && i < |s.kids[p]|
    ensures 0 <= p < |s.kids| && p != 1 && 1 < |v.kids| == |s.kids| && v.kids[p] == s.kids[p][i..] && v.kids[p] != []
    ensures v.kids[p][0] == s.kids[p][i] && |v.kids[p]| == |s.kids[p]| - i && v.birth == s.birth
    ensures MovedUpTo(s, Moved(v, p, 1), p, i + 1)
  {
    var c := s.kids[p];
    assert c[..i + 1][..i] == c[..i];
    assert Reversed(c[..i + 1]) == [c[i]] + Reversed(c[..i]);
    assert c[i..][1..] == c[i + 1..];
    assert [c[i]] + (Reversed(c[..i]) + s.kids[1]) == Reversed(c[..i + 1]) + s.kids[1];
    assert Moved(v, p, 1).kids == s.kids[1 := Reversed(c[..i + 1]) + s.kids[1]][p := c[i + 1..]];
  }

  /** The walk below a process is the same in two shapes that differ only at processes older than it. */
  lemma {:induction false} PreSame(s: Shape, v: Shape, q: int, from: nat)
    requires Ordered(s) && Ordered(v) && v.birth == s.birth && v.clock == s.clock && |v.kids| == |s.kids|
      && 0 <= q < |s.kids| && from <= s.birth[q]
    requires forall y :: 0 <= y < |s.kids| && from <= s.birth[y] ==> v.kids[y] == s.kids[y]
    ensures Pre(v, q) == Pre(s, q)
    decreases s.clock - s.birth[q], |s.kids[q]| + 1
  {
    PreFromSame(s, v, q, 0, from);
  }

  lemma {:induction false} PreFromSame(s: Shape, v: Shape, q: int, i: nat, from: nat)
    requires Ordered(s) && Ordered(v) && v.birth == s.birth && v.clock == s.clock && |v.kids| == |s.kids|
      && 0 <= q < |s.kids| && from <= s.birth[q]
    requires (forall y :: 0 <= y < |s.kids| && from <= s.birth[y] ==> v.kids[y] == s.kids[y]) && i <= |s.kids[q]|
    ensures i <= |v.kids[q]| && PreFrom(v, q, i) == PreFrom(s, q, i)
    decreases s.clock - s.birth[q], |s.kids[q]| - i
  {
    if i < |s.kids[q]| {
      PreSame(s, v, s.kids[q][i], from);
      PreFromSame(s, v, q, i + 1, from);
    }
  }

  lemma SubtreeKept(u: Tree, s: Shape, v: Shape, live: set<int>, p: int, i: nat)
    requires TreeOk(u, v, live) && MovedUpTo(s, v, p, i + 1) && i < |s.kids[p]| && Ordered(s) && s.birth[1] < s.birth[p]
    ensures
      var q := s.kids[p][i];
      && q in live && 0 <= q < |s.kids| == |v.kids| == |v.birth| && v.birth[p] < v.birth[q] && Ordered(v)
          && Pre(v, q) == Pre(s, q)
      && PreFrom(s, p, i) == Pre(s, q) + PreFrom(s, p, i + 1)
  {
    var q := s.kids[p][i];
    assert s.birth[p] < s.birth[q];
    PreSame(s, v, q, s.birth[q]);
    var c := s.kids[p];
    assert c[..i + 1][..i] == c[..i];
    assert v.kids[1][0] == q;
    KidOf(u, v, live, 1, 0);
  }

  lemma OrphanEnd(t: Tree, u: Tree, s: Shape, v: Shape, live: set<int>, p: int)
    requires TreeOk(u, v, live) && 0 <= p < |s.kids| && MovedUpTo(s, v, p, |s.kids[p]|) && t.ysptr == u.ysptr
      && p < |t.cptr| && t.cptr[p] == NIL == u.cptr[p] && ButFor(t, u, p)
    ensures Ordered(s) ==> PreFrom(s, p, |s.kids[p]|) == []
    ensures TreeOk(t, v, live) && v == Orphaned(s, p)
  {
    assert t.cptr == u.cptr;
    assert t == u;
    assert s.kids[p][..|s.kids[p]|] == s.kids[p] && s.kids[p][|s.kids[p]|..] == [];
  }

  lemma HoleKept(t: Tree, u: Tree, p: int)
    requires ButFor(t, u, p) && 0 <= p < |t.cptr|
    ensures ButFor(t.(cptr := t.cptr[p := NIL]), u, p)
  {
  }

  lemma SigMore(was: seq<set<int>>, mid: seq<set<int>>, now: seq<set<int>>, done: seq<int>, more: seq<int>)
    requires SigCleared(mid, was, done) && SigCleared(now, mid, more)
    ensures SigCleared(now, was, done + more)
  {
  }

  datatype Waited = NoChildren | NoneDead | Reaping(pid: int, status: int)

  /** What the reaping of the `i`th child of `q` makes of the table. */
  ghost predicate ReapedBook(g: Book, s: Slots, h: Book, r: Slots, q: int, i: nat) {
    && 0 <= q < |g.shape.kids| && i < |g.shape.kids[q]|
    && var x := g.shape.kids[q][i];
    && 0 <= x < |s.pid| == |s.ppid| == |s.stat|
    && h.shape == Shrunk(g.shape, q, i) && h.live == g.live - {x} && h.all == g.all && h.free == [x] + g.free
        && h.chains == g.chains
    && r == Slots(s.pid[x := 0], s.ppid[x := 0], s.stat[x := Free])
    && exists k :: 0 <= k < |g.zomb| && g.zomb[k] == x && h.zomb == Removed(g.zomb, k)
  }

  lemma OntoFreeDef(l: Lists, p: int, m: Lists)
    requires Slot(l, p) && m == l.(nxt := l.nxt[p := l.freeproc], freeproc := p)
    ensures m == OntoFree(l, p)
  {
  }

  lemma PidOfParent(s: Slots, pptr: seq<int>, live: set<int>, q: int)
    requires PidsOk(s.pid, s.ppid, pptr, live) && q in live && ParentsLive(pptr, live)
    ensures 0 <= q < |s.ppid| == |pptr|
    ensures s.ppid[q] == 0 <==> q == 0 || pptr[q] == 0
  {
  }

  lemma {:induction false} RootNotUnder(t: Tree, s: Shape, live: set<int>, me: int)
    requires TreeOk(t, s, live) && me in live && me != 0
    ensures !Under(t, s, live, 0, me)
  {
  }

  lemma TreeOf(t: Tree, l: Lists, h: Hash, s: Slots, g: Book, size: nat, q: int)
    requires Good(t, l, h, s, g, size) && q in g.live
    ensures TreeOk(t, g.shape, g.live) && 0 <= q < |g.shape.kids| == |t.cptr| == |s.stat| == |s.pid| == |s.ppid| ==
      |l.nxt| == |t.osptr|
    ensures t.cptr[q] == Head(g.shape.kids[q], NIL)
  {
    FamilyOf(t, g.shape, g.live, q);
  }

  lemma ZombieAt(t: Tree, l: Lists, h: Hash, s: Slots, g: Book, size: nat, p: int) returns (k: nat)
    requires Good(t, l, h, s, g, size) && 0 <= p < |s.stat| && s.stat[p] == Zombie
    ensures k < |g.zomb| && g.zomb[k] == p && p in g.live && p < |g.shape.kids| && g.shape.kids[p] == []
  {
    assert Placed(s.stat, p, g.live, g.shape.kids, g.all, g.zomb, g.free);
    k :| 0 <= k < |g.zomb| && g.zomb[k] == p;
  }

  lemma ReapGood(t: Tree, l: Lists, h: Hash, s: Slots, g: Book, size: nat, q: int, i: nat, k: nat)
    requires Good(t, l, h, s, g, size) && 0 <= q < |g.shape.kids| && i < |g.shape.kids[q]| && k < |g.zomb|
      && g.zomb[k] == g.shape.kids[q][i]
    requires 0 <= g.zomb[k] < |s.stat| && s.stat[g.zomb[k]] == Zombie
    ensures
      var x := g.zomb[k];
      && Slot(l, x) && (l.prev[x] >= 0 ==> Slot(l, l.prev[x]) && l.prev[x] != x)
          && (l.nxt[x] != NIL ==> Slot(l, l.nxt[x])) && Slot(Off(l, x), x)
      && 0 <= x < |s.pid| == |s.ppid| == |s.stat| && Sized(t, |t.cptr|) && x < |t.cptr| && 0 <= t.pptr[x] < |t.cptr|
          && In(t.osptr[x], |t.cptr|) && In(t.ysptr[x], |t.cptr|)
      && t.ysptr[x] != x && t.osptr[x] != x && t.pptr[x] != x
      && Good(Reaped(t, x), OntoFree(Off(l, x), x), h, Slots(s.pid[x := 0], s.ppid[x := 0], s.stat[x := Free]),
           Book(Shrunk(g.shape, q, i), g.live - {x}, g.all, Removed(g.zomb, k), [x] + g.free, g.chains), size)
  {
    hide TreeOk, ListsAre, ChainsAre, AllPlaced, HashHolds, PidsOk, Begun, Reaped, OntoFree, Off, Shrunk;
    var x := g.zomb[k];
    ghost var k' := ZombieAt(t, l, h, s, g, size, x);
    ReapLinks(t, g.shape, g.live, q, i);
    KidsOnce(t, g.shape, g.live, q, i);
    ReapKeepsTree(t, g.shape, g.live, q, i);
    OffZombIs(l, g.all, g.zomb, g.free, k);
    ListLinks(l, g.all, g.zomb, g.free, k);
    OffSize(l, x);
    OntoFreeIs(Off(l, x), g.all, Removed(g.zomb, k), g.free, x);
    ReapPlaced(s.stat, g.live, g.shape, g.all, g.zomb, g.free, q, i, k);
    ReapHash(s.stat, s.pid, g.chains, size, x);
    AllParentsLive(t, g.shape, g.live);
    NoChildOf(t, g.shape, g.live, x);
    ReapPids(s.pid, s.ppid, t.pptr, g.live, x);
    ReapBegun(s.stat, s.pid, t.pptr, g.shape.birth, g.live, g.free, x);
    ReapSizes(t, l, g.shape, q, i);
  }

  lemma KidsOnce(t: Tree, s: Shape, live: set<int>, q: int, i: nat)
    requires TreeOk(t, s, live) && 0 <= q < |s.kids| && i < |s.kids[q]|
    ensures Distinct(s.kids[q])
    ensures t.osptr[s.kids[q][i]] != s.kids[q][i] && t.ysptr[s.kids[q][i]] != s.kids[q][i]
  {
    FamilyOf(t, s, live, q);
    ReapLinks(t, s, live, q, i);
  }

  lemma ListLinks(l: Lists, all: seq<int>, zomb: seq<int>, free: seq<int>, k: nat)
    requires ListsAre(l, all, zomb, free) && k < |zomb|
    ensures Slot(l, zomb[k]) && l.prev[zomb[k]] != zomb[k] && Distinct(zomb)
    ensures zomb[k] !in all && zomb[k] !in free && zomb[k] !in Removed(zomb, k)
  {
    OnList(l, zomb, l.zombproc, ZOMBPROC, k);
    RemovedHas(zomb, k);
  }

  lemma OffSize(l: Lists, x: int)
    requires Slot(l, x) && (l.prev[x] >= 0 ==> Slot(l, l.prev[x])) && (l.nxt[x] != NIL ==> Slot(l, l.nxt[x]))
    ensures |Off(l, x).nxt| == |l.nxt| && |Off(l, x).prev| == |l.prev| && Slot(Off(l, x), x)
  {
  }

  lemma ReapPlaced(stat: seq<Stat>, live: set<int>, s: Shape, all: seq<int>, zomb: seq<int>, free: seq<int>, q: int,
        i: nat, k: nat)
    requires |stat| == |s.kids| && AllPlaced(stat, live, s.kids, all, zomb, free) && 0 <= q < |s.kids|
      && i < |s.kids[q]| && k < |zomb| && Distinct(zomb)
    requires 0 <= zomb[k] < |stat| && stat[zomb[k]] == Zombie && s.kids[q][i] == zomb[k]
    ensures AllPlaced(stat[zomb[k] := Free], live - {zomb[k]}, Shrunk(s, q, i).kids, all, Removed(zomb, k),
      [zomb[k]] + free)
  {
    RemovedHas(zomb, k);
    var x := zomb[k];
    var r, v := stat[x := Free], Shrunk(s, q, i).kids;
    forall p | 0 <= p < |r|
      ensures Placed(r, p, live - {x}, v, all, Removed(zomb, k), [x] + free)
    {
      assert Placed(stat, p, live, s.kids, all, zomb, free);
    }
  }

  lemma ReapHash(stat: seq<Stat>, pid: seq<int>, chains: seq<seq<int>>, size: nat, x: int)
    requires 0 < size == |chains| && |pid| == |stat| && HashHolds(stat, pid, chains, size) && 0 <= x < |stat|
      && stat[x] == Zombie
    ensures HashHolds(stat[x := Free], pid[x := 0], chains, size)
  {
    hide Bucket;
    NotHashed(stat, pid, chains, size, x);
    var s, i := stat[x := Free], pid[x := 0];
    forall p | 0 < p < |s| && s[p] == Run
      ensures p in chains[Bucket(i[p], size)]
    {
    }
    forall n, y | 0 <= n < size && y in chains[n]
      ensures RunsUnder(s, i, size, n, y)
    {
      assert RunsUnder(stat, pid, size, n, y);
    }
  }

  lemma NoChildOf(t: Tree, s: Shape, live: set<int>, x: int)
    requires TreeOk(t, s, live) && x in live && 0 <= x < |s.kids| && s.kids[x] == []
    ensures forall p <- live :: p != 0 && 0 <= p < |t.pptr| ==> t.pptr[p] != x
  {
  }

  lemma ReapPids(pid: seq<int>, ppid: seq<int>, pptr: seq<int>, live: set<int>, x: int)
    requires PidsOk(pid, ppid, pptr, live) && 0 < x < |pid| && x in live
      && forall p <- live :: p != 0 && 0 <= p < |pptr| ==> pptr[p] != x
    ensures PidsOk(pid[x := 0], ppid[x := 0], pptr[x := NIL], live - {x})
  {
    var a, b, c, d := pid[x := 0], ppid[x := 0], pptr[x := NIL], live - {x};
    forall q | q in d && q != 0
      ensures 0 < a[q] && 0 <= c[q] < |a| && b[q] == a[c[q]]
    {
    }
  }

  lemma ReapBegun(stat: seq<Stat>, pid: seq<int>, pptr: seq<int>, birth: seq<nat>, live: set<int>, free: seq<int>,
        x: int)
    requires Begun(stat, pid, pptr, birth, live, free) && x in live && 0 < x < |stat| && stat[x] == Zombie
    ensures Begun(stat[x := Free], pid[x := 0], pptr[x := NIL], birth, live - {x}, [x] + free)
      && stat[x := Free][1] != Free
  {
  }

  lemma ReapSizes(t: Tree, l: Lists, s: Shape, q: int, i: nat)
    requires 0 <= q < |s.kids| && i < |s.kids[q]|
    ensures |Shrunk(s, q, i).kids| == |s.kids| && Shrunk(s, q, i).birth == s.birth && Shrunk(s, q, i).clock == s.clock
    ensures
      var x := s.kids[q][i];
      && (Sized(t, |t.cptr|) && 0 <= x < |t.cptr| && 0 <= t.pptr[x] < |t.cptr|
          && In(t.osptr[x], |t.cptr|) && In(t.ysptr[x], |t.cptr|) ==>
          Reaped(t, x).pptr == t.pptr[x := NIL])
      && (Slot(l, x) && (l.prev[x] >= 0 ==> Slot(l, l.prev[x])) && (l.nxt[x] != NIL ==> Slot(l, l.nxt[x])) ==>
           Slot(Off(l, x), x) && |OntoFree(Off(l, x), x).nxt| == |l.nxt|)
  {
  }

  /** A process that runs, and a pid that nobody has; the first fork is that of pid 1. */
  ghost predicate MayFork(s: Slots, g: Book, p: int, newpid: int) {
    && p in g.live && 0 <= p < |s.stat| && s.stat[p] == Run && 1 < |s.stat| && (s.stat[1] == Free ==> newpid == 1)
    && 0 < newpid && forall q <- g.live :: 0 <= q < |s.pid| ==> s.pid[q] != newpid
  }

  function Pushed(chains: seq<seq<int>>, n: nat, x: int): seq<seq<int>>
    requires n < |chains|
  {
    chains[n := [x] + chains[n]]
  }

  /** What a fork makes of the table. */
  ghost predicate ForkedBook(g: Book, s: Slots, h: Book, r: Slots, p: int, x: int, newpid: int) {
    && g.free != [] && x == g.free[0] && 0 <= p < |g.shape.kids| == |s.pid| == |s.ppid|
        && 0 <= x < |g.shape.birth| == |s.pid| == |s.stat|
    && h.shape == Grown(g.shape, p, x) && h.live == g.live + {x} && h.all == [x] + g.all && h.zomb == g.zomb
        && h.free == g.free[1..]
    && r == Slots(s.pid[x := newpid], s.ppid[x := s.pid[p]], s.stat[x := Run])
  }

  lemma FreshGood(nproc: nat, size: nat, nxt: seq<int>, freeproc: int)
    requires 1 < nproc == |nxt| && 0 < size && nxt[0] == NIL && Chain(nxt, freeproc, seq(nproc - 1, i => i + 1), NIL)
    ensures
      var none, zero := seq(nproc, _ => NIL), seq(nproc, _ => 0);
      Good(Tree(none, none, none, none), Lists(nxt, seq(nproc, _ => ALLPROC), 0, NIL, freeproc),
        Hash(zero, seq(size, _ => 0)),
        Slots(zero, zero, seq(nproc, i => if i == 0 then Run else Free)),
        Book(Shape(seq(nproc, _ => []), seq(nproc, _ => 0), 0), {0}, [0], [], seq(nproc - 1, i => i + 1),
          seq(size, _ => [])), size)
  {
    var g := Book(Shape(seq(nproc, _ => []), seq(nproc, _ => 0), 0), {0}, [0], [], seq(nproc - 1, i => i + 1),
      seq(size, _ => []));
    FreshPlaced(seq(nproc, i => if i == 0 then Run else Free), g);
    hide Chain;
    NoChain(nxt, seq(nproc, _ => 0));
    OneChain(nxt);
  }

  lemma NoChain(nxt: seq<int>, zero: seq<int>)
    ensures Chain(nxt, NIL, [], NIL) && Chain(zero, 0, [], 0)
  {
  }

  lemma OneChain(nxt: seq<int>)
    requires 0 < |nxt| && nxt[0] == NIL
    ensures Chain(nxt, 0, [0], NIL)
  {
  }

  lemma FreshPlaced(stat: seq<Stat>, g: Book)
    requires 1 < |stat| == |g.shape.kids| && g.live == {0} && g.all == [0] && g.zomb == []
      && g.free == seq(|stat| - 1, i => i + 1)
    requires forall p :: 0 <= p < |stat| ==> stat[p] == if p == 0 then Run else Free
    ensures AllPlaced(stat, g.live, g.shape.kids, g.all, g.zomb, g.free)
  {
    forall p | 0 <= p < |stat|
      ensures Placed(stat, p, g.live, g.shape.kids, g.all, g.zomb, g.free)
    {
      assert p > 0 ==> g.free[p - 1] == p;
    }
  }

  lemma FreeHead(t: Tree, l: Lists, h: Hash, s: Slots, g: Book, size: nat)
    requires Good(t, l, h, s, g, size)
    ensures l.freeproc == NIL <==> g.free == []
  {
    if g.free != [] {
      ChainAt(l.nxt, l.freeproc, g.free, NIL, 0);
    }
  }

  lemma ForkGood(t: Tree, l: Lists, h: Hash, s: Slots, g: Book, size: nat, p: int, newpid: int)
    requires Good(t, l, h, s, g, size) && MayFork(s, g, p, newpid) && g.free != []
    ensures
      var x := g.free[0];
      var n := Bucket(newpid, size);
      && x == l.freeproc && Slot(l, x) && 0 < size == |g.chains| && 0 <= n < |g.chains| && n < |h.pidhash|
      && 0 <= x < |h.idhash| == |s.pid| == |s.ppid| == |s.stat| == |g.shape.birth| == |g.shape.kids| && 0 <= p < |s.pid|
      && Sized(t, |t.cptr|) && p < |t.cptr| && x < |t.cptr| && (t.cptr[p] != NIL ==> 0 <= t.cptr[p] < |t.cptr|)
      && Slot(OffFree(l), x) && Slot(OffFree(l), OffFree(l).allproc)
      && Good(Forked(t, p, x), OntoAll(OffFree(l), x), Hashed(h, n, x),
          Slots(s.pid[x := newpid], s.ppid[x := s.pid[p]], s.stat[x := Run]),
           Book(Grown(g.shape, p, x), g.live + {x}, [x] + g.all, g.zomb, g.free[1..], g.chains[n := [x] + g.chains[n]]),
             size)
  {
    hide TreeOk, ListsAre, ChainsAre, AllPlaced, HashHolds, PidsOk, Begun, Forked, OntoAll, OffFree, Hashed, Bucket;
    var x, n := g.free[0], Bucket(newpid, size);
    RootIn(t, g.shape, g.live, p);
    OffFreeIs(l, g.all, g.zomb, g.free);
    SlotIn(l, g.all, g.zomb, g.free, x);
    SlotOf(s.stat, g.live, g.shape.kids, g.all, g.zomb, g.free, x, p);
    ForkKeepsTree(t, g.shape, g.live, p, x);
    NotHashed(s.stat, s.pid, g.chains, size, x);
    HashSize(h, g.chains);
    HashedIs(h, g.chains, n, x);
    OffFreeSlots(l, x);
    OntoAllIs(OffFree(l), g.all, g.zomb, g.free[1..], x);
    ForkPlaced(s.stat, g.live, g.shape.kids, g.all, g.zomb, g.free, p, x);
    ForkHash(s.stat, s.pid, g.chains, size, x, newpid);
    AllParentsLive(t, g.shape, g.live);
    MayForkPid(s, g, p, newpid);
    ForkPids(s.pid, s.ppid, t.pptr, g.live, p, x, newpid);
    ForkBegun(s.stat, s.pid, t.pptr, g.shape, g.live, g.free, p, x, newpid);
    ForkSizes(t, l, h, p, x, n);
  }

  lemma MayForkPid(s: Slots, g: Book, p: int, newpid: int)
    requires MayFork(s, g, p, newpid) && forall q <- g.live :: 0 <= q < |s.pid|
    ensures forall q <- g.live :: 0 <= q < |s.pid| && s.pid[q] != newpid
  {
  }

  lemma RootIn(t: Tree, s: Shape, live: set<int>, p: int)
    requires TreeOk(t, s, live) && p in live
    ensures 0 in live && 0 <= p < |s.kids| == |s.birth| && Sized(t, |s.kids|) && Ordered(s)
      && forall q <- live :: 0 <= q < |s.kids|
  {
  }

  lemma SlotIn(l: Lists, all: seq<int>, zomb: seq<int>, free: seq<int>, x: int)
    requires ListsAre(l, all, zomb, free) && Slot(l, x)
    ensures 0 <= x < |l.nxt| == |l.prev|
  {
  }

  lemma HashSize(h: Hash, b: seq<seq<int>>)
    requires ChainsAre(h, b)
    ensures |h.pidhash| == |b|
  {
  }

  lemma OffFreeSlots(l: Lists, x: int)
    requires Slot(l, l.freeproc) && Slot(l, x)
    ensures Slot(OffFree(l), x) && OffFree(l).nxt == l.nxt && OffFree(l).allproc == l.allproc
  {
  }

  lemma ForkSizes(t: Tree, l: Lists, h: Hash, p: int, x: int, n: nat)
    requires Slot(l, l.freeproc) && Slot(OffFree(l), x) && Slot(OffFree(l), OffFree(l).allproc) && n < |h.pidhash|
      && 0 <= x < |h.idhash|
    requires Sized(t, |t.cptr|) && 0 <= p < |t.cptr| && x < |t.cptr| && (t.cptr[p] != NIL ==> 0 <= t.cptr[p] < |t.cptr|)
    ensures |OntoAll(OffFree(l), x).nxt| == |l.nxt| && |Hashed(h, n, x).idhash| == |h.idhash|
      && Forked(t, p, x).pptr == t.pptr[x := p]
  {
  }

  lemma OffFreeDef(l: Lists, m: Lists)
    requires Slot(l, l.freeproc) && m == l.(freeproc := l.nxt[l.freeproc])
    ensures m == OffFree(l)
  {
  }

  /** The first free slot is no process, and not slot 0; slot 0 is on allproc. */
  lemma SlotOf(stat: seq<Stat>, live: set<int>, kids: seq<seq<int>>, all: seq<int>, zomb: seq<int>, free: seq<int>,
        x: int, p: int)
    requires |stat| == |kids| && AllPlaced(stat, live, kids, all, zomb, free) && 0 <= x < |stat| && x in free
      && x !in all && x !in zomb && p in live && 0 in live
    ensures x !in live && x != 0 && stat[x] == Free && (0 <= p < |stat| && stat[p] == Run ==> all != [])
  {
    assert Placed(stat, x, live, kids, all, zomb, free);
    if 0 <= p < |stat| {
      assert Placed(stat, p, live, kids, all, zomb, free);
    }
  }

  lemma NotHashed(stat: seq<Stat>, pid: seq<int>, chains: seq<seq<int>>, size: nat, x: int)
    requires 0 < size == |chains| && |pid| == |stat| && HashHolds(stat, pid, chains, size) && 0 <= x < |stat|
      && stat[x] != Run
    ensures forall n :: 0 <= n < |chains| ==> x !in chains[n]
  {
  }

  lemma ForkPlaced(stat: seq<Stat>, live: set<int>, kids: seq<seq<int>>, all: seq<int>, zomb: seq<int>, free: seq<int>,
        p: int, x: int)
    requires |stat| == |kids| && AllPlaced(stat, live, kids, all, zomb, free) && free != [] && x == free[0]
      && 0 <= x < |stat| && 0 <= p < |stat| && stat[p] == Run && x != p && x !in live
    ensures AllPlaced(stat[x := Run], live + {x}, kids[p := [x] + kids[p]], [x] + all, zomb, free[1..])
  {
    var s, l, k := stat[x := Run], live + {x}, kids[p := [x] + kids[p]];
    forall q | 0 <= q < |s|
      ensures Placed(s, q, l, k, [x] + all, zomb, free[1..])
    {
      assert Placed(stat, q, live, kids, all, zomb, free);
      assert free == [x] + free[1..];
    }
  }

  lemma ForkHash(stat: seq<Stat>, pid: seq<int>, chains: seq<seq<int>>, size: nat, x: int, newpid: int)
    requires 0 < size == |chains| && |pid| == |stat| && HashHolds(stat, pid, chains, size) && 0 < x < |stat|
      && stat[x] == Free
    ensures HashHolds(stat[x := Run], pid[x := newpid],
      chains[Bucket(newpid, size) := [x] + chains[Bucket(newpid, size)]], size)
  {
    hide Bucket;
    NotHashed(stat, pid, chains, size, x);
    var n := Bucket(newpid, size);
    var c := chains[n := [x] + chains[n]];
    forall m, y | 0 <= m < size && y in c[m]
      ensures RunsUnder(stat[x := Run], pid[x := newpid], size, m, y)
    {
      if y in chains[m] {
        assert RunsUnder(stat, pid, size, m, y);
      }
    }
    var s, i := stat[x := Run], pid[x := newpid];
    forall p | 0 < p < |s| && s[p] == Run
      ensures p in c[Bucket(i[p], size)]
    {
    }
  }

  lemma ForkBegun(stat: seq<Stat>, pid: seq<int>, pptr: seq<int>, s: Shape, live: set<int>, free: seq<int>, p: int,
        x: int, newpid: int)
    requires Begun(stat, pid, pptr, s.birth, live, free) && Ordered(s)
      && (stat[1] == Free ==> s.clock == 0 && newpid == 1)
    requires p in live && 0 <= p < |s.kids| && 0 < x < |stat| && free != [] && x == free[0] && stat[x] == Free
      && x !in live
    ensures Begun(stat[x := Run], pid[x := newpid], pptr[x := p], Grown(s, p, x).birth, live + {x}, free[1..])
      && stat[x := Run][1] != Free
  {
  }

  ghost predicate ParentsLive(pptr: seq<int>, live: set<int>) {
    forall q <- live :: q != 0 && 0 <= q < |pptr| ==> pptr[q] in live
  }

  lemma AllParentsLive(t: Tree, s: Shape, live: set<int>)
    requires TreeOk(t, s, live)
    ensures ParentsLive(t.pptr, live)
  {
    forall q | q in live && q != 0 && 0 <= q < |t.pptr|
      ensures t.pptr[q] in live
    {
      ParentOf(t, s, live, q);
    }
  }

  lemma ForkPids(pid: seq<int>, ppid: seq<int>, pptr: seq<int>, live: set<int>, p: int, x: int, newpid: int)
    requires PidsOk(pid, ppid, pptr, live) && ParentsLive(pptr, live) && p in live && 0 < x < |pid| && x !in live
      && 0 < newpid && forall q <- live :: 0 <= q < |pid| && pid[q] != newpid
    ensures PidsOk(pid[x := newpid], ppid[x := pid[p]], pptr[x := p], live + {x})
  {
    var a, b, c, d := pid[x := newpid], ppid[x := pid[p]], pptr[x := p], live + {x};
    forall q | q in d && q != 0
      ensures 0 < a[q] && 0 <= c[q] < |a| && b[q] == a[c[q]]
    {
    }
  }

  lemma NoneCleared(sig: seq<set<int>>)
    ensures SigCleared(sig, sig, [])
  {
  }

  lemma OneCleared(sig: seq<set<int>>, was: seq<set<int>>, who: seq<int>, p: int)
    requires SigCleared(sig, was, who) && 0 <= p < |sig|
    ensures SigCleared(sig[p := sig[p] - {SIGTSTP, SIGTTIN, SIGTTOU}], was, who + [p])
  {
  }

  lemma Begin(u: Tree, s: Shape, live: set<int>, top: int, t: Tree, hole: int)
    requires TreeOk(u, s, live) && top in live && Astray(t, u, hole)
    ensures Ordered(s) && 0 <= top < |s.kids| && OkPath(s, []) && Rest(s, top, []) == Pre(s, top)
    ensures Ordered(s) && OkPath(s, []) && Leads(s, [], top, top) && Pending(s, []) == [] && 0 <= top < |s.kids|
    ensures |t.cptr| == |t.osptr| == |t.pptr| == |s.kids| == |s.birth|
  {
  }

  lemma LiveIn(u: Tree, s: Shape, live: set<int>)
    requires TreeOk(u, s, live)
    ensures forall p <- live :: 0 <= p < |s.kids|
  {
  }

  lemma EndOfPath(s: Shape)
    requires Ordered(s) && OkPath(s, [])
    ensures Pending(s, []) == []
  {
  }

  lemma SameLinks(t: Tree, u: Tree, s: Shape, hole: int, p: int)
    requires Astray(t, u, hole) && 0 <= p < |t.cptr| && |t.osptr| == |t.pptr| == |t.cptr|
    ensures t.pptr == u.pptr && |t.cptr| == |u.cptr| && |t.osptr| == |u.osptr| && (p != hole ==> t.cptr[p] == u.cptr[p])
    ensures u.pptr[p] != hole ==> t.osptr[p] == u.osptr[p]
  {
  }

  /**
   Process 1 forks, and exits: its child, which came after it on the one hash chain there is, is in front of it, and the
   check is jumped over. The child is its own older brother, and cannot be found from its parent.
   */
  method InitGoesUnnoticed() returns (t: Table, r: Exited)
    ensures fresh(t) && r == InitUnnoticed && |t.tree.osptr| == |t.tree.cptr| == 3 && t.tree.osptr[2] == 2
      && t.tree.cptr[1] == NIL
  {
    hide Good, Under, SigCleared, Adoptions, PreFrom, Ordered, ExitedBook, Distinct, Grown, Stranded;
    t := new Table(3, 1);
    ghost var none: seq<int> := [];
    assert t.book.chains == [none] && [1] + none == [1];
    var panic, x := t.Newproc(0, 1);
    ghost var s := t.book.shape;
    assert t.book.live == {0, 1} && t.book.free == [2] && t.book.chains == [[1]];
    assert t.slots == Slots([0, 1, 0], [0, 0, 0], [Run, Run, Free]);
    panic, x := t.Newproc(1, 2);
    assert [2] + [1] == [2, 1];
    assert t.book.chains == [[2, 1]] && t.slots.stat == [Run, Run, Run];
    GrownKids(s, 1, 2);
    ghost var u, c := t.tree, t.book.shape.kids[1];
    Sizes3(t.tree, t.lists, t.hash, t.slots, t.book, 1);
    r := t.Exit(1, 0);
    StrandedFirst(u, t.tree, c);
  }

  lemma GrownKids(s: Shape, p: int, x: int)
    requires 0 <= p < |s.kids| && 0 <= x < |s.birth|
    ensures |Grown(s, p, x).kids| == |s.kids| && Grown(s, p, x).kids[p] == [x] + s.kids[p]
  {
  }

  lemma StrandedFirst(u: Tree, t: Tree, c: seq<int>)
    requires Stranded(u, t, c) && c != []
    ensures 1 < |t.cptr| == |u.cptr| && t.cptr[1] == NIL && 0 <= c[0] < |t.osptr| && t.osptr[c[0]] == c[0]
      && |t.osptr| == |t.cptr|
  {
    assert Led(t, c, 0, |c|);
  }

  lemma Sizes3(t: Tree, l: Lists, h: Hash, s: Slots, g: Book, size: nat)
    requires Good(t, l, h, s, g, size)
    ensures |t.cptr| == |g.shape.kids| == |s.stat|
  {
  }
}
