/**
 The tree of processes as the links of the process table hold it: from each process to its youngest child, from a
 child to the one older and the one younger than it, and to the parent.
 */
module ProcTree {
  import opened Links
  import opened Seqs

  /** p_pptr, p_cptr, p_osptr and p_ysptr of each slot. */
  datatype Tree = Tree(pptr: seq<int>, cptr: seq<int>, osptr: seq<int>, ysptr: seq<int>)

  /**
   The children of each slot, youngest first, and when each process came to be: every process is younger than its
   parent.
   */
  datatype Shape = Shape(kids: seq<seq<int>>, birth: seq<nat>, clock: nat)

  ghost predicate Ordered(s: Shape) {
    && |s.birth| == |s.kids| && (forall p :: 0 <= p < |s.kids| ==> s.birth[p] <= s.clock)
    && forall p, i :: 0 <= p < |s.kids| && 0 <= i < |s.kids[p]| ==>
        0 <= s.kids[p][i] < |s.kids| && s.birth[p] < s.birth[s.kids[p][i]]
  }

  /** The links of one process and its children. */
  ghost predicate Family(t: Tree, s: Shape, p: int)
    requires 0 <= p < |s.kids| && p < |t.cptr|
  {
    && Chain(t.osptr, t.cptr[p], s.kids[p], NIL) && Back(t.ysptr, s.kids[p], NIL)
    && forall i :: 0 <= i < |s.kids[p]| ==> 0 <= s.kids[p][i] < |t.pptr| && t.pptr[s.kids[p][i]] == p
  }

  ghost predicate Sized(t: Tree, n: int) {
    |t.pptr| == |t.cptr| == |t.osptr| == |t.ysptr| == n
  }

  /** The links are those of a tree over the processes `live`, with slot 0 at its root. */
  ghost predicate TreeOk(t: Tree, s: Shape, live: set<int>) {
    && Ordered(s) && Sized(t, |s.kids|) && 0 in live
    && (forall p :: 0 <= p < |s.kids| ==> Family(t, s, p)) && KidsLive(s, live) && HaveParents(t, s, live)
  }

  predicate KidLive(s: Shape, live: set<int>, p: int, i: int)
    requires 0 <= p < |s.kids| && 0 <= i < |s.kids[p]|
  {
    p in live && s.kids[p][i] in live && s.kids[p][i] != 0
  }

  ghost predicate KidsLive(s: Shape, live: set<int>) {
    forall p, i :: 0 <= p < |s.kids| && 0 <= i < |s.kids[p]| ==> KidLive(s, live, p, i)
  }

  ghost predicate HaveParents(t: Tree, s: Shape, live: set<int>)
    requires |t.pptr| == |s.kids|
  {
    forall k <- live :: 0 <= k < |s.kids| && (k != 0 ==> 0 <= t.pptr[k] < |s.kids| && k in s.kids[t.pptr[k]])
  }

  /** A process and those below it, each before those below it: the order in which spgrp goes. */
  function Pre(s: Shape, p: int): seq<int>
    requires Ordered(s) && 0 <= p < |s.kids|
    decreases s.clock - s.birth[p], |s.kids[p]| + 1
  {
    [p] + PreFrom(s, p, 0)
  }

  /** The same for the children of a process from the `i`th on. */
  function PreFrom(s: Shape, p: int, i: nat): seq<int>
    requires Ordered(s) && 0 <= p < |s.kids| && i <= |s.kids[p]|
    decreases s.clock - s.birth[p], |s.kids[p]| - i
  {
    if i == |s.kids[p]| then [] else Pre(s, s.kids[p][i]) + PreFrom(s, p, i + 1)
  }

  /** From `x` the parent links lead to `p`. */
  ghost predicate Under(t: Tree, s: Shape, live: set<int>, x: int, p: int)
    requires TreeOk(t, s, live) && x in live
    decreases s.birth[x]
  {
    x == p || (x != 0 && (ParentOf(t, s, live, x); Under(t, s, live, t.pptr[x], p)))
  }

  lemma ParentOf(t: Tree, s: Shape, live: set<int>, x: int)
    requires TreeOk(t, s, live) && x in live && x != 0
    ensures 0 <= t.pptr[x] < |s.kids| && t.pptr[x] in live && x in s.kids[t.pptr[x]] && s.birth[t.pptr[x]] < s.birth[x]
  {
    var i :| 0 <= i < |s.kids[t.pptr[x]]| && s.kids[t.pptr[x]][i] == x;
    assert KidLive(s, live, t.pptr[x], i);
  }

  lemma KidOf(t: Tree, s: Shape, live: set<int>, p: int, i: nat)
    requires TreeOk(t, s, live) && 0 <= p < |s.kids| && i < |s.kids[p]|
    ensures s.kids[p][i] in live && p in live && s.kids[p][i] != 0 && t.pptr[s.kids[p][i]] == p
      && s.birth[p] < s.birth[s.kids[p][i]]
    ensures t.osptr[s.kids[p][i]] == if i + 1 < |s.kids[p]| then s.kids[p][i + 1] else NIL
  {
    assert Family(t, s, p) && KidLive(s, live, p, i);
    ChainAt(t.osptr, t.cptr[p], s.kids[p], NIL, i);
  }

  lemma {:induction false} UnderUp(t: Tree, s: Shape, live: set<int>, x: int, k: int)
    requires TreeOk(t, s, live) && x in live && k in live && k != 0 && Under(t, s, live, x, k)
    ensures Under(t, s, live, x, t.pptr[k])
    decreases s.birth[x]
  {
    ParentOf(t, s, live, x);
    if x != k {
      UnderUp(t, s, live, t.pptr[x], k);
    }
  }

  /** Whoever is under a process, and not it, is under one of its children. */
  lemma {:induction false} UnderKid(t: Tree, s: Shape, live: set<int>, x: int, p: int) returns (j: nat)
    requires TreeOk(t, s, live) && x in live && p in live && x != p && Under(t, s, live, x, p)
    ensures j < |s.kids[p]| && s.kids[p][j] in live && Under(t, s, live, x, s.kids[p][j])
    decreases s.birth[x]
  {
    ParentOf(t, s, live, x);
    if t.pptr[x] == p {
      j :| 0 <= j < |s.kids[p]| && s.kids[p][j] == x;
    } else {
      j := UnderKid(t, s, live, t.pptr[x], p);
      KidOf(t, s, live, p, j);
    }
  }

  lemma {:induction false} UnderYounger(t: Tree, s: Shape, live: set<int>, x: int, p: int)
    requires TreeOk(t, s, live) && x in live && p in live && Under(t, s, live, x, p)
    ensures s.birth[p] <= s.birth[x] && (x != p ==> s.birth[p] < s.birth[x])
    decreases s.birth[x]
  {
    if x != p {
      ParentOf(t, s, live, x);
      UnderYounger(t, s, live, t.pptr[x], p);
    }
  }

  /** Nobody is under two children of one process. */
  lemma {:induction false} UnderOne(t: Tree, s: Shape, live: set<int>, x: int, a: int, b: int)
    requires TreeOk(t, s, live) && x in live && a in live && b in live && a != 0 && b != 0 && t.pptr[a] == t.pptr[b]
    requires Under(t, s, live, x, a) && Under(t, s, live, x, b)
    ensures a == b
    decreases s.birth[x]
  {
    ParentOf(t, s, live, x);
    ParentOf(t, s, live, a);
    ParentOf(t, s, live, b);
    if x == a && x != b {
      UnderYounger(t, s, live, t.pptr[a], b);
    } else if x == b && x != a {
      UnderYounger(t, s, live, t.pptr[b], a);
    } else if x != a {
      UnderOne(t, s, live, t.pptr[x], a, b);
    }
  }

  lemma {:induction false} InPreFrom(s: Shape, p: int, i: nat, j: nat, x: int)
    requires Ordered(s) && 0 <= p < |s.kids| && i <= j < |s.kids[p]| && x in Pre(s, s.kids[p][j])
    ensures x in PreFrom(s, p, i)
    decreases j - i
  {
    if i < j {
      InPreFrom(s, p, i + 1, j, x);
    }
  }

  /** What the walk reaches is under its top. */
  lemma {:induction false} PreUnder(t: Tree, s: Shape, live: set<int>, p: int, x: int)
    requires TreeOk(t, s, live) && p in live && x in Pre(s, p)
    ensures x in live && Under(t, s, live, x, p)
    decreases s.clock - s.birth[p], |s.kids[p]| + 1
  {
    if x != p {
      var j := PreFromUnder(t, s, live, p, 0, x);
      KidOf(t, s, live, p, j);
      UnderUp(t, s, live, x, s.kids[p][j]);
    }
  }

  lemma {:induction false} PreFromUnder(t: Tree, s: Shape, live: set<int>, p: int, i: nat, x: int) returns (j: nat)
    requires TreeOk(t, s, live) && p in live && i <= |s.kids[p]| && x in PreFrom(s, p, i)
    ensures x in live && i <= j < |s.kids[p]| && s.kids[p][j] in live && Under(t, s, live, x, s.kids[p][j])
    decreases s.clock - s.birth[p], |s.kids[p]| - i
  {
    KidOf(t, s, live, p, i);
    if x in Pre(s, s.kids[p][i]) {
      j := i;
      PreUnder(t, s, live, s.kids[p][i], x);
    } else {
      j := PreFromUnder(t, s, live, p, i + 1, x);
    }
  }

  /** What is under the top is reached. */
  lemma {:induction false} UnderPre(t: Tree, s: Shape, live: set<int>, p: int, x: int)
    requires TreeOk(t, s, live) && p in live && x in live && Under(t, s, live, x, p)
    ensures x in Pre(s, p)
    decreases s.clock - s.birth[p]
  {
    if x != p {
      var j := UnderKid(t, s, live, x, p);
      KidOf(t, s, live, p, j);
      UnderPre(t, s, live, s.kids[p][j], x);
      InPreFrom(s, p, 0, j, x);
    }
  }

  /** The walk reaches each process once. */
  lemma {:induction false} PreDistinct(t: Tree, s: Shape, live: set<int>, p: int)
    requires TreeOk(t, s, live) && p in live
    ensures Distinct(Pre(s, p))
    decreases s.clock - s.birth[p], |s.kids[p]| + 1
  {
    PreFromDistinct(t, s, live, p, 0);
    if p in PreFrom(s, p, 0) {
      var j := PreFromUnder(t, s, live, p, 0, p);
      KidOf(t, s, live, p, j);
      UnderYounger(t, s, live, p, s.kids[p][j]);
    }
    JoinDistinct([p], PreFrom(s, p, 0));
  }

  lemma {:induction false} PreFromDistinct(t: Tree, s: Shape, live: set<int>, p: int, i: nat)
    requires TreeOk(t, s, live) && p in live && i <= |s.kids[p]|
    ensures Distinct(PreFrom(s, p, i))
    decreases s.clock - s.birth[p], |s.kids[p]| - i
  {
    if i < |s.kids[p]| {
      KidOf(t, s, live, p, i);
      PreDistinct(t, s, live, s.kids[p][i]);
      PreFromDistinct(t, s, live, p, i + 1);
      forall x | x in Pre(s, s.kids[p][i])
        ensures x !in PreFrom(s, p, i + 1)
      {
        PreUnder(t, s, live, s.kids[p][i], x);
        if x in PreFrom(s, p, i + 1) {
          var j := PreFromUnder(t, s, live, p, i + 1, x);
          KidOf(t, s, live, p, j);
          UnderOne(t, s, live, x, s.kids[p][i], s.kids[p][j]);
          KidsDistinct(t, s, live, p);
        }
      }
      JoinDistinct(Pre(s, s.kids[p][i]), PreFrom(s, p, i + 1));
    }
  }

  lemma KidsDistinct(t: Tree, s: Shape, live: set<int>, p: int)
    requires TreeOk(t, s, live) && p in live
    ensures Distinct(s.kids[p])
  {
    assert Family(t, s, p);
  }

  lemma JoinDistinct(a: seq<int>, b: seq<int>)
    requires Distinct(a) && Distinct(b) && forall x <- a :: x !in b
    ensures Distinct(a + b)
  {
    var c := a + b;
    forall i, j | 0 <= i < j < |c|
      ensures c[i] != c[j]
    {
      if i < |a| <= j {
        assert c[i] in a && c[j] == b[j - |a|];
      }
    }
  }

  /** spgrp's walk from below a point: what is still to come, at each level from the one it is on to the top. */
  datatype Level = Level(parent: int, index: nat)

  ghost predicate OkPath(s: Shape, path: seq<Level>) {
    forall i :: 0 <= i < |path| ==> 0 <= path[i].parent < |s.kids| && path[i].index < |s.kids[path[i].parent]|
  }

  function Pending(s: Shape, path: seq<Level>): seq<int>
    requires Ordered(s) && OkPath(s, path)
  {
    if path == [] then [] else PreFrom(s, path[0].parent, path[0].index + 1) + Pending(s, path[1..])
  }

  /** All that is to come with the walk at `p`, that included. */
  function Rest(s: Shape, p: int, path: seq<Level>): seq<int>
    requires Ordered(s) && OkPath(s, path) && 0 <= p < |s.kids|
  {
    Pre(s, p) + Pending(s, path)
  }

  /** The path leads from the process the walk is at, `p`, to its top. */
  ghost predicate Leads(s: Shape, path: seq<Level>, p: int, top: int)
    requires Ordered(s) && OkPath(s, path)
    decreases |path|
  {
    if path == [] then p == top
      else s.kids[path[0].parent][path[0].index] == p && Leads(s, path[1..], path[0].parent, top)
  }

  lemma {:induction false} LeadsDown(s: Shape, path: seq<Level>, p: int, top: int)
    requires Ordered(s) && OkPath(s, path) && Leads(s, path, p, top) && 0 <= top < |s.kids|
    ensures 0 <= p < |s.kids| && s.birth[top] <= s.birth[p] && (path != [] ==> s.birth[top] < s.birth[p])
    ensures path == [] <==> p == top
    ensures path != [] ==> 0 <= path[0].parent < |s.kids| && s.birth[top] <= s.birth[path[0].parent]
    decreases |path|
  {
    if path != [] {
      LeadsDown(s, path[1..], path[0].parent, top);
    }
  }

  /**
   A table of links that is another but for the youngest child of one slot: as good as it for a walk from younger
   ones.
   */
  ghost predicate ButFor(t: Tree, u: Tree, hole: int) {
    && t.pptr == u.pptr && t.osptr == u.osptr && |t.cptr| == |u.cptr|
    && forall p :: 0 <= p < |t.cptr| && p != hole ==> t.cptr[p] == u.cptr[p]
  }

  /** The same, where the children of that slot may be misled to one another too. */
  ghost predicate Astray(t: Tree, u: Tree, hole: int) {
    && t.pptr == u.pptr && |t.osptr| == |u.osptr| && |t.cptr| == |u.cptr|
    && (forall p :: 0 <= p < |t.cptr| && p != hole ==> t.cptr[p] == u.cptr[p])
    && forall p :: 0 <= p < |t.osptr| && p < |u.pptr| && u.pptr[p] != hole ==> t.osptr[p] == u.osptr[p]
  }

  lemma ButForAstray(t: Tree, u: Tree, hole: int)
    requires ButFor(t, u, hole)
    ensures Astray(t, u, hole)
  {
  }

  /** Where the links lead from a process on the way. */
  lemma LinksAt(u: Tree, s: Shape, live: set<int>, path: seq<Level>, p: int, top: int)
    requires TreeOk(u, s, live) && p in live && OkPath(s, path) && Leads(s, path, p, top)
    ensures 0 <= p < |s.kids| && u.cptr[p] == Head(s.kids[p], NIL)
      && (s.kids[p] != [] ==> u.cptr[p] in live && u.cptr[p] != NIL)
    ensures path != [] ==>
      var q, i := path[0].parent, path[0].index;
      0 <= q < |s.kids| && i < |s.kids[q]| && q in live && u.pptr[p] == q
        && u.osptr[p] == (if i + 1 < |s.kids[q]| then s.kids[q][i + 1] else NIL)
        && (i + 1 < |s.kids[q]| ==> u.osptr[p] in live && u.osptr[p] != NIL)
  {
    assert Family(u, s, p);
    if s.kids[p] != [] {
      KidOf(u, s, live, p, 0);
      ChainAt(u.osptr, u.cptr[p], s.kids[p], NIL, 0);
    }
    if path != [] {
      KidOf(u, s, live, path[0].parent, path[0].index);
      if path[0].index + 1 < |s.kids[path[0].parent]| {
        KidOf(u, s, live, path[0].parent, path[0].index + 1);
      }
    }
  }

  lemma Descend(s: Shape, path: seq<Level>, p: int, top: int)
    requires Ordered(s) && OkPath(s, path) && Leads(s, path, p, top) && 0 <= p < |s.kids|
    ensures Rest(s, p, path) != []
    ensures s.kids[p] == [] ==> Rest(s, p, path) == [p] + Pending(s, path)
    ensures s.kids[p] != [] ==>
      var down := [Level(p, 0)] + path;
      OkPath(s, down) && Leads(s, down, s.kids[p][0], top) && Rest(s, p, path) == [p] + Rest(s, s.kids[p][0], down)
  {
    if s.kids[p] != [] {
      var down := [Level(p, 0)] + path;
      assert down[1..] == path;
      assert Pre(s, p) + Pending(s, path) == [p] + Pre(s, s.kids[p][0]) + (PreFrom(s, p, 1) + Pending(s, path));
    }
  }

  lemma Sideways(s: Shape, path: seq<Level>, p: int, top: int)
    requires Ordered(s) && OkPath(s, path) && Leads(s, path, p, top) && path != []
    ensures
      var q, i := path[0].parent, path[0].index;
      && (i + 1 < |s.kids[q]| ==>
           var next := [Level(q, i + 1)] + path[1..];
           OkPath(s, next) && Leads(s, next, s.kids[q][i + 1], top)
             && Pending(s, path) == Rest(s, s.kids[q][i + 1], next))
      && (i + 1 == |s.kids[q]| ==>
          OkPath(s, path[1..]) && Leads(s, path[1..], q, top) && Pending(s, path) == Pending(s, path[1..]))
  {
    var q, i := path[0].parent, path[0].index;
    hide Pre, Ordered;
    if i + 1 < |s.kids[q]| {
      var next := [Level(q, i + 1)] + path[1..];
      assert next[1..] == path[1..];
      NextKid(s, q, i + 1);
      assert Pre(s, s.kids[q][i + 1]) + PreFrom(s, q, i + 2) + Pending(s, path[1..]) ==
        Pre(s, s.kids[q][i + 1]) + (PreFrom(s, q, i + 2) + Pending(s, path[1..]));
    } else {
      assert [] + Pending(s, path[1..]) == Pending(s, path[1..]);
    }
  }

  lemma NextKid(s: Shape, q: int, i: nat)
    requires Ordered(s) && 0 <= q < |s.kids| && i < |s.kids[q]|
    ensures PreFrom(s, q, i) == Pre(s, s.kids[q][i]) + PreFrom(s, q, i + 1) && 0 <= s.kids[q][i] < |s.kids|
  {
  }

  /** The links once `x` is the youngest child of `p`. */
  function Forked(t: Tree, p: int, x: int): Tree
    requires Sized(t, |t.cptr|) && 0 <= p < |t.cptr| && 0 <= x < |t.cptr|
      && (t.cptr[p] != NIL ==> 0 <= t.cptr[p] < |t.cptr|)
  {
    Tree(
      t.pptr[x := p],
      t.cptr[x := NIL][p := x],
      t.osptr[x := t.cptr[p]],
      if t.cptr[p] == NIL then t.ysptr[x := NIL] else t.ysptr[t.cptr[p] := x][x := NIL])
  }

  function Grown(s: Shape, p: int, x: int): Shape
    requires 0 <= p < |s.kids| && 0 <= x < |s.birth|
  {
    Shape(s.kids[p := [x] + s.kids[p]], s.birth[x := s.clock + 1], s.clock + 1)
  }

  /** Who has children is a process, and so is every child; a child has one parent, the one its link says. */
  lemma KidIn(t: Tree, s: Shape, live: set<int>, p: int, x: int)
    requires TreeOk(t, s, live) && 0 <= p < |s.kids| && x in s.kids[p]
    ensures p in live && x in live && x != 0 && 0 <= x < |s.kids| && t.pptr[x] == p && s.birth[p] < s.birth[x]
  {
    var i :| 0 <= i < |s.kids[p]| && s.kids[p][i] == x;
    KidOf(t, s, live, p, i);
  }

  lemma FamilyOf(t: Tree, s: Shape, live: set<int>, p: int)
    requires TreeOk(t, s, live) && 0 <= p < |s.kids|
    ensures Sized(t, |s.kids|) && Chain(t.osptr, t.cptr[p], s.kids[p], NIL) && Back(t.ysptr, s.kids[p], NIL)
      && Distinct(s.kids[p])
    ensures t.cptr[p] == Head(s.kids[p], NIL) && (t.cptr[p] != NIL ==>
      t.cptr[p] in s.kids[p] && 0 <= t.cptr[p] < |s.kids|)
  {
    assert Family(t, s, p);
    if s.kids[p] != [] {
      KidOf(t, s, live, p, 0);
      ChainAt(t.osptr, t.cptr[p], s.kids[p], NIL, 0);
    }
  }

  lemma FamilyIs(t: Tree, s: Shape, p: int)
    requires 0 <= p < |s.kids| && p < |t.cptr| && Chain(t.osptr, t.cptr[p], s.kids[p], NIL)
      && Back(t.ysptr, s.kids[p], NIL)
    requires forall x <- s.kids[p] :: 0 <= x < |t.pptr| && t.pptr[x] == p
    ensures Family(t, s, p)
  {
  }

  /** A family whose links are left alone. */
  lemma FamilyKept(t: Tree, s: Shape, live: set<int>, p: int, u: Tree, v: Shape)
    requires TreeOk(t, s, live) && 0 <= p < |s.kids| == |v.kids| && v.kids[p] == s.kids[p] && Sized(u, |s.kids|)
      && u.cptr[p] == t.cptr[p]
    requires forall x <- s.kids[p] :: 0 <= x < |s.kids| ==>
      u.osptr[x] == t.osptr[x] && u.ysptr[x] == t.ysptr[x] && u.pptr[x] == t.pptr[x]
    ensures Family(u, v, p)
  {
    FamilyOf(t, s, live, p);
    ChainFrame(t.osptr, u.osptr, t.cptr[p], s.kids[p], NIL);
    BackFrame(t.ysptr, u.ysptr, s.kids[p], NIL);
    forall x | x in s.kids[p]
      ensures 0 <= x < |u.pptr| && u.pptr[x] == p
    {
      KidIn(t, s, live, p, x);
    }
    FamilyIs(u, v, p);
  }

  lemma GrownFamily(t: Tree, s: Shape, live: set<int>, p: int, x: int, y: int)
    requires TreeOk(t, s, live) && p in live && 0 < x < |s.kids| && x !in live && 0 <= p < |s.kids| && 0 <= y < |s.kids|
    requires Sized(t, |s.kids|) && (t.cptr[p] != NIL ==> 0 <= t.cptr[p] < |s.kids|) && |s.birth| == |s.kids|
    ensures Family(Forked(t, p, x), Grown(s, p, x), y)
  {
    hide TreeOk, Family, Chain, Back;
    var u, v := Forked(t, p, x), Grown(s, p, x);
    FamilyOf(t, s, live, p);
    FamilyOf(t, s, live, y);
    forall k | k in s.kids[y]
      ensures k != x && (y != p ==> k != t.cptr[p])
    {
      KidIn(t, s, live, y, k);
      if t.cptr[p] != NIL {
        KidIn(t, s, live, p, t.cptr[p]);
      }
    }
    if y == x {
      NoKids(t, s, live, x);
    }
    if y != p {
      FamilyKept(t, s, live, y, u, v);
    } else {
      ChainPush(t.osptr, t.cptr[p], s.kids[p], NIL, x);
      BackPush(t.ysptr, s.kids[p], NIL, x);
      forall k | k in v.kids[p]
        ensures 0 <= k < |u.pptr| && u.pptr[k] == p
      {
        if k != x {
          KidIn(t, s, live, p, k);
        }
      }
      FamilyIs(u, v, p);
    }
  }

  lemma NoKids(t: Tree, s: Shape, live: set<int>, x: int)
    requires TreeOk(t, s, live) && 0 <= x < |s.kids| && x !in live
    ensures s.kids[x] == [] && Sized(t, |s.kids|) && t.cptr[x] == NIL
  {
    FamilyOf(t, s, live, x);
    if s.kids[x] != [] {
      KidOf(t, s, live, x, 0);
    }
  }

  lemma GrownOrder(t: Tree, s: Shape, live: set<int>, p: int, x: int)
    requires TreeOk(t, s, live) && p in live && 0 <= p < |s.kids| == |s.birth| && 0 < x < |s.kids| && x !in live
    ensures Ordered(Grown(s, p, x)) && KidsLive(Grown(s, p, x), live + {x})
  {
    hide Family, HaveParents;
    var v := Grown(s, p, x);
    forall y, i | 0 <= y < |v.kids| && 0 <= i < |v.kids[y]|
      ensures 0 <= v.kids[y][i] < |v.kids| && v.birth[y] < v.birth[v.kids[y][i]] && KidLive(v, live + {x}, y, i)
    {
      var k := v.kids[y][i];
      if k != x {
        assert k in s.kids[y];
        KidIn(t, s, live, y, k);
      } else if y != p {
        assert k in s.kids[y];
        KidIn(t, s, live, y, k);
      }
    }
  }

  lemma GrownParents(t: Tree, s: Shape, live: set<int>, p: int, x: int)
    requires TreeOk(t, s, live) && p in live && 0 <= p < |s.kids| == |s.birth| && 0 < x < |s.kids| && x !in live
      && Sized(t, |s.kids|)
    requires t.cptr[p] != NIL ==> 0 <= t.cptr[p] < |t.cptr|
    ensures HaveParents(Forked(t, p, x), Grown(s, p, x), live + {x})
  {
    hide Family, KidsLive, Ordered;
  }

  /** A fork keeps the tree. */
  lemma ForkKeepsTree(t: Tree, s: Shape, live: set<int>, p: int, x: int)
    requires TreeOk(t, s, live) && p in live && 0 < x < |s.kids| && x !in live
    ensures 0 <= p < |s.kids| && Sized(t, |s.kids|) && |s.birth| == |s.kids|
      && (t.cptr[p] != NIL ==> 0 <= t.cptr[p] < |s.kids|)
    ensures TreeOk(Forked(t, p, x), Grown(s, p, x), live + {x})
  {
    hide Family, KidsLive, HaveParents, Ordered;
    SizesOf(t, s, live, p);
    FamilyOf(t, s, live, p);
    NoKids(t, s, live, x);
    var u, v, now := Forked(t, p, x), Grown(s, p, x), live + {x};
    forall y | 0 <= y < |v.kids|
      ensures Family(u, v, y)
    {
      GrownFamily(t, s, live, p, x, y);
    }
    GrownOrder(t, s, live, p, x);
    GrownParents(t, s, live, p, x);
  }

  lemma SizesOf(t: Tree, s: Shape, live: set<int>, p: int)
    requires TreeOk(t, s, live) && p in live
    ensures 0 <= p < |s.kids| == |s.birth| && Sized(t, |s.kids|) && Ordered(s)
  {
  }

  /** The links once the youngest child of `p` is the youngest of `a`. */
  function Adopted(t: Tree, p: int, a: int): Tree
    requires Sized(t, |t.cptr|) && 0 <= p < |t.cptr| && 0 <= a < |t.cptr| && 0 <= t.cptr[p] < |t.cptr|
      && In(t.osptr[t.cptr[p]], |t.cptr|) && In(t.cptr[a], |t.cptr|)
  {
    var q := t.cptr[p];
    var nq := t.osptr[q];
    var y := if nq == NIL then t.ysptr else t.ysptr[nq := NIL];
    var z := if t.cptr[a] == NIL then y else y[t.cptr[a] := q];
    Tree(t.pptr[q := a], t.cptr[a := q][p := nq], t.osptr[q := t.cptr[a]], z[q := NIL])
  }

  /** A link is to a slot, or to none. */
  predicate In(x: int, n: int) {
    x != NIL ==> 0 <= x < n
  }

  function Moved(s: Shape, p: int, a: int): Shape
    requires 0 <= p < |s.kids| && 0 <= a < |s.kids| && s.kids[p] != []
  {
    s.(kids := s.kids[a := [s.kids[p][0]] + s.kids[a]][p := s.kids[p][1..]])
  }

  /** The links met in moving a child. */
  lemma AdoptLinks(t: Tree, s: Shape, live: set<int>, p: int, a: int)
    requires TreeOk(t, s, live) && p in live && a in live && 0 <= p < |s.kids| && s.kids[p] != []
    ensures 0 <= a < |s.kids| == |s.birth| && Sized(t, |s.kids|) && t.cptr[p] == s.kids[p][0]
      && 0 <= t.cptr[p] < |s.kids|
    ensures t.osptr[t.cptr[p]] == (if |s.kids[p]| > 1 then s.kids[p][1] else NIL) && In(t.osptr[t.cptr[p]], |s.kids|)
    ensures t.cptr[a] == Head(s.kids[a], NIL) && In(t.cptr[a], |s.kids|) && t.ysptr[t.cptr[p]] == NIL
    ensures t.cptr[p] in live && t.cptr[p] != 0 && s.birth[p] < s.birth[t.cptr[p]]
  {
    SizesOf(t, s, live, p);
    SizesOf(t, s, live, a);
    FamilyOf(t, s, live, p);
    FamilyOf(t, s, live, a);
    KidOf(t, s, live, p, 0);
    BackAt(t.ysptr, s.kids[p], NIL, 0);
    if |s.kids[p]| > 1 {
      ChainAt(t.osptr, t.cptr[p], s.kids[p], NIL, 1);
    }
  }

  lemma FirstLess(c: seq<int>)
    requires Distinct(c) && c != []
    ensures Removed(c, 0) == c[1..] && forall k :: k in c[1..] <==> k in c && k != c[0]
  {
    RemovedHas(c, 0);
    assert Removed(c, 0) == c[1..];
  }

  lemma MovedFrom(t: Tree, s: Shape, live: set<int>, p: int, a: int, u: Tree)
    requires TreeOk(t, s, live) && p in live && a in live && p != a && 0 <= p < |s.kids| && s.kids[p] != []
    requires 0 <= a < |s.kids| && Sized(t, |s.kids|) && 0 <= t.cptr[p] < |t.cptr| && In(t.osptr[t.cptr[p]], |t.cptr|)
      && In(t.cptr[a], |t.cptr|) && u == Adopted(t, p, a)
    ensures Family(u, Moved(s, p, a), p)
  {
    hide TreeOk, Family, Chain, Back;
    AdoptLinks(t, s, live, p, a);
    FamilyOf(t, s, live, p);
    var c, q := s.kids[p], t.cptr[p];
    var d := c[1..];
    FirstLess(c);
    ChainLess(t.osptr, t.cptr[p], c, NIL, 0);
    BackLess(t.ysptr, c, NIL, 0);
    forall k | k in d
      ensures k in c && k != q && k != t.cptr[a]
    {
      KidIn(t, s, live, p, k);
      if t.cptr[a] != NIL {
        FamilyOf(t, s, live, a);
        KidIn(t, s, live, a, t.cptr[a]);
      }
    }
    ChainFrame(t.osptr, u.osptr, t.osptr[q], d, NIL);
    BackFrame(if |c| > 1 then t.ysptr[c[1] := t.ysptr[q]] else t.ysptr, u.ysptr, d, NIL);
    forall k | k in d
      ensures 0 <= k < |u.pptr| && u.pptr[k] == p
    {
      KidIn(t, s, live, p, k);
    }
    FamilyIs(u, Moved(s, p, a), p);
  }

  lemma MovedTo(t: Tree, s: Shape, live: set<int>, p: int, a: int, u: Tree)
    requires TreeOk(t, s, live) && p in live && a in live && p != a && 0 <= p < |s.kids| && s.kids[p] != []
    requires 0 <= a < |s.kids| && Sized(t, |s.kids|) && 0 <= t.cptr[p] < |t.cptr| && In(t.osptr[t.cptr[p]], |t.cptr|)
      && In(t.cptr[a], |t.cptr|) && u == Adopted(t, p, a)
    ensures Family(u, Moved(s, p, a), a)
  {
    hide TreeOk, Family, Chain, Back;
    AdoptLinks(t, s, live, p, a);
    FamilyOf(t, s, live, p);
    FamilyOf(t, s, live, a);
    var q, nq := t.cptr[p], t.osptr[t.cptr[p]];
    KidIn(t, s, live, p, q);
    if nq != NIL {
      assert nq in s.kids[p];
      KidIn(t, s, live, p, nq);
    }
    forall k | k in s.kids[a]
      ensures k != q && k != nq && 0 <= k < |s.kids| && t.pptr[k] == a
    {
      KidIn(t, s, live, a, k);
    }
    var y := if nq == NIL then t.ysptr else t.ysptr[nq := NIL];
    BackFrame(t.ysptr, y, s.kids[a], NIL);
    ChainPush(t.osptr, t.cptr[a], s.kids[a], NIL, q);
    BackPush(y, s.kids[a], NIL, q);
    FamilyIs(u, Moved(s, p, a), a);
  }

  lemma MovedPast(t: Tree, s: Shape, live: set<int>, p: int, a: int, u: Tree, y: int)
    requires TreeOk(t, s, live) && p in live && a in live && p != a && 0 <= p < |s.kids| && s.kids[p] != []
    requires 0 <= a < |s.kids| && Sized(t, |s.kids|) && 0 <= t.cptr[p] < |t.cptr| && In(t.osptr[t.cptr[p]], |t.cptr|)
      && In(t.cptr[a], |t.cptr|) && u == Adopted(t, p, a)
    requires 0 <= y < |s.kids| && y != p && y != a
    ensures Family(u, Moved(s, p, a), y)
  {
    hide TreeOk, Family;
    AdoptLinks(t, s, live, p, a);
    var nq := t.osptr[t.cptr[p]];
    KidIn(t, s, live, p, t.cptr[p]);
    if nq != NIL {
      assert nq in s.kids[p];
      KidIn(t, s, live, p, nq);
    }
    if t.cptr[a] != NIL {
      KidIn(t, s, live, a, t.cptr[a]);
    }
    forall k | k in s.kids[y]
      ensures k != t.cptr[p] && k != nq && k != t.cptr[a]
    {
      KidIn(t, s, live, y, k);
    }
    FamilyKept(t, s, live, y, u, Moved(s, p, a));
  }

  lemma MovedOrder(t: Tree, s: Shape, live: set<int>, p: int, a: int)
    requires TreeOk(t, s, live) && p in live && a in live && p != a && 0 <= p < |s.kids|
      && 0 <= a < |s.kids| == |s.birth| && s.kids[p] != []
    requires 0 <= s.kids[p][0] < |s.birth| && s.birth[a] < s.birth[s.kids[p][0]]
    ensures Ordered(Moved(s, p, a)) && KidsLive(Moved(s, p, a), live)
  {
    hide Family, HaveParents;
    var v := Moved(s, p, a);
    forall y, i | 0 <= y < |v.kids| && 0 <= i < |v.kids[y]|
      ensures 0 <= v.kids[y][i] < |v.kids| && v.birth[y] < v.birth[v.kids[y][i]] && KidLive(v, live, y, i)
    {
      var k := v.kids[y][i];
      if k in s.kids[y] {
        KidIn(t, s, live, y, k);
      } else {
        KidIn(t, s, live, p, k);
      }
    }
  }

  lemma MovedParents(t: Tree, s: Shape, live: set<int>, p: int, a: int)
    requires TreeOk(t, s, live) && p in live && a in live && p != a && 0 <= p < |s.kids| && 0 <= a < |s.kids|
      && s.kids[p] != []
    requires Sized(t, |s.kids|) && 0 <= t.cptr[p] < |t.cptr| && In(t.osptr[t.cptr[p]], |t.cptr|)
      && In(t.cptr[a], |t.cptr|) && t.cptr[p] == s.kids[p][0]
    ensures HaveParents(Adopted(t, p, a), Moved(s, p, a), live)
  {
    hide Family, KidsLive, Ordered;
    var u, v := Adopted(t, p, a), Moved(s, p, a);
    forall k | k in live && k != 0
      ensures 0 <= k < |v.kids| && 0 <= u.pptr[k] < |v.kids| && k in v.kids[u.pptr[k]]
    {
      if k != t.cptr[p] {
        assert k in s.kids[t.pptr[k]];
        assert s.kids[p] == [s.kids[p][0]] + s.kids[p][1..];
      }
    }
  }

  /** The move of a child from one process to an older one keeps the tree. */
  lemma AdoptKeepsTree(t: Tree, s: Shape, live: set<int>, p: int, a: int)
    requires TreeOk(t, s, live) && p in live && a in live && p != a && 0 <= p < |s.kids| && s.kids[p] != []
    requires 0 <= s.kids[p][0] < |s.birth| && 0 <= a < |s.birth| && s.birth[a] < s.birth[s.kids[p][0]]
    ensures 0 <= a < |s.kids| && Sized(t, |s.kids|) && 0 <= t.cptr[p] < |t.cptr| && In(t.osptr[t.cptr[p]], |t.cptr|)
      && In(t.cptr[a], |t.cptr|)
    ensures TreeOk(Adopted(t, p, a), Moved(s, p, a), live)
  {
    hide Family, KidsLive, HaveParents, Ordered;
    AdoptLinks(t, s, live, p, a);
    var u, v := Adopted(t, p, a), Moved(s, p, a);
    forall y | 0 <= y < |v.kids|
      ensures Family(u, v, y)
    {
      if y == p {
        MovedFrom(t, s, live, p, a, u);
      } else if y == a {
        MovedTo(t, s, live, p, a, u);
      } else {
        MovedPast(t, s, live, p, a, u, y);
      }
    }
    MovedOrder(t, s, live, p, a);
    MovedParents(t, s, live, p, a);
  }

  /** The links without a childless process. */
  function Reaped(t: Tree, x: int): Tree
    requires Sized(t, |t.cptr|) && 0 <= x < |t.cptr| && 0 <= t.pptr[x] < |t.cptr| && In(t.osptr[x], |t.cptr|)
      && In(t.ysptr[x], |t.cptr|)
  {
    var p, o, y := t.pptr[x], t.osptr[x], t.ysptr[x];
    Tree(
      t.pptr[x := NIL],
      (if t.cptr[p] == x then t.cptr[p := o] else t.cptr)[x := NIL],
      (if y != NIL then t.osptr[y := o] else t.osptr)[x := NIL],
      (if o != NIL then t.ysptr[o := y] else t.ysptr)[x := NIL])
  }

  function Shrunk(s: Shape, p: int, i: nat): Shape
    requires 0 <= p < |s.kids| && i < |s.kids[p]|
  {
    s.(kids := s.kids[p := Removed(s.kids[p], i)])
  }

  /** The links met in taking a process off its brothers. */
  lemma ReapLinks(t: Tree, s: Shape, live: set<int>, p: int, i: nat)
    requires TreeOk(t, s, live) && 0 <= p < |s.kids| && i < |s.kids[p]|
    ensures
      var x := s.kids[p][i];
      && Sized(t, |s.kids|) && 0 <= x < |s.kids| && x in live && p in live && x != 0 && x != p && t.pptr[x] == p
      && t.osptr[x] == (if i + 1 < |s.kids[p]| then s.kids[p][i + 1] else NIL) && In(t.osptr[x], |s.kids|)
      && t.ysptr[x] == (if i == 0 then NIL else s.kids[p][i - 1]) && In(t.ysptr[x], |s.kids|)
      && (i > 0 ==> s.kids[p][i - 1] != NIL) && (t.cptr[p] == x <==> i == 0) && t.cptr[p] == s.kids[p][0]
      && (i + 1 < |s.kids[p]| ==> s.kids[p][i + 1] != NIL)
  {
    SizesOf(t, s, live, 0);
    FamilyOf(t, s, live, p);
    KidOf(t, s, live, p, i);
    ChainAt(t.osptr, t.cptr[p], s.kids[p], NIL, i);
    BackAt(t.ysptr, s.kids[p], NIL, i);
    if i > 0 {
      ChainAt(t.osptr, t.cptr[p], s.kids[p], NIL, i - 1);
    }
    if i + 1 < |s.kids[p]| {
      ChainAt(t.osptr, t.cptr[p], s.kids[p], NIL, i + 1);
    }
  }

  lemma ReapedFrom(t: Tree, s: Shape, live: set<int>, p: int, i: nat, u: Tree)
    requires TreeOk(t, s, live) && 0 <= p < |s.kids| && i < |s.kids[p]|
    requires
      var x := s.kids[p][i];
      Sized(t, |t.cptr|) && 0 <= x < |t.cptr| && 0 <= t.pptr[x] < |t.cptr| && In(t.osptr[x], |t.cptr|)
        && In(t.ysptr[x], |t.cptr|) && u == Reaped(t, x)
    ensures Family(u, Shrunk(s, p, i), p)
  {
    hide TreeOk, Family, Chain, Back;
    ReapLinks(t, s, live, p, i);
    FamilyOf(t, s, live, p);
    var c, x := s.kids[p], s.kids[p][i];
    var d := Removed(c, i);
    RemovedHas(c, i);
    ChainLess(t.osptr, t.cptr[p], c, NIL, i);
    BackLess(t.ysptr, c, NIL, i);
    ChainFrame(if i == 0 then t.osptr else t.osptr[c[i - 1] := t.osptr[x]], u.osptr, u.cptr[p], d, NIL);
    BackFrame(if i + 1 < |c| then t.ysptr[c[i + 1] := t.ysptr[x]] else t.ysptr, u.ysptr, d, NIL);
    forall k | k in d
      ensures 0 <= k < |u.pptr| && u.pptr[k] == p
    {
      KidIn(t, s, live, p, k);
    }
    FamilyIs(u, Shrunk(s, p, i), p);
  }

  lemma ReapedPast(t: Tree, s: Shape, live: set<int>, p: int, i: nat, u: Tree, y: int)
    requires TreeOk(t, s, live) && 0 <= p < |s.kids| && i < |s.kids[p]| && 0 <= y < |s.kids| && y != p
    requires
      var x := s.kids[p][i];
      Sized(t, |t.cptr|) && 0 <= x < |t.cptr| == |s.kids| && 0 <= t.pptr[x] < |t.cptr| && In(t.osptr[x], |t.cptr|)
        && In(t.ysptr[x], |t.cptr|) && u == Reaped(t, x) && s.kids[x] == []
    ensures Family(u, Shrunk(s, p, i), y)
  {
    hide TreeOk, Family;
    ReapLinks(t, s, live, p, i);
    var x := s.kids[p][i];
    FamilyOf(t, s, live, x);
    forall k | k in s.kids[y]
      ensures k != x && k != t.osptr[x] && k != t.ysptr[x]
    {
      KidIn(t, s, live, y, k);
      if i > 0 {
        KidIn(t, s, live, p, s.kids[p][i - 1]);
      }
      if i + 1 < |s.kids[p]| {
        KidIn(t, s, live, p, s.kids[p][i + 1]);
      }
      if k == t.osptr[x] && i + 1 == |s.kids[p]| {
        KidIn(t, s, live, y, NIL);
      }
      if k == t.ysptr[x] && i == 0 {
        KidIn(t, s, live, y, NIL);
      }
    }
    FamilyKept(t, s, live, y, u, Shrunk(s, p, i));
  }

  lemma ShrunkOrder(t: Tree, s: Shape, live: set<int>, p: int, i: nat)
    requires TreeOk(t, s, live) && 0 <= p < |s.kids| && i < |s.kids[p]| && 0 <= s.kids[p][i] < |s.kids|
      && s.kids[s.kids[p][i]] == []
    ensures Ordered(Shrunk(s, p, i)) && KidsLive(Shrunk(s, p, i), live - {s.kids[p][i]})
  {
    hide Family, HaveParents;
    var v, x := Shrunk(s, p, i), s.kids[p][i];
    KidsDistinctAt(t, s, live, p);
    RemovedHas(s.kids[p], i);
    KidIn(t, s, live, p, x);
    forall y, j | 0 <= y < |v.kids| && 0 <= j < |v.kids[y]|
      ensures 0 <= v.kids[y][j] < |v.kids| && v.birth[y] < v.birth[v.kids[y][j]] && KidLive(v, live - {x}, y, j)
    {
      var k := v.kids[y][j];
      assert k in v.kids[y];
      KidIn(t, s, live, y, k);
    }
  }

  lemma KidsDistinctAt(t: Tree, s: Shape, live: set<int>, p: int)
    requires TreeOk(t, s, live) && 0 <= p < |s.kids|
    ensures Distinct(s.kids[p])
  {
    FamilyOf(t, s, live, p);
  }

  lemma ShrunkParents(t: Tree, s: Shape, live: set<int>, p: int, i: nat)
    requires TreeOk(t, s, live) && 0 <= p < |s.kids| && i < |s.kids[p]|
    requires
      var x := s.kids[p][i];
      Sized(t, |t.cptr|) && 0 <= x < |t.cptr| == |s.kids| && 0 <= t.pptr[x] < |t.cptr| && In(t.osptr[x], |t.cptr|)
        && In(t.ysptr[x], |t.cptr|)
    ensures HaveParents(Reaped(t, s.kids[p][i]), Shrunk(s, p, i), live - {s.kids[p][i]})
  {
    KidsDistinctAt(t, s, live, p);
    RemovedHas(s.kids[p], i);
    hide Family, KidsLive, Ordered, Removed;
  }

  /** The reaping of a childless process keeps the tree. */
  lemma ReapKeepsTree(t: Tree, s: Shape, live: set<int>, p: int, i: nat)
    requires TreeOk(t, s, live) && 0 <= p < |s.kids| && i < |s.kids[p]| && 0 <= s.kids[p][i] < |s.kids|
      && s.kids[s.kids[p][i]] == []
    ensures
      var x := s.kids[p][i];
      && Sized(t, |s.kids|) && 0 <= t.pptr[x] < |t.cptr| && In(t.osptr[x], |t.cptr|) && In(t.ysptr[x], |t.cptr|)
      && TreeOk(Reaped(t, x), Shrunk(s, p, i), live - {x})
  {
    hide Family, KidsLive, HaveParents, Ordered;
    ReapLinks(t, s, live, p, i);
    var x := s.kids[p][i];
    var u, v := Reaped(t, x), Shrunk(s, p, i);
    forall y | 0 <= y < |v.kids|
      ensures Family(u, v, y)
    {
      if y == p {
        ReapedFrom(t, s, live, p, i, u);
      } else {
        ReapedPast(t, s, live, p, i, u, y);
      }
    }
    ShrunkOrder(t, s, live, p, i);
    ShrunkParents(t, s, live, p, i);
  }

  /** The walk, all in all: everyone under its top, and everyone once. */
  lemma WalkIsSubtree(t: Tree, s: Shape, live: set<int>, top: int)
    requires TreeOk(t, s, live) && top in live
    ensures Distinct(Pre(s, top))
    ensures forall x <- live :: x in Pre(s, top) <==> Under(t, s, live, x, top)
    ensures forall x <- Pre(s, top) :: x in live
  {
    hide TreeOk, Pre, Under;
    SizesOf(t, s, live, top);
    PreDistinct(t, s, live, top);
    forall x | x in Pre(s, top)
      ensures x in live && Under(t, s, live, x, top)
    {
      PreUnder(t, s, live, top, x);
    }
    forall x | x in live && Under(t, s, live, x, top)
      ensures x in Pre(s, top)
    {
      UnderPre(t, s, live, top, x);
    }
  }

  // ---------------------------------------------------------------------------------------------------
  // Who is whose child
  // ---------------------------------------------------------------------------------------------------

  /** A process keeps the parent it had. */
  predicate SameParent(t: Tree, u: Tree, y: int) {
    0 <= y < |t.pptr| == |u.pptr| && u.pptr[y] == t.pptr[y]
  }

  /**
   `x` is the youngest child of `p`, in front of the one that was, and has none; all others have the parent they had.
   */
  ghost predicate NewChild(t: Tree, u: Tree, live: set<int>, p: int, x: int) {
    && 0 <= p < |u.cptr| == |t.cptr| == |u.pptr| == |u.osptr| && 0 <= x < |u.cptr|
    && u.pptr[x] == p && u.cptr[p] == x && u.cptr[x] == NIL && u.osptr[x] == t.cptr[p]
    && forall y <- live :: y != 0 ==> SameParent(t, u, y)
  }

  lemma GrownLinks(t: Tree, s: Shape, live: set<int>, u: Tree, p: int, x: int)
    requires TreeOk(t, s, live) && p in live && 0 <= p < |s.kids| == |s.birth| && 0 < x < |s.kids| && x !in live
    requires TreeOk(u, Grown(s, p, x), live + {x})
    ensures NewChild(t, u, live, p, x)
  {
    hide TreeOk;
    var v := Grown(s, p, x);
    FamilyOf(t, s, live, p);
    FamilyOf(u, v, live + {x}, p);
    FamilyOf(u, v, live + {x}, x);
    NoKids(t, s, live, x);
    KidIn(u, v, live + {x}, p, x);
    ChainAt(u.osptr, u.cptr[p], v.kids[p], NIL, 0);
    forall y | y in live && y != 0
      ensures SameParent(t, u, y)
    {
      Slotted(t, s, live, y);
      ParentOf(t, s, live, y);
      var q := t.pptr[y];
      assert y in v.kids[q] by {
        assert q == p ==> y in s.kids[p];
      }
      KidIn(u, v, live + {x}, q, y);
    }
  }

  lemma Slotted(t: Tree, s: Shape, live: set<int>, y: int)
    requires TreeOk(t, s, live) && y in live
    ensures 0 <= y < |s.kids| == |t.pptr|
  {
  }

  /** The children of `p` are those of slot 1, and all others have the parent they had. */
  ghost predicate AllAdopted(t: Tree, u: Tree, live: set<int>, p: int) {
    && 0 <= p < |u.cptr| && u.cptr[p] == NIL && |t.pptr| == |u.pptr|
    && forall y <- live :: y != 0 && 0 <= y < |t.pptr| ==> u.pptr[y] == if t.pptr[y] == p then 1 else t.pptr[y]
  }

  lemma AdoptedLinks(t: Tree, s: Shape, live: set<int>, u: Tree, v: Shape, p: int)
    requires TreeOk(t, s, live) && TreeOk(u, v, live) && 0 <= p < |s.kids| == |v.kids| && p != 1 && 1 < |s.kids|
    requires v.kids[p] == [] && (forall y :: y in s.kids[p] || y in s.kids[1] ==> y in v.kids[1])
    requires forall q :: 0 <= q < |s.kids| && q != 1 && q != p ==> v.kids[q] == s.kids[q]
    ensures AllAdopted(t, u, live, p)
  {
    hide TreeOk;
    FamilyOf(t, s, live, p);
    FamilyOf(u, v, live, p);
    forall y | y in live && y != 0
      ensures 0 <= y < |t.pptr| && u.pptr[y] == if t.pptr[y] == p then 1 else t.pptr[y]
    {
      Slotted(t, s, live, y);
      ParentOf(t, s, live, y);
      var q := t.pptr[y];
      KidIn(u, v, live, if q == p then 1 else q, y);
    }
  }

  /** All but one have the parent they had. */
  ghost predicate OthersStay(t: Tree, u: Tree, live: set<int>, x: int) {
    forall y <- live :: y != 0 && y != x ==> SameParent(t, u, y)
  }

  lemma ShrunkLinks(t: Tree, s: Shape, live: set<int>, u: Tree, p: int, i: nat)
    requires TreeOk(t, s, live) && 0 <= p < |s.kids| && i < |s.kids[p]|
      && TreeOk(u, Shrunk(s, p, i), live - {s.kids[p][i]})
    ensures OthersStay(t, u, live, s.kids[p][i]) && forall q :: 0 <= q < |s.kids| ==>
      s.kids[p][i] !in Shrunk(s, p, i).kids[q]
  {
    hide TreeOk;
    var x, v := s.kids[p][i], Shrunk(s, p, i);
    FamilyOf(t, s, live, p);
    FamilyOf(u, v, live - {x}, p);
    forall y | y in live && y != 0 && y != x
      ensures SameParent(t, u, y)
    {
      Slotted(t, s, live, y);
      ParentOf(t, s, live, y);
      var q := t.pptr[y];
      if q == p {
        var j :| 0 <= j < |s.kids[p]| && s.kids[p][j] == y;
        assert v.kids[p][if j < i then j else j - 1] == y;
      }
      KidIn(u, v, live - {x}, q, y);
    }
    forall q | 0 <= q < |s.kids|
      ensures x !in v.kids[q]
    {
      if x in v.kids[q] {
        KidIn(u, v, live - {x}, q, x);
      }
    }
  }
}
