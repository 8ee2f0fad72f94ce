/**
 The radix tree of block pointers below an indirect block, and the fragments it occupies.

 A tree of height 0 is a data block; one of height `lv` is an indirect block of `n` pointers to trees of height
 `lv - 1`.  A pointer of 0 is a hole.
 */
module BlockTree {
  import opened FragMap

  // ---------------------------------------------------------------------------------------------------
  // Unions of pieces
  // ---------------------------------------------------------------------------------------------------

  ghost function Union(ps: seq<set<nat>>): set<nat> {
    if ps == [] then {} else ps[0] + Union(ps[1..])
  }

  /** No two pieces share a fragment. */
  ghost predicate Apart(ps: seq<set<nat>>) {
    forall i: nat, j: nat :: i < j < |ps| ==> ps[i] !! ps[j]
  }

  lemma {:induction false} InUnion(ps: seq<set<nat>>, x: nat)
    ensures x in Union(ps) <==> exists i: nat :: i < |ps| && x in ps[i]
  {
    if ps != [] {
      InUnion(ps[1..], x);
      if x in Union(ps[1..]) {
        var i: nat :| i < |ps[1..]| && x in ps[1..][i];
        assert x in ps[i + 1];
      }
      if exists i: nat :: 0 < i < |ps| && x in ps[i] {
        var i: nat :| 0 < i < |ps| && x in ps[i];
        assert x in ps[1..][i - 1];
      }
    }
  }

  lemma PieceInUnion(ps: seq<set<nat>>)
    ensures forall i: nat :: i < |ps| ==> ps[i] <= Union(ps)
  {
    forall i: nat, x | i < |ps| && x in ps[i]
      ensures x in Union(ps)
    {
      InUnion(ps, x);
    }
  }

  /** The piece an element of a union comes from. */
  lemma Whose(ps: seq<set<nat>>, x: nat) returns (i: nat)
    requires x in Union(ps)
    ensures i < |ps| && x in ps[i]
  {
    InUnion(ps, x);
    i :| i < |ps| && x in ps[i];
  }

  lemma {:induction false} EmptyUnion(ps: seq<set<nat>>)
    requires forall i :: 0 <= i < |ps| ==> ps[i] == {}
    ensures Union(ps) == {}
  {
    if ps != [] {
      EmptyUnion(ps[1..]);
    }
  }

  /** Exchanging one piece for another that meets none of the rest. */
  lemma UnionUpdate(ps: seq<set<nat>>, k: nat, s: set<nat>)
    requires k < |ps| && Apart(ps) && s !! Union(ps) - ps[k]
    ensures Apart(ps[k := s]) && Union(ps[k := s]) == (Union(ps) - ps[k]) + s && ps[k] <= Union(ps)
  {
    var now := ps[k := s];
    PieceInUnion(ps);
    PieceInUnion(now);
    forall i: nat, j: nat | i < j < |ps|
      ensures now[i] !! now[j]
    {
      if i == k {
        assert ps[j] <= Union(ps) - ps[k];
      } else if j == k {
        assert ps[i] <= Union(ps) - ps[k];
      }
    }
    forall x | x in Union(now)
      ensures x in (Union(ps) - ps[k]) + s
    {
      var i := Whose(now, x);
      assert i < k ==> ps[i] !! ps[k];
      assert k < i ==> ps[k] !! ps[i];
    }
    forall x | x in (Union(ps) - ps[k]) + s
      ensures x in Union(now)
    {
      if x in s {
        assert x in now[k];
      } else {
        var i := Whose(ps, x);
        assert x in now[i];
      }
    }
  }

  /** Pieces cut off at `c`: those before are kept, that one is reduced, those after are gone. */
  ghost predicate Cut(ps: seq<set<nat>>, now: seq<set<nat>>, c: int) {
    && |ps| == |now| && -1 <= c < |ps|
    && (forall i :: 0 <= i < c ==> now[i] == ps[i])
    && (forall i :: c < i < |ps| ==> now[i] == {})
    && (0 <= c ==> now[c] <= ps[c])
  }

  /** What is cut off: the pieces after `c`, and what `c` lost. */
  ghost function CutOff(ps: seq<set<nat>>, now: seq<set<nat>>, c: int): set<nat>
    requires Cut(ps, now, c)
  {
    Union(ps[c + 1..]) + if 0 <= c then ps[c] - now[c] else {}
  }

  lemma TailUnion(ps: seq<set<nat>>, k: nat, x: nat)
    requires k <= |ps|
    ensures x in Union(ps[k..]) <==> exists i: nat :: k <= i < |ps| && x in ps[i]
  {
    if x in Union(ps[k..]) {
      var j := Whose(ps[k..], x);
      assert x in ps[k + j];
    }
    if exists i: nat :: k <= i < |ps| && x in ps[i] {
      var i: nat :| k <= i < |ps| && x in ps[i];
      assert x in ps[k..][i - k];
      InUnion(ps[k..], x);
    }
  }

  lemma CutUnion(ps: seq<set<nat>>, now: seq<set<nat>>, c: int)
    requires Apart(ps) && Cut(ps, now, c)
    ensures Apart(now) && Union(now) <= Union(ps) && Union(ps) - Union(now) == CutOff(ps, now, c)
    ensures 0 <= c ==> Union(ps[c + 1..]) !! ps[c]
  {
    hide Union;
    assert forall i: nat :: i < |ps| ==> now[i] <= ps[i];
    forall x: nat
      ensures x in Union(now) ==> x in Union(ps)
      ensures x in Union(ps) && x !in Union(now) <==> x in CutOff(ps, now, c)
      ensures 0 <= c && x in ps[c] ==> x !in Union(ps[c + 1..])
    {
      InUnion(ps, x);
      InUnion(now, x);
      TailUnion(ps, c + 1, x);
    }
  }

  // ---------------------------------------------------------------------------------------------------
  // Index arithmetic
  // ---------------------------------------------------------------------------------------------------

  /** Data blocks below a tree of height `lv`. */
  function Span(n: nat, lv: nat): (p: nat)
    requires 0 < n
    ensures 0 < p
  {
    if lv == 0 then 1 else n * Span(n, lv - 1)
  }

  /** The pointer that leads to data block `x` of a tree of height `lv`. */
  function Digit(n: nat, lv: nat, x: nat): nat
    requires 0 < n && 0 < lv
  {
    x / Span(n, lv - 1)
  }

  /** Where data block `x` lies in the subtree it is reached by. */
  function Rest(n: nat, lv: nat, x: nat): nat
    requires 0 < n && 0 < lv
  {
    x % Span(n, lv - 1)
  }

  lemma SplitIndex(n: nat, lv: nat, x: nat)
    requires 0 < n && 0 < lv && x < Span(n, lv)
    ensures Digit(n, lv, x) < n && Rest(n, lv, x) < Span(n, lv - 1)
    ensures x == Digit(n, lv, x) * Span(n, lv - 1) + Rest(n, lv, x)
  {
    var p := Span(n, lv - 1);
    DivMod(x, p);
    if n <= x / p {
      if n < x / p {
        MulStep(n, x / p, p);
      }
    }
  }

  lemma SameIndex(n: nat, lv: nat, x: nat, y: nat)
    requires 0 < n && 0 < lv && Digit(n, lv, x) == Digit(n, lv, y) && Rest(n, lv, x) == Rest(n, lv, y)
    ensures x == y
  {
    DivMod(x, Span(n, lv - 1));
    DivMod(y, Span(n, lv - 1));
  }

  /** Blocks are ordered by their first pointer, and then within its subtree. */
  lemma IndexOrder(n: nat, lv: nat, x: nat, y: nat)
    requires 0 < n && 0 < lv
    ensures x <= y <==>
      Digit(n, lv, x) < Digit(n, lv, y) || (Digit(n, lv, x) == Digit(n, lv, y) && Rest(n, lv, x) <= Rest(n, lv, y))
  {
    var p := Span(n, lv - 1);
    DivMod(x, p);
    DivMod(y, p);
    if x / p < y / p {
      MulStep(x / p, y / p, p);
    } else if y / p < x / p {
      MulStep(y / p, x / p, p);
    }
  }

  // ---------------------------------------------------------------------------------------------------
  // The tree
  // ---------------------------------------------------------------------------------------------------

  /** Disk blocks read as block pointers: `n` to a block of `frag` fragments, on a disk of `limit` fragments. */
  datatype Store = Store(frag: nat, n: nat, limit: nat, ptrs: map<nat, seq<nat>>) {

    ghost predicate Valid() {
      0 < frag && 0 < n
    }

    function Entries(nb: nat): (e: seq<nat>)
      ensures |e| == n
    {
      if nb in ptrs && |ptrs[nb]| == n then ptrs[nb] else seq(n, _ => 0)
    }

    /** The fragments of the tree at `nb`, indirect blocks included. */
    ghost function Frags(nb: nat, lv: nat): set<nat>
      decreases lv, 0
    {
      if nb == 0 then {} else Interval(nb, frag) + if lv == 0 then {} else Union(Kids(nb, lv))
    }

    ghost function Kids(nb: nat, lv: nat): (ps: seq<set<nat>>)
      requires 0 < lv
      ensures |ps| == n && forall i: nat :: i < n ==> ps[i] == Frags(Entries(nb)[i], lv - 1)
      decreases lv - 1, 1
    {
      seq(n, i requires 0 <= i < n => Frags(Entries(nb)[i], lv - 1))
    }

    /** The fragments of the subtrees from pointer `i` on. */
    ghost function Past(nb: nat, lv: nat, i: nat): set<nat>
      requires 0 < lv && i <= n
    {
      Union(Kids(nb, lv)[i..])
    }

    /** Every block is aligned and on the disk, and no two blocks share a fragment. */
    ghost predicate Sound(nb: nat, lv: nat)
      decreases lv
    {
      nb == 0 || (
        && 0 < frag && nb % frag == 0 && nb + frag <= limit
        && (0 < lv ==>
          && (forall i: nat :: i < n ==> Sound(Entries(nb)[i], lv - 1))
          && Apart(Kids(nb, lv)) && Interval(nb, frag) !! Union(Kids(nb, lv))))
    }

    /** The block on the way to data block `x`, `d` steps down; 0 if a hole is met. */
    ghost function At(nb: nat, lv: nat, x: nat, d: nat): nat
      requires d <= lv && Valid() && x < Span(n, lv)
      decreases d
    {
      if nb == 0 || d == 0 then nb
      else (SplitIndex(n, lv, x); At(Entries(nb)[Digit(n, lv, x)], lv - 1, Rest(n, lv, x), d - 1))
    }

    /** The address of data block `x` of the tree; 0 for a hole. */
    ghost function Lookup(nb: nat, lv: nat, x: nat): nat
      requires Valid() && x < Span(n, lv)
    {
      At(nb, lv, x, lv)
    }

    /** No indirect block of the tree is there only for data blocks past `last`. */
    ghost predicate Pruned(nb: nat, lv: nat, last: int)
      requires Valid() && last < Span(n, lv)
      decreases lv
    {
      nb == 0 || lv == 0 ||
        if last < 0 then forall i: nat :: i < n ==> Entries(nb)[i] == 0
        else
          SplitIndex(n, lv, last);
          && (forall i: nat :: Digit(n, lv, last) < i < n ==> Entries(nb)[i] == 0)
          && Pruned(Entries(nb)[Digit(n, lv, last)], lv - 1, Rest(n, lv, last))
    }
  }

  /** The same disk, but for the pointers in the blocks of `where`. */
  ghost predicate SameBut(s: Store, t: Store, where: set<nat>) {
    && s.frag == t.frag && s.n == t.n && s.limit == t.limit
    && forall b: nat :: b !in where ==> s.Entries(b) == t.Entries(b)
  }

  /** The fragments that were in a tree and no longer are. */
  ghost function Lost(s: Store, t: Store, nb: nat, lv: nat): set<nat> {
    s.Frags(nb, lv) - t.Frags(nb, lv)
  }

  /** A tree none of whose blocks changed is the same tree. */
  lemma {:induction false} Unchanged(s: Store, t: Store, nb: nat, lv: nat, where: set<nat>)
    requires s.Valid() && SameBut(s, t, where) && where !! s.Frags(nb, lv)
    ensures t.Frags(nb, lv) == s.Frags(nb, lv) && t.Sound(nb, lv) == s.Sound(nb, lv)
    decreases lv
  {
    hide Union, Apart, Store.Entries;
    if nb != 0 && lv != 0 {
      KidsUntouched(s, t, nb, lv, where);
      var e := s.Entries(nb);
      forall i: nat | i < s.n
        ensures t.Frags(e[i], lv - 1) == s.Frags(e[i], lv - 1) && t.Sound(e[i], lv - 1) == s.Sound(e[i], lv - 1)
      {
        Unchanged(s, t, e[i], lv - 1, where);
      }
      assert t.Kids(nb, lv) == s.Kids(nb, lv);
    }
  }

  lemma KidsUntouched(s: Store, t: Store, nb: nat, lv: nat, where: set<nat>)
    requires s.Valid() && SameBut(s, t, where) && where !! s.Frags(nb, lv) && nb != 0 && lv != 0
    ensures t.Entries(nb) == s.Entries(nb) && forall i: nat :: i < s.n ==> where !! s.Frags(s.Entries(nb)[i], lv - 1)
  {
    assert nb in Interval(nb, s.frag);
    PieceInUnion(s.Kids(nb, lv));
    forall i: nat | i < s.n
      ensures where !! s.Frags(s.Entries(nb)[i], lv - 1)
    {
      assert s.Kids(nb, lv)[i] <= s.Frags(nb, lv);
    }
  }

  lemma {:induction false} UnchangedAt(s: Store, t: Store, nb: nat, lv: nat, where: set<nat>, x: nat, d: nat)
    requires s.Valid() && SameBut(s, t, where) && where !! s.Frags(nb, lv) && x < Span(s.n, lv) && d <= lv
    ensures t.At(nb, lv, x, d) == s.At(nb, lv, x, d)
    decreases d
  {
    hide Union, Apart, Store.Entries, Span, Digit, Rest;
    if nb != 0 && d != 0 {
      KidsUntouched(s, t, nb, lv, where);
      SplitIndex(s.n, lv, x);
      UnchangedAt(s, t, s.Entries(nb)[Digit(s.n, lv, x)], lv - 1, where, Rest(s.n, lv, x), d - 1);
    }
  }

  lemma {:induction false} UnchangedPruned(s: Store, t: Store, nb: nat, lv: nat, where: set<nat>, last: int)
    requires s.Valid() && SameBut(s, t, where) && where !! s.Frags(nb, lv) && last < Span(s.n, lv)
    ensures t.Pruned(nb, lv, last) == s.Pruned(nb, lv, last)
    decreases lv
  {
    hide Union, Apart, Store.Entries, Span, Digit, Rest;
    if nb != 0 && lv != 0 {
      KidsUntouched(s, t, nb, lv, where);
      if 0 <= last {
        SplitIndex(s.n, lv, last);
        UnchangedPruned(s, t, s.Entries(nb)[Digit(s.n, lv, last)], lv - 1, where, Rest(s.n, lv, last));
      }
    }
  }

  // ---------------------------------------------------------------------------------------------------
  // Growing a tree
  // ---------------------------------------------------------------------------------------------------

  /** Block `nb` may join a tree: it is aligned, on the disk, and new to the fragments of `used`. */
  ghost predicate Joins(s: Store, nb: nat, used: set<nat>) {
    s.Valid() && 0 < nb && nb % s.frag == 0 && nb + s.frag <= s.limit && Interval(nb, s.frag) !! used
  }

  ghost predicate Blank(s: Store, nb: nat) {
    forall i: nat :: i < s.n ==> s.Entries(nb)[i] == 0
  }

  /** A data block, or an indirect block with nothing in it. */
  lemma Sprout(s: Store, nb: nat, lv: nat)
    requires Joins(s, nb, {}) && (lv == 0 || Blank(s, nb))
    ensures s.Sound(nb, lv) && s.Frags(nb, lv) == Interval(nb, s.frag)
  {
    hide Store.Entries, Interval;
    if lv != 0 {
      forall i: nat | i < s.n
        ensures s.Kids(nb, lv)[i] == {}
      {
        assert s.Entries(nb)[i] == 0;
      }
      EmptyUnion(s.Kids(nb, lv));
    }
  }

  lemma SproutAt(s: Store, nb: nat, lv: nat, x: nat)
    requires Joins(s, nb, {}) && (lv == 0 || Blank(s, nb)) && x < Span(s.n, lv)
    ensures s.Lookup(nb, lv, x) == if lv == 0 then nb else 0
  {
    hide Store.Entries, Interval, Span, Digit, Rest;
    if lv != 0 {
      SplitIndex(s.n, lv, x);
      assert s.At(s.Entries(nb)[Digit(s.n, lv, x)], lv - 1, Rest(s.n, lv, x), lv - 1) == 0;
    }
  }

  /** The pointer followed at step `d` on the way to data block `x`. */
  function DigitAt(n: nat, lv: nat, x: nat, d: nat): nat
    requires 0 < n && d < lv
    decreases d
  {
    if d == 0 then Digit(n, lv, x) else DigitAt(n, lv - 1, Rest(n, lv, x), d - 1)
  }

  lemma {:induction false} NextAt(s: Store, root: nat, lv: nat, x: nat, d: nat)
    requires s.Valid() && x < Span(s.n, lv) && d < lv && s.At(root, lv, x, d) != 0
    ensures DigitAt(s.n, lv, x, d) < s.n
    ensures s.At(root, lv, x, d + 1) == s.Entries(s.At(root, lv, x, d))[DigitAt(s.n, lv, x, d)]
    decreases d
  {
    hide Store.Entries, Span, Digit, Rest;
    SplitIndex(s.n, lv, x);
    var kid, rest := s.Entries(root)[Digit(s.n, lv, x)], Rest(s.n, lv, x);
    if d == 0 {
      assert s.At(kid, lv - 1, rest, 0) == kid;
    } else {
      NextAt(s, kid, lv - 1, rest, d - 1);
    }
  }

  /** Past a hole there are only holes. */
  lemma {:induction false} AtZero(s: Store, root: nat, lv: nat, x: nat, d: nat, e: nat)
    requires s.Valid() && x < Span(s.n, lv) && d <= e <= lv && s.At(root, lv, x, d) == 0
    ensures s.At(root, lv, x, e) == 0
    decreases d
  {
    hide Store.Entries, Span, Digit, Rest;
    if root != 0 {
      SplitIndex(s.n, lv, x);
      AtZero(s, s.Entries(root)[Digit(s.n, lv, x)], lv - 1, Rest(s.n, lv, x), d - 1, e - 1);
    }
  }

  lemma {:induction false} SpanSum(n: nat, a: nat, b: nat)
    requires 0 < n
    ensures Span(n, a + b) == Span(n, a) * Span(n, b)
  {
    if a == 0 {
      assert Span(n, a) == 1;
    } else {
      SpanSum(n, a - 1, b);
      assert n * (Span(n, a - 1) * Span(n, b)) == (n * Span(n, a - 1)) * Span(n, b);
    }
  }

  lemma DivShift(x: nat, a: nat, p: nat, m: nat, r: nat)
    requires 0 < p && x == a * (p * m) + r
    ensures x / p == a * m + r / p
  {
    DivMod(r, p);
    assert x == (a * m + r / p) * p + r % p by {
      assert a * (p * m) == (a * m) * p;
      assert (a * m + r / p) * p == (a * m) * p + (r / p) * p;
    }
    DivModUnique(x, p, a * m + r / p, r % p);
  }

  lemma ModShift(a: nat, n: nat, k: nat, y: nat)
    requires 0 < n
    ensures (a * (n * k) + y) % n == y % n
  {
    DivMod(y, n);
    assert a * (n * k) + y == (a * k + y / n) * n + y % n by {
      assert a * (n * k) == (a * k) * n;
      assert (a * k + y / n) * n == (a * k) * n + (y / n) * n;
    }
    DivModUnique(a * (n * k) + y, n, a * k + y / n, y % n);
  }

  /** The way bmap picks pointers, from the number of the block as it is, follows the tree. */
  lemma {:induction false} DigitByDivision(n: nat, lv: nat, x: nat, d: nat)
    requires 0 < n && d < lv && x < Span(n, lv)
    ensures (x / Span(n, lv - 1 - d)) % n == DigitAt(n, lv, x, d)
    decreases d
  {
    hide Span;
    SplitIndex(n, lv, x);
    if d == 0 {
      DivModUnique(Digit(n, lv, x), n, 0, Digit(n, lv, x));
    } else {
      var p, q := Span(n, lv - 1 - d), Span(n, lv - 1);
      var rest, k := Rest(n, lv, x), Span(n, d - 1);
      DigitByDivision(n, lv - 1, rest, d - 1);
      SpanOne(n);
      SpanSum(n, lv - 1 - d, d);
      SpanSum(n, 1, d - 1);
      assert q == p * (n * k);
      DivShift(x, Digit(n, lv, x), p, n * k, rest);
      ModShift(Digit(n, lv, x), n, k, rest / p);
    }
  }

  lemma SpanOne(n: nat)
    requires 0 < n
    ensures Span(n, 0) == 1 && Span(n, 1) == n
  {
  }

  /** `t` is `s` with new block `nb` put where the way to data block `x` met a hole after `d` steps. */
  ghost predicate Grafted(s: Store, t: Store, root: nat, lv: nat, x: nat, d: nat, nb: nat) {
    && s.Valid() && x < Span(s.n, lv) && d < lv
    && s.At(root, lv, x, d) != 0 && s.At(root, lv, x, d + 1) == 0
    && SameBut(s, t, {s.At(root, lv, x, d), nb})
    && DigitAt(s.n, lv, x, d) < s.n
    && t.Entries(s.At(root, lv, x, d)) == s.Entries(s.At(root, lv, x, d))[DigitAt(s.n, lv, x, d) := nb]
    && (d + 1 < lv ==> Blank(t, nb))
  }

  /** The parts of a sound tree. */
  lemma Parts(s: Store, root: nat, lv: nat)
    requires s.Valid() && 0 < lv && root != 0 && s.Sound(root, lv)
    ensures s.Frags(root, lv) == Interval(root, s.frag) + Union(s.Kids(root, lv))
      && Interval(root, s.frag) !! Union(s.Kids(root, lv))
    ensures root in Interval(root, s.frag) && Apart(s.Kids(root, lv))
    ensures forall i: nat :: i < s.n ==>
      s.Sound(s.Entries(root)[i], lv - 1) && s.Kids(root, lv)[i] <= Union(s.Kids(root, lv))
  {
    PieceInUnion(s.Kids(root, lv));
  }

  lemma OtherKids(s: Store, t: Store, root: nat, lv: nat, i: nat, where: set<nat>)
    requires s.Valid() && 0 < lv && root != 0 && s.Sound(root, lv) && i < s.n && SameBut(s, t, where)
    requires forall j: nat :: j < s.n && j != i ==>
      t.Entries(root)[j] == s.Entries(root)[j] && where !! s.Kids(root, lv)[j]
    ensures forall j: nat :: j < s.n && j != i ==> t.Sound(t.Entries(root)[j], lv - 1)
    ensures t.Kids(root, lv) == s.Kids(root, lv)[i := t.Frags(t.Entries(root)[i], lv - 1)]
  {
    hide Store.Entries, Store.Frags, Union, Apart, Interval;
    forall j: nat | j < s.n && j != i
      ensures t.Sound(t.Entries(root)[j], lv - 1) && t.Frags(t.Entries(root)[j], lv - 1) == s.Kids(root, lv)[j]
    {
      Unchanged(s, t, s.Entries(root)[j], lv - 1, where);
    }
  }

  /** A tree in which the subtree at pointer `i` of the root becomes another one. */
  lemma OneKid(s: Store, t: Store, root: nat, lv: nat, i: nat, where: set<nat>)
    requires s.Valid() && 0 < lv && root != 0 && s.Sound(root, lv) && i < s.n && SameBut(s, t, where)
    requires forall j: nat :: j < s.n && j != i ==>
      t.Entries(root)[j] == s.Entries(root)[j] && where !! s.Kids(root, lv)[j]
    requires t.Sound(t.Entries(root)[i], lv - 1)
    requires t.Frags(t.Entries(root)[i], lv - 1) !! (Union(s.Kids(root, lv)) - s.Kids(root, lv)[i]) +
      Interval(root, s.frag)
    ensures t.Sound(root, lv)
    ensures t.Frags(root, lv) == (s.Frags(root, lv) - s.Kids(root, lv)[i]) + t.Frags(t.Entries(root)[i], lv - 1)
  {
    hide Store.Entries, Union, Apart, Interval;
    OtherKids(s, t, root, lv, i, where);
    ghost var now, ks := t.Frags(t.Entries(root)[i], lv - 1), s.Kids(root, lv);
    UnionUpdate(ks, i, now);
    assert t.Frags(root, lv) == Interval(root, s.frag) + Union(ks[i := now]);
    Exchange(Interval(root, s.frag), Union(ks), ks[i], now);
  }

  lemma Exchange(top: set<nat>, all: set<nat>, one: set<nat>, now: set<nat>)
    requires top !! all && one <= all && now !! (all - one) + top
    ensures top + ((all - one) + now) == ((top + all) - one) + now && top !! (all - one) + now
  {
  }

  /** What lies in one piece, or is new to all of them, meets no other piece. */
  lemma MissesOthers(ps: seq<set<nat>>, i: nat, inside: set<nat>, outside: set<nat>)
    requires Apart(ps) && i < |ps| && inside <= ps[i] && outside !! Union(ps)
    ensures forall j: nat :: j < |ps| && j != i ==> inside + outside !! ps[j]
  {
    PieceInUnion(ps);
    forall j: nat | j < |ps| && j != i
      ensures inside + outside !! ps[j]
    {
      assert if j < i then ps[j] !! ps[i] else ps[i] !! ps[j];
      assert outside !! ps[j];
    }
  }

  lemma BlockInTree(s: Store, root: nat, lv: nat, x: nat, d: nat)
    requires s.Valid() && x < Span(s.n, lv) && d <= lv && s.At(root, lv, x, d) != 0
    ensures Interval(s.At(root, lv, x, d), s.frag) <= s.Frags(root, lv) && s.At(root, lv, x, d) in s.Frags(root, lv)
    decreases d
  {
    hide Store.Entries, Store.Frags, Union, Span, Digit, Rest, Interval;
    if d == 0 {
      OwnBlock(s, root, lv);
    } else {
      SplitIndex(s.n, lv, x);
      var i := Digit(s.n, lv, x);
      BlockInTree(s, s.Entries(root)[i], lv - 1, Rest(s.n, lv, x), d - 1);
      KidInTree(s, root, lv, i);
    }
  }

  lemma OwnBlock(s: Store, root: nat, lv: nat)
    requires root != 0 && 0 < s.frag
    ensures Interval(root, s.frag) <= s.Frags(root, lv) && root in s.Frags(root, lv)
  {
    hide Union, Store.Entries;
    assert root in Interval(root, s.frag);
  }

  lemma KidInTree(s: Store, root: nat, lv: nat, i: nat)
    requires root != 0 && 0 < lv && i < s.n
    ensures s.Frags(s.Entries(root)[i], lv - 1) <= s.Frags(root, lv)
  {
    hide Union, Store.Entries, Interval;
    PieceInUnion(s.Kids(root, lv));
    assert s.Kids(root, lv)[i] <= s.Frags(root, lv);
  }

  lemma GraftAtRoot(s: Store, t: Store, root: nat, lv: nat, x: nat, nb: nat)
    requires Grafted(s, t, root, lv, x, 0, nb) && s.Sound(root, lv) && Joins(s, nb, s.Frags(root, lv))
    ensures t.Sound(root, lv) && t.Frags(root, lv) == s.Frags(root, lv) + Interval(nb, s.frag)
      && t.At(root, lv, x, 1) == nb
  {
    hide Store.Entries, Store.Sound, Store.Frags, Union, Apart, Span, Digit, Rest, Interval;
    SplitIndex(s.n, lv, x);
    var i := Digit(s.n, lv, x);
    Parts(s, root, lv);
    assert s.At(s.Entries(root)[i], lv - 1, Rest(s.n, lv, x), 0) == 0;
    assert t.At(t.Entries(root)[i], lv - 1, Rest(s.n, lv, x), 0) == nb;
    assert s.Kids(root, lv)[i] == {} by { NoFrags(s, lv - 1); }
    Sprout(t, nb, lv - 1);
    NewBlock(s, nb, root, Union(s.Kids(root, lv)));
    MissesOthers(s.Kids(root, lv), i, {}, {root, nb});
    OneKid(s, t, root, lv, i, {root, nb});
  }

  lemma NoFrags(s: Store, lv: nat)
    ensures s.Frags(0, lv) == {}
  {
  }

  lemma NewBlock(s: Store, nb: nat, root: nat, kids: set<nat>)
    requires Joins(s, nb, Interval(root, s.frag) + kids) && Interval(root, s.frag) !! kids
    ensures nb !in Interval(root, s.frag) + kids && root !in kids && root != nb && {root, nb} !! kids && {nb} !! kids
  {
    hide Interval;
    TwoNew(Interval(nb, s.frag), Interval(root, s.frag), kids, nb, root);
  }

  lemma TwoNew(piece: set<nat>, top: set<nat>, kids: set<nat>, nb: nat, root: nat)
    requires nb in piece && root in top && piece !! top + kids && top !! kids
    ensures nb !in top + kids && root !in kids && root != nb && {root, nb} !! kids && {nb} !! kids
  {
    assert nb !in top + kids && root !in kids;
  }

  /** A graft adds the new block to the tree and nothing else. */
  lemma {:induction false} Graft(s: Store, t: Store, root: nat, lv: nat, x: nat, d: nat, nb: nat)
    requires Grafted(s, t, root, lv, x, d, nb) && s.Sound(root, lv) && Joins(s, nb, s.Frags(root, lv))
    ensures t.Sound(root, lv) && t.Frags(root, lv) == s.Frags(root, lv) + Interval(nb, s.frag)
    ensures t.At(root, lv, x, d + 1) == nb
    decreases d
  {
    hide Store.Entries, Store.Sound, Store.Frags, Union, Apart, Span, Digit, Rest, Interval;
    if d == 0 {
      GraftAtRoot(s, t, root, lv, x, nb);
    } else {
      SplitIndex(s.n, lv, x);
      var i, b := Digit(s.n, lv, x), s.At(root, lv, x, d);
      var kid, rest := s.Entries(root)[i], Rest(s.n, lv, x);
      Parts(s, root, lv);
      NewBlock(s, nb, root, Union(s.Kids(root, lv)));
      BlockInTree(s, kid, lv - 1, rest, d - 1);
      Graft(s, t, kid, lv - 1, rest, d - 1, nb);
      MissesOthers(s.Kids(root, lv), i, {b}, {nb});
      OneKid(s, t, root, lv, i, {b, nb});
    }
  }

  /** The subtrees that are not on the way to the new block are as before. */
  lemma OtherLookup(s: Store, t: Store, root: nat, lv: nat, i: nat, where: set<nat>, y: nat)
    requires s.Valid() && 0 < lv && root != 0 && s.Sound(root, lv) && i < s.n && SameBut(s, t, where)
    requires forall j: nat :: j < s.n && j != i ==>
      t.Entries(root)[j] == s.Entries(root)[j] && where !! s.Kids(root, lv)[j]
    requires y < Span(s.n, lv) && Digit(s.n, lv, y) != i
    ensures t.Lookup(root, lv, y) == s.Lookup(root, lv, y)
  {
    hide Store.Entries, Store.Sound, Store.Frags, Union, Apart, Span, Digit, Rest, Interval;
    SplitIndex(s.n, lv, y);
    UnchangedAt(s, t, s.Entries(root)[Digit(s.n, lv, y)], lv - 1, where, Rest(s.n, lv, y), lv - 1);
  }

  lemma LookupStep(s: Store, root: nat, lv: nat, y: nat)
    requires s.Valid() && 0 < lv && root != 0 && y < Span(s.n, lv)
    ensures Digit(s.n, lv, y) < s.n && Rest(s.n, lv, y) < Span(s.n, lv - 1)
    ensures s.Lookup(root, lv, y) == s.Lookup(s.Entries(root)[Digit(s.n, lv, y)], lv - 1, Rest(s.n, lv, y))
  {
    hide Store.Entries, Span, Digit, Rest;
    SplitIndex(s.n, lv, y);
  }

  /** After a graft only data block `x` may be found elsewhere, and it is if the new block is a data block. */
  lemma {:induction false} GraftLookup(s: Store, t: Store, root: nat, lv: nat, x: nat, d: nat, nb: nat, y: nat)
    requires Grafted(s, t, root, lv, x, d, nb) && s.Sound(root, lv) && Joins(s, nb, s.Frags(root, lv))
      && y < Span(s.n, lv)
    ensures t.Lookup(root, lv, y) == if y == x && d + 1 == lv then nb else s.Lookup(root, lv, y)
    decreases d
  {
    hide Store.Entries, Store.Sound, Store.Frags, Union, Apart, Span, Digit, Rest, Interval;
    SplitIndex(s.n, lv, x);
    SplitIndex(s.n, lv, y);
    var i, b := Digit(s.n, lv, x), s.At(root, lv, x, d);
    var kid, rest := s.Entries(root)[i], Rest(s.n, lv, x);
    Parts(s, root, lv);
    NewBlock(s, nb, root, Union(s.Kids(root, lv)));
    LookupStep(s, root, lv, y);
    LookupStep(t, root, lv, y);
    if d == 0 {
      MissesOthers(s.Kids(root, lv), i, {}, {root, nb});
      if Digit(s.n, lv, y) != i {
        OtherLookup(s, t, root, lv, i, {root, nb}, y);
      } else {
        assert s.At(kid, lv - 1, rest, 0) == 0;
        SproutAt(t, nb, lv - 1, Rest(s.n, lv, y));
        OneLeaf(s.n, lv, x, y);
      }
    } else {
      BlockInTree(s, kid, lv - 1, rest, d - 1);
      MissesOthers(s.Kids(root, lv), i, {b}, {nb});
      if Digit(s.n, lv, y) != i {
        OtherLookup(s, t, root, lv, i, {b, nb}, y);
      } else {
        GraftLookup(s, t, kid, lv - 1, rest, d - 1, nb, Rest(s.n, lv, y));
        OneLeaf(s.n, lv, x, y);
      }
    }
  }

  lemma OneLeaf(n: nat, lv: nat, x: nat, y: nat)
    requires 0 < n && 0 < lv && Digit(n, lv, x) == Digit(n, lv, y)
    ensures x == y <==> Rest(n, lv, x) == Rest(n, lv, y)
    ensures lv == 1 ==> x == y
  {
    if Rest(n, lv, x) == Rest(n, lv, y) {
      SameIndex(n, lv, x, y);
    }
  }

  // ---------------------------------------------------------------------------------------------------
  // Pruning a tree
  // ---------------------------------------------------------------------------------------------------

  /** `t` keeps the data blocks of the tree up to `last`, and of the indirect blocks those still needed. */
  ghost predicate Trimmed(s: Store, t: Store, nb: nat, lv: nat, last: int) {
    && s.Valid() && t.Valid() && s.n == t.n && last < Span(s.n, lv)
    && t.Sound(nb, lv) && t.Frags(nb, lv) <= s.Frags(nb, lv) && t.Pruned(nb, lv, last)
    && forall y {:trigger t.Lookup(nb, lv, y)} :: 0 <= y < Span(s.n, lv) ==>
        t.Lookup(nb, lv, y) == if y <= last then s.Lookup(nb, lv, y) else 0
  }

  /** The pointer of the last subtree that is kept, at least in part. */
  function LastKid(n: nat, lv: nat, last: int): int
    requires 0 < n && 0 < lv
  {
    if last < 0 then -1 else Digit(n, lv, last)
  }

  /** The pointers up to `c` stay, the others are cleared. */
  ghost predicate Cleared(s: Store, t: Store, nb: nat, c: int) {
    s.n == t.n && forall j: nat :: j < s.n ==> t.Entries(nb)[j] == if j <= c then s.Entries(nb)[j] else 0
  }

  /** Nothing kept, or nothing there. */
  lemma TrimNothing(s: Store, nb: nat, lv: nat, last: int)
    requires s.Valid() && s.Sound(nb, lv) && last < Span(s.n, lv) && (nb == 0 || (lv == 0 && 0 <= last))
    ensures Trimmed(s, s, nb, lv, last)
  {
    hide Store.Entries, Span;
    SpanZero(s.n);
    forall y {:trigger s.Lookup(nb, lv, y)} | 0 <= y < Span(s.n, lv)
      ensures s.Lookup(nb, lv, y) == if y <= last then s.Lookup(nb, lv, y) else 0
    {
    }
  }

  lemma SpanZero(n: nat)
    requires 0 < n
    ensures Span(n, 0) == 1
  {
  }

  /** Trimming what is still as it was. */
  lemma TrimSame(s: Store, t: Store, u: Store, nb: nat, lv: nat, last: int, where: set<nat>)
    requires s.Valid() && SameBut(s, t, where) && where !! s.Frags(nb, lv) && Trimmed(t, u, nb, lv, last)
    ensures Trimmed(s, u, nb, lv, last)
  {
    hide Store.Entries, Store.Sound, Store.Frags, Store.Pruned, Span;
    Unchanged(s, t, nb, lv, where);
    forall y {:trigger u.Lookup(nb, lv, y)} | 0 <= y < Span(s.n, lv)
      ensures t.Lookup(nb, lv, y) == s.Lookup(nb, lv, y)
    {
      UnchangedAt(s, t, nb, lv, where, y, lv);
    }
  }

  /** The subtrees of a trimmed tree, beside those of the tree it was. */
  lemma TrimmedKids(s: Store, t: Store, root: nat, lv: nat, c: int, where: set<nat>)
    requires s.Valid() && t.Valid() && 0 < lv && root != 0 && s.Sound(root, lv) && -1 <= c < s.n
    requires SameBut(s, t, where) && Cleared(s, t, root, c)
    requires forall j: nat :: j < c ==> where !! s.Kids(root, lv)[j]
    requires 0 <= c ==>
      t.Sound(t.Entries(root)[c], lv - 1) && t.Frags(t.Entries(root)[c], lv - 1) <= s.Kids(root, lv)[c]
    ensures Cut(s.Kids(root, lv), t.Kids(root, lv), c)
    ensures forall j: nat :: j < s.n ==> t.Sound(t.Entries(root)[j], lv - 1)
  {
    hide Store.Entries, Store.Frags, Union, Apart, Interval;
    forall j: nat | j < s.n && j != c
      ensures t.Sound(t.Entries(root)[j], lv - 1)
      ensures t.Frags(t.Entries(root)[j], lv - 1) == if j < c then s.Kids(root, lv)[j] else {}
    {
      if j < c {
        Unchanged(s, t, s.Entries(root)[j], lv - 1, where);
      } else {
        NoFrags(t, lv - 1);
      }
    }
  }

  /** Trimming a tree: the last subtree is trimmed, those after it are cut off. */
  lemma TrimRoot(s: Store, t: Store, root: nat, lv: nat, last: int, where: set<nat>)
    requires s.Valid() && t.Valid() && 0 < lv && root != 0 && s.Sound(root, lv) && -1 <= last < Span(s.n, lv)
    requires SameBut(s, t, where) && LastKid(s.n, lv, last) < s.n && Cleared(s, t, root, LastKid(s.n, lv, last))
    requires forall j: nat :: j < LastKid(s.n, lv, last) ==> where !! s.Kids(root, lv)[j]
    requires 0 <= last ==> Trimmed(s, t, s.Entries(root)[LastKid(s.n, lv, last)], lv - 1, Rest(s.n, lv, last))
    ensures Cut(s.Kids(root, lv), t.Kids(root, lv), LastKid(s.n, lv, last))
    ensures s.Frags(root, lv) - t.Frags(root, lv) == CutOff(s.Kids(root, lv), t.Kids(root, lv), LastKid(s.n, lv, last))
    ensures t.Sound(root, lv) && t.Frags(root, lv) <= s.Frags(root, lv)
  {
    hide Store.Entries, Union, Apart, Interval, Cut, CutOff, Span, Digit, Rest;
    var c := LastKid(s.n, lv, last);
    TrimmedKids(s, t, root, lv, c, where);
    CutUnion(s.Kids(root, lv), t.Kids(root, lv), c);
    Parts(s, root, lv);
    assert t.Frags(root, lv) == Interval(root, s.frag) + Union(t.Kids(root, lv));
  }

  lemma TrimLookup(s: Store, t: Store, root: nat, lv: nat, last: int, where: set<nat>)
    requires s.Valid() && t.Valid() && 0 < lv && root != 0 && s.Sound(root, lv) && -1 <= last < Span(s.n, lv)
    requires SameBut(s, t, where) && LastKid(s.n, lv, last) < s.n && Cleared(s, t, root, LastKid(s.n, lv, last))
    requires forall j: nat :: j < LastKid(s.n, lv, last) ==> where !! s.Kids(root, lv)[j]
    requires 0 <= last ==> Trimmed(s, t, s.Entries(root)[LastKid(s.n, lv, last)], lv - 1, Rest(s.n, lv, last))
    ensures t.Pruned(root, lv, last)
    ensures forall y {:trigger t.Lookup(root, lv, y)} :: 0 <= y < Span(s.n, lv) ==>
      t.Lookup(root, lv, y) == if y <= last then s.Lookup(root, lv, y) else 0
  {
    hide Store.Entries, Store.Sound, Store.Frags, Span, Digit, Rest;
    var c := LastKid(s.n, lv, last);
    forall y {:trigger t.Lookup(root, lv, y)} | 0 <= y < Span(s.n, lv)
      ensures t.Lookup(root, lv, y) == if y <= last then s.Lookup(root, lv, y) else 0
    {
      LookupStep(s, root, lv, y);
      LookupStep(t, root, lv, y);
      var i := Digit(s.n, lv, y);
      if 0 <= last {
        IndexOrder(s.n, lv, y, last);
      }
      if i < c {
        assert where !! s.Kids(root, lv)[i];
        UnchangedAt(s, t, s.Entries(root)[i], lv - 1, where, Rest(s.n, lv, y), lv - 1);
      }
    }
    if 0 <= last {
      SplitIndex(s.n, lv, last);
    }
  }

  /** Two data blocks of a sound tree share no fragment. */
  lemma {:induction false} LeavesApart(s: Store, root: nat, lv: nat, x: nat, y: nat)
    requires s.Valid() && s.Sound(root, lv) && x < Span(s.n, lv) && y < Span(s.n, lv) && x != y
    requires s.Lookup(root, lv, x) != 0 && s.Lookup(root, lv, y) != 0
    ensures Disjoint(Interval(s.Lookup(root, lv, x), s.frag), Interval(s.Lookup(root, lv, y), s.frag))
    decreases lv
  {
    hide Store.Entries, Store.Sound, Store.Frags, Union, Apart, Span, Digit, Rest, Interval;
    SpanZero(s.n);
    LookupStep(s, root, lv, x);
    LookupStep(s, root, lv, y);
    Parts(s, root, lv);
    var i, j := Digit(s.n, lv, x), Digit(s.n, lv, y);
    BlockInTree(s, s.Entries(root)[i], lv - 1, Rest(s.n, lv, x), lv - 1);
    BlockInTree(s, s.Entries(root)[j], lv - 1, Rest(s.n, lv, y), lv - 1);
    if i == j {
      OneLeaf(s.n, lv, x, y);
      LeavesApart(s, s.Entries(root)[i], lv - 1, Rest(s.n, lv, x), Rest(s.n, lv, y));
    } else {
      MissesOthers(s.Kids(root, lv), i, s.Kids(root, lv)[i], {});
      assert s.Kids(root, lv)[i] + {} == s.Kids(root, lv)[i];
    }
  }
}
