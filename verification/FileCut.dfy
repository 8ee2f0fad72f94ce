/**
 What it is to cut a file off after a block.
 */
module FileCut {
  import opened FragMap
  import opened BlockTree
  import opened FileMap

  /** The last block of a file of `length` bytes; -1 if it has none. */
  function LastBlockOf(bsize: nat, length: nat): int
    requires 0 < bsize
  {
    Lblkno(bsize, length + bsize - 1) - 1
  }

  lemma StartZero(bsize: nat)
    ensures Start(bsize, 0) == 0
  {
  }

  lemma LastBlockEnds(bsize: nat, length: nat)
    requires 0 < bsize
    ensures LastBlockOf(bsize, length) >= -1 && (LastBlockOf(bsize, length) < 0 <==> length == 0)
    ensures 0 < length ==> Start(bsize, LastBlockOf(bsize, length)) < length <= Start(bsize,
      LastBlockOf(bsize, length) + 1)
    ensures Blkoff(bsize, length) != 0 ==> LastBlockOf(bsize, length) == Lblkno(bsize, length)
  {
    hide Start, Lblkno, Blkoff;
    var q := Lblkno(bsize, length + bsize - 1);
    InBlock(bsize, length + bsize - 1, q);
    StartStep(bsize, 0);
    var b := Lblkno(bsize, length);
    InBlock(bsize, length, b);
    StartStep(bsize, b);
    StartStep(bsize, b + 1);
    InBlock(bsize, length + bsize - 1, b + 1);
    StartZero(bsize);
    if q != 0 {
      StartStep(bsize, q - 1);
      StartStep(bsize, q);
    }
  }

  /** The pointer of the inode that is the last to be kept, at least in part. */
  function CutAt(n: nat, last: int): (c: int)
    requires 0 < n && -1 <= last < MaxBlocks(n)
    ensures -1 <= c < NDADDR + NIADDR && (last < NDADDR ==> c == last) && (NDADDR <= last ==> NDADDR <= c)
  {
    if last < 0 then -1 else Slot(n, last)
  }

  /** Pointers up to number `c` are kept, later ones are 0. */
  ghost predicate KeptUpTo(now: seq<nat>, was: seq<nat>, c: int) {
    |now| == |was| && forall i :: 0 <= i < |was| ==> now[i] == if i <= c then was[i] else 0
  }

  lemma KeptStep(now: seq<nat>, was: seq<nat>, i: nat)
    requires KeptUpTo(now, was, i) && i < |was|
    ensures |now| == |was| && now[i] == was[i] && KeptUpTo(now[i := 0], was, i - 1)
  {
  }

  lemma KeptAll(was: seq<nat>, c: int)
    requires |was| - 1 <= c
    ensures KeptUpTo(was, was, c)
  {
  }

  lemma KeptNone(now: seq<nat>, was: seq<nat>, c: int)
    requires KeptUpTo(now, was, -1) && c < 0
    ensures KeptUpTo(now, was, c)
  {
  }

  lemma KeptOpen(now: seq<nat>, was: seq<nat>, c: nat)
    requires KeptUpTo(now, was, c) && c < |was|
    ensures |now| == |was| && now[c] == was[c]
  {
  }

  lemma KeptOne(now: seq<nat>, other: seq<nat>, was: seq<nat>, c: int)
    requires KeptUpTo(now, was, c) && KeptUpTo(other, was, c)
    ensures now == other
  {
  }

  /**
   `g` is `f` cut off after block `last`: pointers past it cleared, the tree it lies in trimmed, the disk changed in
   `where` only.
   */
  ghost predicate Truncated(f: File, g: File, last: int, where: set<nat>)
    requires f.Shaped() && g.Shaped()
  {
    && g.fsize == f.fsize && g.size < f.size && SameBut(f.s, g.s, where)
    && -1 <= last < MaxBlocks(f.s.n) && last == LastBlockOf(f.Bsize(), g.size)
    && KeptUpTo(g.db, f.db, last) && KeptUpTo(g.ib, f.ib, CutAt(f.s.n, last) - NDADDR)
    && (forall l :: 0 <= l < NIADDR && NDADDR + l < CutAt(f.s.n, last) ==> where !! f.s.Frags(f.ib[l], l + 1))
    && (NDADDR <= last ==>
          Trimmed(f.s, g.s, f.ib[CutAt(f.s.n, last) - NDADDR], CutAt(f.s.n, last) - NDADDR + 1, Offset(f.s.n, last)))
    && (Blkoff(f.Bsize(), g.size) != 0 && last < NDADDR ==> f.db[last] != 0)
  }

  /** The direct blocks that are kept: whole ones stay whole, and the last does not grow. */
  lemma CutLength(f: File, size: nat, i: nat)
    requires f.Sound() && size < f.size && i < NDADDR && f.db[i] != 0 && i <= LastBlockOf(f.Bsize(), size)
    ensures 1 <= f.(size := size).Length(i) <= f.Length(i)
      && (i < LastBlockOf(f.Bsize(), size) ==> f.(size := size).Length(i) == f.Length(i))
  {
    hide Start, Lblkno, Blkoff, Fragroundup, MaxBlocks, LastBlockOf, Apart, File.Directs, File.Trees, File.Pieces,
      File.Lookup, Store.Frags;
    var b, last := f.Bsize(), LastBlockOf(f.Bsize(), size);
    LastBlockEnds(b, size);
    StartOrder(b, i + 1, last);
    Mapped(f, i);
    if i == last && size < Start(b, i + 1) {
      var off := size - Start(b, i);
      StartStep(b, i);
      LengthAt(f.s.frag, f.fsize, i, off);
      if f.size < Start(b, i + 1) {
        LastBlock(f, i);
        RoundupOrder(f.fsize, off, Blkoff(b, f.size));
      }
    }
  }

  lemma CutPieces(f: File, g: File, last: int, where: set<nat>)
    requires f.Sound() && g.Shaped() && Truncated(f, g, last, where)
    ensures Cut(f.Pieces(), g.Pieces(), CutAt(f.s.n, last))
  {
    hide Start, Lblkno, Blkoff, Blksize, MaxBlocks, CutAt, Slot, Offset, LastBlockOf, Apart, File.Directs, File.Trees,
      File.Ended, File.Lookup, Store.Frags, Store.Entries, Store.Sound, Store.Pruned, Store.Lookup, Interval;
    var c, ps, now := CutAt(f.s.n, last), f.Pieces(), g.Pieces();
    forall k: nat | k < NDADDR + NIADDR
      ensures (k < c ==> now[k] == ps[k]) && (c < k ==> now[k] == {}) && (k == c ==> now[k] <= ps[k])
    {
      if k < NDADDR {
        if f.db[k] != 0 && k <= last {
          CutLength(f, g.size, k);
        }
      } else {
        var l := k - NDADDR;
        NoFrags(g.s, l + 1);
        if k < c {
          Unchanged(f.s, g.s, f.ib[l], l + 1, where);
        }
      }
    }
  }

  lemma CutLookup(f: File, g: File, last: int, where: set<nat>, bn: nat)
    requires f.Sound() && g.Shaped() && Truncated(f, g, last, where) && bn < MaxBlocks(f.s.n)
    ensures g.Lookup(bn) == if bn <= last then f.Lookup(bn) else 0
  {
    hide Start, Lblkno, Blkoff, Blksize, LastBlockOf, Apart, Span, File.Directs, File.Trees, File.Ended, File.Pieces,
      Store.Frags, Store.Entries, Store.Sound, Store.Pruned, Interval;
    if NDADDR <= bn {
      var l, y := Slot(f.s.n, bn) - NDADDR, Offset(f.s.n, bn);
      if NDADDR + l < CutAt(f.s.n, last) {
        UnchangedAt(f.s, g.s, f.ib[l], l + 1, where, y, l + 1);
      }
    }
  }

  /** A file that is cut off is sound again. */
  lemma CutSound(f: File, g: File, last: int, where: set<nat>)
    requires f.Sound() && g.Shaped() && Truncated(f, g, last, where)
    ensures g.Sound() && -1 <= last < MaxBlocks(f.s.n)
  {
    hide Start, Lblkno, Blkoff, Blksize, MaxBlocks, CutAt, Slot, Offset, Apart, LastBlockOf, File.Pieces, File.Lookup,
      Store.Frags, Store.Entries, Store.Sound, Store.Pruned, Store.Lookup, Interval, Span, Cut;
    CutPieces(f, g, last, where);
    CutUnion(f.Pieces(), g.Pieces(), CutAt(f.s.n, last));
    LastBlockEnds(f.Bsize(), g.size);
    forall bn: nat | bn < MaxBlocks(f.s.n) && g.size <= Start(f.Bsize(), bn)
      ensures g.Lookup(bn) == 0
    {
      CutLookup(f, g, last, where, bn);
      if bn <= last {
        StartOrder(f.Bsize(), bn, last);
      }
    }
    forall i | 0 <= i < NDADDR && g.db[i] != 0
      ensures g.Placed(g.db[i], g.Length(i))
    {
      CutLength(f, g.size, i);
    }
    forall l | 0 <= l < NIADDR
      ensures g.s.Sound(g.ib[l], l + 1)
    {
      CutTree(f, g, last, where, l);
    }
  }

  lemma CutTree(f: File, g: File, last: int, where: set<nat>, l: nat)
    requires f.Sound() && g.Shaped() && Truncated(f, g, last, where) && l < NIADDR
    ensures g.s.Sound(g.ib[l], l + 1)
  {
    hide Start, Lblkno, Blkoff, Blksize, MaxBlocks, CutAt, Slot, Offset, Apart, LastBlockOf, File.Pieces, File.Directs,
      File.Ended, File.Lookup, Store.Frags, Store.Entries, Store.Pruned, Store.Lookup, Interval, Span;
    if NDADDR + l < CutAt(f.s.n, last) {
      Unchanged(f.s, g.s, f.ib[l], l + 1, where);
    }
  }

  // ---------------------------------------------------------------------------------------------------
  // Giving the pieces back, from the last to the first
  // ---------------------------------------------------------------------------------------------------

  /** The fragments of the pieces from `k` on. */
  ghost function From(ps: seq<set<nat>>, k: nat): set<nat> {
    if k <= |ps| then Union(ps[k..]) else {}
  }

  lemma FromAll(ps: seq<set<nat>>)
    ensures From(ps, |ps|) == {} && From(ps, 0) == Union(ps)
  {
    assert ps[0..] == ps;
  }

  /** One more piece is given back. */
  lemma PieceTurn(ps: seq<set<nat>>, k: nat, was: set<nat>)
    requires Apart(ps) && Disjoint(Union(ps), was) && k < |ps|
    ensures From(ps, k) == ps[k] + From(ps, k + 1) && Disjoint(ps[k], From(ps, k + 1))
      && |From(ps, k)| == |ps[k]| + |From(ps, k + 1)|
    ensures Disjoint(ps[k], was + From(ps, k + 1)) && (was + From(ps, k + 1)) + ps[k] == was + From(ps, k)
  {
    hide Apart;
    PieceInUnion(ps);
    assert ps[k..][0] == ps[k] && ps[k..][1..] == ps[k + 1..];
    LaterApart(ps, k, k + 1);
    assert ps[k] !! From(ps, k + 1);
  }

  lemma LaterApart(ps: seq<set<nat>>, j: nat, k: nat)
    requires Apart(ps) && j < k <= |ps|
    ensures Disjoint(ps[j], From(ps, k))
  {
    forall x | x in From(ps, k)
      ensures x !in ps[j]
    {
      TailUnion(ps, k, x);
    }
  }

  /** The tree under pointer `l`, when the pieces after it are gone. */
  lemma TreeTurn(f: File, t: Store, l: nat, was: set<nat>)
    requires f.Sound() && Disjoint(f.Frags(), was) && l < NIADDR && SameBut(f.s, t, From(f.Pieces(), NDADDR + l + 1))
    ensures t.Sound(f.ib[l], l + 1) && t.Frags(f.ib[l], l + 1) == f.Pieces()[NDADDR + l]
    ensures Disjoint(f.Pieces()[NDADDR + l], was + From(f.Pieces(), NDADDR + l + 1))
  {
    hide Start, Lblkno, Blkoff, Blksize, MaxBlocks, Apart, From, Union, File.Directs, File.Ended, File.Lookup,
      Store.Frags, Store.Entries, Store.Sound;
    PieceTurn(f.Pieces(), NDADDR + l, was);
    Unchanged(f.s, t, f.ib[l], l + 1, From(f.Pieces(), NDADDR + l + 1));
  }

  /** The tree under pointer `l` was trimmed, after the pieces behind it were given back; `freed` is all that went. */
  ghost predicate TreeCut(f: File, t: Store, l: nat, end: nat, freed: set<nat>)
    requires f.Shaped() && l < NIADDR
  {
    && Trimmed(f.s, t, f.ib[l], l + 1, end)
    && freed == From(f.Pieces(), NDADDR + l + 1) + Lost(f.s, t, f.ib[l], l + 1)
    && |freed| == |From(f.Pieces(), NDADDR + l + 1)| + |Lost(f.s, t, f.ib[l], l + 1)|
  }

  lemma TreeCutSize(f: File, t: Store, l: nat, end: nat, freed: set<nat>)
    requires f.Shaped() && l < NIADDR && TreeCut(f, t, l, end, freed)
    ensures |freed| - |From(f.Pieces(), NDADDR + l + 1)| == |Lost(f.s, t, f.ib[l], l + 1)|
  {
  }

  lemma TreeCutIs(f: File, m: Store, t: Store, l: nat, end: nat, free: set<nat>)
    requires f.Sound() && l < NIADDR && Disjoint(f.Frags(), free) && SameBut(f.s, m, From(f.Pieces(), NDADDR + l + 1))
      && Trimmed(m, t, f.ib[l], l + 1, end)
    ensures var past, lost := From(f.Pieces(), NDADDR + l + 1), Lost(m, t, f.ib[l], l + 1);
            f.Shaped() && TreeCut(f, t, l, end, past + lost) && (free + past) + lost == free + (past + lost)
              && lost == Lost(f.s, t, f.ib[l], l + 1)
  {
    hide Start, Lblkno, Blkoff, Blksize, MaxBlocks, Apart, From, Union, File.Directs, File.Ended, File.Lookup,
      Store.Frags, Store.Entries, Store.Sound, Trimmed;
    var past, own := From(f.Pieces(), NDADDR + l + 1), f.Pieces()[NDADDR + l];
    TreeTurn(f, m, l, free);
    PieceTurn(f.Pieces(), NDADDR + l, free);
    assert past !! f.s.Frags(f.ib[l], l + 1);
    TrimSame(f.s, m, t, f.ib[l], l + 1, end, past);
    assert past !! Lost(m, t, f.ib[l], l + 1);
  }

  /** The cut made: what was given back is what the file lost. */
  lemma CutStep(f: File, free: set<nat>, g: File, left: set<nat>, last: int, where: set<nat>, freed: set<nat>)
    requires f.Sound() && g.Shaped() && Truncated(f, g, last, where) && Disjoint(f.Frags(), free)
      && left == free + freed
    requires var c := CutAt(f.s.n, last);
             freed == From(f.Pieces(), c + 1) + if 0 <= c then f.Pieces()[c] - g.Pieces()[c] else {}
    ensures Step(f, free, g, left) && g.Frags() <= f.Frags() && freed == f.Frags() - g.Frags()
      && |g.Frags()| == |f.Frags()| - |freed|
  {
    hide Start, Lblkno, Blkoff, Blksize, MaxBlocks, CutAt, Truncated, Apart, Union, File.Directs, File.Trees,
      File.Ended, File.Lookup, File.Pieces;
    CutSound(f, g, last, where);
    CutPieces(f, g, last, where);
    CutUnion(f.Pieces(), g.Pieces(), CutAt(f.s.n, last));
    GivenBack(f.Frags(), g.Frags(), free, freed);
  }

  lemma GivenBack(all: set<nat>, kept: set<nat>, free: set<nat>, freed: set<nat>)
    requires kept <= all && freed == all - kept && all !! free
    ensures kept !! free + freed && kept + (free + freed) == all + free && |kept| == |all| - |freed|
  {
    assert all == kept + freed;
  }

  /** lastiblock: where the file is to end in each tree, -1 for a tree it does not reach. */
  ghost predicate Lasts(n: nat, last: int, ends: seq<int>) {
    && 0 < n && -1 <= last < MaxBlocks(n) && |ends| == NIADDR
    && forall l :: 0 <= l < NIADDR ==>
         && (NDADDR + l > CutAt(n, last) ==> ends[l] == -1)
         && (NDADDR + l == CutAt(n, last) ==> ends[l] == Offset(n, last))
         && (NDADDR + l <= CutAt(n, last) ==> ends[l] >= 0)
  }

  lemma LastsOpen(n: nat, last: int, ends: seq<int>, l: nat)
    requires Lasts(n, last, ends) && l < NIADDR && CutAt(n, last) <= NDADDR + l
    ensures 0 < n && -1 <= last < MaxBlocks(n) && |ends| == NIADDR
    ensures (ends[l] < 0 <==> CutAt(n, last) < NDADDR + l) && (ends[l] < 0 ==> ends[l] == -1)
    ensures ends[l] >= 0 ==>
      NDADDR <= last && CutAt(n, last) == NDADDR + l && ends[l] == Offset(n, last) < Span(n, l + 1)
    ensures ends[l] < 0 && l == 0 ==> last < NDADDR
  {
    hide Span, MaxBlocks;
  }

  lemma LastsRange(n: nat, last: int, ends: seq<int>)
    requires Lasts(n, last, ends)
    ensures 0 < n && -1 <= last < MaxBlocks(n) && |ends| == NIADDR
  {
  }

  /** The lines of itrunc that work out lastiblock. */
  lemma LastsMade(n: nat, last: int)
    requires 0 < n && -1 <= last < MaxBlocks(n)
    ensures var a := last - NDADDR; var b := a - n; var c := b - n * n;
            Lasts(n, last, [if a < 0 then -1 else a, if b < 0 then -1 else b, if c < 0 then -1 else c])
  {
    SpanOne(n);
    assert Span(n, 2) == n * n;
    hide Span;
  }

  /** The inode with its pointers past the cut cleared. */
  ghost predicate PointersCut(f: File, last: int, db: seq<nat>, ib: seq<nat>)
    requires f.Shaped() && -1 <= last < MaxBlocks(f.s.n)
  {
    KeptUpTo(db, f.db, last) && KeptUpTo(ib, f.ib, CutAt(f.s.n, last) - NDADDR)
  }

  /** A cut below an indirect pointer. */
  lemma CutInTree(f: File, free: set<nat>, g: File, left: set<nat>, last: int, freed: set<nat>)
    requires f.Sound() && g.Shaped() && g.fsize == f.fsize && g.size < f.size && Disjoint(f.Frags(), free)
      && left == free + freed
    requires NDADDR <= last < MaxBlocks(f.s.n) && last == LastBlockOf(f.Bsize(), g.size)
      && PointersCut(f, last, g.db, g.ib)
    requires SameBut(f.s, g.s, From(f.Pieces(), CutAt(f.s.n, last)))
      && TreeCut(f, g.s, CutAt(f.s.n, last) - NDADDR, Offset(f.s.n, last), freed)
    ensures Truncated(f, g, last, From(f.Pieces(), CutAt(f.s.n, last)))
    ensures Step(f, free, g, left) && g.Frags() <= f.Frags() && freed == f.Frags() - g.Frags()
      && |g.Frags()| == |f.Frags()| - |freed|
  {
    hide Start, Lblkno, Blkoff, Blksize, MaxBlocks, Slot, Offset, LastBlockOf, From, Apart, File.Directs, File.Trees,
      File.Ended, File.Lookup, Store.Frags, Store.Entries, Store.Sound, Trimmed, Union, CutAt;
    var c := CutAt(f.s.n, last);
    var where := From(f.Pieces(), c);
    forall l: nat | l < NIADDR && NDADDR + l < c
      ensures where !! f.s.Frags(f.ib[l], l + 1)
    {
      LaterApart(f.Pieces(), NDADDR + l, c);
    }
    CutStep(f, free, g, left, last, where, freed);
  }

  /** A cut among the direct blocks. */
  lemma CutInDirects(f: File, free: set<nat>, g: File, left: set<nat>, last: int, freed: set<nat>)
    requires f.Sound() && g.Shaped() && g.fsize == f.fsize && g.size < f.size && Disjoint(f.Frags(), free)
      && left == free + freed
    requires -1 <= last < NDADDR && last < MaxBlocks(f.s.n) && last == LastBlockOf(f.Bsize(), g.size)
      && PointersCut(f, last, g.db, g.ib)
    requires Blkoff(f.Bsize(), g.size) != 0 ==> 0 <= last && f.db[last] != 0
    requires SameBut(f.s, g.s, From(f.Pieces(), NDADDR))
    requires freed == From(f.Pieces(), last + 1) + if 0 <= last
      then f.Pieces()[last] - Extent(g.db[last], g.Length(last)) else {}
    ensures Truncated(f, g, last, From(f.Pieces(), NDADDR))
    ensures Step(f, free, g, left) && g.Frags() <= f.Frags() && freed == f.Frags() - g.Frags()
      && |g.Frags()| == |f.Frags()| - |freed|
  {
    hide Start, Lblkno, Blkoff, Blksize, MaxBlocks, Slot, Offset, LastBlockOf, From, Apart, File.Directs, File.Trees,
      File.Ended, File.Lookup, Store.Frags, Store.Entries, Store.Sound, Trimmed, Union;
    CutStep(f, free, g, left, last, From(f.Pieces(), NDADDR), freed);
  }

  lemma PointersCutIs(f: File, last: int, db: seq<nat>, ib: seq<nat>)
    requires f.Shaped() && -1 <= last < MaxBlocks(f.s.n) && PointersCut(f, last, db, ib)
    ensures KeptUpTo(db, f.db, last) && KeptUpTo(ib, f.ib, CutAt(f.s.n, last) - NDADDR) && |db| == NDADDR
      && |ib| == NIADDR
    ensures NDADDR <= last ==> KeptUpTo(f.db, f.db, last)
  {
    hide MaxBlocks, CutAt;
  }

  lemma TailApart(f: File, free: set<nat>, last: nat, part: set<nat>, kept: set<nat>)
    requires f.Sound() && Disjoint(f.Frags(), free) && last < NDADDR && part == f.Pieces()[last] - kept
    ensures var past := From(f.Pieces(), last + 1);
      |past + part| == |past| + |part| && (free + past) + part == free + (past + part)
  {
    hide File.Directs, File.Trees, File.Ended, File.Pieces, Apart, From, Union;
    SoundParts(f);
    PieceTurn(f.Pieces(), last, free);
    assert part !! From(f.Pieces(), last + 1);
  }

  /**
   What itrunc comes to: blocks up to `last` are where they were and all later ones are holes, no indirect block is kept
   only for later ones, and what became free is what the file had and has no more.
   */
  ghost predicate CutOffAt(f: File, free: set<nat>, g: File, left: set<nat>, last: int) {
    && f.Shaped() && g.Shaped() && g.s.n == f.s.n && -1 <= last < MaxBlocks(f.s.n)
    && Step(f, free, g, left) && g.Frags() <= f.Frags() && left == free + (f.Frags() - g.Frags())
        && SameBut(f.s, g.s, f.Frags())
    && (forall bn: nat :: bn < MaxBlocks(f.s.n) ==> g.Lookup(bn) == if bn <= last then f.Lookup(bn) else 0)
    && NoneToSpare(g, last)
  }

  /** No indirect block of the file is there only for blocks past `last`. */
  ghost predicate NoneToSpare(g: File, last: int)
    requires g.Shaped() && -1 <= last < MaxBlocks(g.s.n)
  {
    && (forall l :: 0 <= l < NIADDR && CutAt(g.s.n, last) < NDADDR + l ==> g.ib[l] == 0)
    && (NDADDR <= last ==> g.s.Pruned(g.ib[CutAt(g.s.n, last) - NDADDR], CutAt(g.s.n, last) - NDADDR + 1,
        Offset(g.s.n, last)))
  }

  lemma CutOffIs(f: File, free: set<nat>, g: File, left: set<nat>, last: int, k: nat, freed: set<nat>)
    requires f.Sound() && g.Shaped() && Truncated(f, g, last, From(f.Pieces(), k)) && k <= NDADDR + NIADDR
    requires Step(f, free, g, left) && g.Frags() <= f.Frags() && freed == f.Frags() - g.Frags() && left == free + freed
    ensures CutOffAt(f, free, g, left, last)
  {
    hide Start, Lblkno, Blkoff, Blksize, MaxBlocks, Slot, Offset, LastBlockOf, Apart, File.Directs, File.Trees,
      File.Ended, File.Pieces, File.Lookup, Store.Frags, Store.Entries, Store.Sound, Store.Pruned, Store.Lookup, Union,
      CutAt;
    var where := From(f.Pieces(), k);
    forall bn: nat | bn < MaxBlocks(f.s.n)
      ensures g.Lookup(bn) == if bn <= last then f.Lookup(bn) else 0
    {
      CutLookup(f, g, last, where, bn);
    }
    FromSome(f.Pieces(), k);
  }

  lemma FromSome(ps: seq<set<nat>>, k: nat)
    ensures From(ps, k) <= Union(ps)
  {
    if k <= |ps| {
      forall x | x in From(ps, k)
        ensures x in Union(ps)
      {
        TailUnion(ps, k, x);
        InUnion(ps, x);
      }
    }
  }

  lemma LastLength(f: File, size: nat, last: nat)
    requires f.Sound() && size < f.size && last < NDADDR && last == LastBlockOf(f.Bsize(), size)
    ensures f.db[last] != 0 ==> 1 <= Blksize(f.s.frag, f.fsize, size, last) <= f.Length(last)
  {
    hide LastBlockOf, Blksize, File.Directs, File.Trees, File.Ended, File.Pieces, Apart;
    if f.db[last] != 0 {
      CutLength(f, size, last);
    }
  }

  lemma ShapedSame(f: File, g: File, where: set<nat>)
    requires f.Shaped() && SameBut(f.s, g.s, where) && g.fsize == f.fsize && |g.db| == NDADDR && |g.ib| == NIADDR
    ensures g.Shaped() && g.Bsize() == f.Bsize()
  {
  }

  /** Where a file that is longer than `length` is to be cut. */
  lemma CutPoint(f: File, length: nat)
    requires f.Sound() && length < f.size
    ensures var b, last, lbn := f.Bsize(), LastBlockOf(f.Bsize(), length), Lblkno(f.Bsize(), length);
            && -1 <= last < MaxBlocks(f.s.n) && lbn < MaxBlocks(f.s.n) && lbn <= Lblkno(b, f.size)
            && (Blkoff(b, length) != 0 ==>
                last == lbn && 1 <= Blkoff(b, length) <= b && NewSize(f, lbn, Blkoff(b, length)) == f.size)
            && NoFragmentBefore(f, lbn)
  {
    hide Start, Lblkno, Blkoff, MaxBlocks, Apart, LastBlockOf, NewSize, File.Directs, File.Trees, File.Pieces,
      File.Lookup;
    var b, last, lbn := f.Bsize(), LastBlockOf(f.Bsize(), length), Lblkno(f.Bsize(), length);
    LastBlockEnds(b, length);
    InBlock(b, length, lbn);
    InBlock(b, f.size, Lblkno(b, f.size));
    StartStep(b, lbn);
    StartOrder(b, MaxBlocks(f.s.n), lbn);
    StartOrder(b, Lblkno(b, f.size) + 1, lbn);
    NewSizeIs(f, lbn, Blkoff(b, length));
    if MaxBlocks(f.s.n) <= last {
      StartOrder(b, MaxBlocks(f.s.n), last);
    }
  }

  ghost predicate NoFragmentBefore(f: File, bn: nat)
    requires f.Shaped()
  {
    forall x: nat :: Fragment(f, x) ==> bn <= x
  }

  /** What the call of bmap in itrunc does: a hole at the new end is filled, if there is one. */
  ghost predicate HoleFilled(f: File, free: set<nat>, g: File, left: set<nat>, length: nat) {
    && f.Shaped() && g.Shaped() && g.s.n == f.s.n && g.size == f.size && Step(f, free, g, left)
        && SameBut(f.s, g.s, f.Frags() + free)
    && forall y: nat :: y < MaxBlocks(f.s.n) ==>
         g.Lookup(y) == f.Lookup(y) || (f.Lookup(y) == 0 && Blkoff(f.Bsize(), length) != 0
           && y == Lblkno(f.Bsize(), length))
  }

  /**
   From `f` to `g`, cut to `length` bytes: each block that starts before the end and was mapped is where it was; one
   that was a hole still is, but for the last if the file ends inside it; and behind the end there is nothing.
   */
  ghost predicate KeepsBelow(f: File, g: File, length: nat) {
    && f.Shaped() && g.Shaped() && g.s.n == f.s.n
    && var b := f.s.frag * f.fsize;
      forall bn: nat :: bn < MaxBlocks(f.s.n) ==>
        if length <= bn * b then g.Lookup(bn) == 0
        else if f.Lookup(bn) != 0 then g.Lookup(bn) == f.Lookup(bn)
        else g.Lookup(bn) != 0 <==> length < bn * b + b
  }

  lemma CutKeepsBelow(f: File, free: set<nat>, m: File, mid: set<nat>, g: File, left: set<nat>, length: nat)
    requires HoleFilled(f, free, m, mid, length) && m.Bsize() == f.Bsize() > 0
    requires CutOffAt(m, mid, g, left, LastBlockOf(m.Bsize(), length))
    requires Blkoff(f.Bsize(), length) != 0 && Lblkno(f.Bsize(), length) < MaxBlocks(f.s.n) ==>
      m.Lookup(Lblkno(f.Bsize(), length)) != 0
    ensures KeepsBelow(f, g, length)
  {
    hide Step, MaxBlocks, File.Lookup, File.Frags, NoneToSpare, SameBut, Lblkno, Blkoff, LastBlockOf;
    var b := f.Bsize();
    forall bn: nat | bn < MaxBlocks(f.s.n)
      ensures if length <= bn * b then g.Lookup(bn) == 0
        else if f.Lookup(bn) != 0 then g.Lookup(bn) == f.Lookup(bn)
        else g.Lookup(bn) != 0 <==> length < bn * b + b
    {
      EndOf(b, length, bn);
    }
  }

  /** The last block of a file, by the bytes in it. */
  lemma EndOf(b: nat, length: nat, bn: nat)
    requires 0 < b
    ensures bn <= LastBlockOf(b, length) <==> bn * b < length
    ensures Blkoff(b, length) != 0 && bn == Lblkno(b, length) <==> bn * b < length < bn * b + b
  {
    var q := Lblkno(b, length + b - 1);
    InBlock(b, length + b - 1, q);
    InBlock(b, length, bn);
    StartOrder(b, bn + 1, q);
    StartOrder(b, q, bn);
    StartStep(b, bn);
    StartStep(b, q);
  }

  lemma HoleFilledIs(f: File, free: set<nat>, g: File, left: set<nat>, length: nat, bn: nat, r: int)
    requires Written(f, free, g, left, bn, r) && g.size == f.size && NoFragmentBefore(f, bn)
      && bn == Lblkno(f.Bsize(), length)
    requires Blkoff(f.Bsize(), length) != 0 || r <= 0
    ensures HoleFilled(f, free, g, left, length)
    ensures r <= 0 ==> Maps(f, free, g, left, 0, -1)
    ensures r > 0 && bn < NDADDR ==> g.db[bn] != 0
  {
    hide File.Sound, File.Pieces, MaxBlocks, Fragment, Lblkno, Blkoff;
    if r > 0 && bn < NDADDR {
      DirectLookup(g, bn);
    }
  }

  lemma HoleFilledSame(f: File, free: set<nat>, length: nat)
    requires f.Sound() && Disjoint(f.Frags(), free)
    ensures HoleFilled(f, free, f, free, length)
  {
    hide File.Directs, File.Trees, File.Ended, Apart, File.Frags, File.Pieces, MaxBlocks, Lblkno, Blkoff, File.Lookup;
  }

  /** Either way of cutting comes to the same. */
  lemma CutEnds(f: File, free: set<nat>, g: File, left: set<nat>, last: int, inTree: bool, freed: set<nat>)
    requires f.Sound() && g.Shaped() && g.fsize == f.fsize && g.size < f.size && Disjoint(f.Frags(), free)
      && left == free + freed
    requires -1 <= last < MaxBlocks(f.s.n) && last == LastBlockOf(f.Bsize(), g.size) && PointersCut(f, last, g.db, g.ib)
      && (inTree <==> NDADDR <= last)
    requires SameBut(f.s, g.s, From(f.Pieces(), if inTree then CutAt(f.s.n, last) else NDADDR))
    requires inTree ==> TreeCut(f, g.s, CutAt(f.s.n, last) - NDADDR, Offset(f.s.n, last), freed)
    requires !inTree ==> (Blkoff(f.Bsize(), g.size) != 0 ==> 0 <= last && f.db[last] != 0)
    requires !inTree ==> freed == From(f.Pieces(), last + 1) + if 0 <= last
      then f.Pieces()[last] - Extent(g.db[last], g.Length(last)) else {}
    ensures CutOffAt(f, free, g, left, last) && freed == f.Frags() - g.Frags() && |g.Frags()| == |f.Frags()| - |freed|
      && Step(f, free, g, left)
  {
    hide Start, Lblkno, Blkoff, Blksize, MaxBlocks, Slot, Offset, LastBlockOf, From, Apart, File.Directs, File.Trees,
      File.Ended, File.Lookup, Store.Frags, Store.Entries, Store.Sound, Trimmed, Union, CutAt, Truncated, TreeCut,
      PointersCut, CutOffAt, File.Pieces;
    if inTree {
      CutInTree(f, free, g, left, last, freed);
      CutOffIs(f, free, g, left, last, CutAt(f.s.n, last), freed);
    } else {
      CutInDirects(f, free, g, left, last, freed);
      CutOffIs(f, free, g, left, last, NDADDR, freed);
    }
  }

  /** What the file loses when it is cut after direct block `last`. */
  ghost function DirectsLost(f: File, length: nat, last: int): set<nat>
    requires f.Shaped() && -1 <= last < NDADDR
  {
    From(f.Pieces(), last + 1) + if 0 <= last then f.Pieces()[last] - Extent(f.db[last],
      Blksize(f.s.frag, f.fsize, length, last)) else {}
  }

  lemma DirectsLostIs(f: File, length: nat, last: int, past: set<nat>, part: set<nat>)
    requires f.Shaped() && -1 <= last < NDADDR && past == From(f.Pieces(), last + 1)
    requires part == if 0 <= last then f.Pieces()[last] - Extent(f.db[last], Blksize(f.s.frag, f.fsize, length, last))
      else {}
    ensures DirectsLost(f, length, last) == past + part
  {
  }

  lemma DirectsLostFrom(f: File, g: File, last: int, freed: set<nat>)
    requires f.Shaped() && g.Shaped() && -1 <= last < NDADDR && g.fsize == f.fsize && g.s.frag == f.s.frag
      && (0 <= last ==> g.db[last] == f.db[last])
    ensures DirectsLost(f, g.size, last) == From(f.Pieces(), last + 1) + if 0 <= last
      then f.Pieces()[last] - Extent(g.db[last], g.Length(last)) else {}
  {
  }
}
