/**
 Files: how bmap grows the block map of an inode, and how itrunc prunes it.
 */
module Inode {
  import opened FragMap
  import opened CylGroup
  import opened FileSystem
  import opened BlockTree
  import opened FileMap
  import opened FileBytes
  import opened FileCut

  /** btodb: the size of `n` fragments in DEV_BSIZE units. */
  function Btodb(nspf: nat, n: nat): nat {
    n * nspf
  }

  lemma BtodbAdd(nspf: nat, a: nat, b: nat)
    ensures Btodb(nspf, a + b) == Btodb(nspf, a) + Btodb(nspf, b)
  {
  }

  /** The blocks of a tree are held as far as the allocator is concerned. */
  lemma TreeHeld(fs: Fs, nb: nat, lv: nat)
    requires fs.Valid() && fs.Pointers().Valid() && nb != 0 && fs.Pointers().Sound(nb, lv)
    requires Disjoint(Interval(nb, fs.geo.frag), fs.FreeNow())
    ensures fs.Held(nb, fs.geo.frag)
  {
    hide CgData.Good, Union, Fs.FreeNow, Interval, Store.Frags;
  }

  /** The pointer whose subtree is dropped next, among those dropped so far. */
  lemma NextKid(s: Store, t: Store, root: nat, lv: nat, i: nat)
    requires s.Valid() && 0 < lv && root != 0 && s.Sound(root, lv) && i < s.n
    requires SameBut(s, t, {root} + Union(s.Kids(root, lv)[i + 1..]))
    ensures t.Frags(s.Entries(root)[i], lv - 1) == s.Kids(root, lv)[i] && t.Sound(s.Entries(root)[i], lv - 1)
    ensures Union(s.Kids(root, lv)[i..]) == s.Kids(root, lv)[i] + Union(s.Kids(root, lv)[i + 1..])
    ensures s.Kids(root, lv)[i] !! Union(s.Kids(root, lv)[i + 1..]) && s.Kids(root, lv)[i] <= s.Frags(root, lv)
    ensures |Union(s.Kids(root, lv)[i..])| == |Union(s.Kids(root, lv)[i + 1..])| + |s.Kids(root, lv)[i]|
    ensures root !in s.Kids(root, lv)[i]
  {
    hide Store.Entries, Store.Sound, Store.Frags, Interval;
    var ks := s.Kids(root, lv);
    Parts(s, root, lv);
    KidApart(ks, i);
    assert ks[i..][0] == ks[i] && ks[i..][1..] == ks[i + 1..];
    Unchanged(s, t, s.Entries(root)[i], lv - 1, {root} + Union(ks[i + 1..]));
  }

  lemma KidApart(ks: seq<set<nat>>, i: nat)
    requires Apart(ks) && i < |ks|
    ensures ks[i] !! Union(ks[i + 1..])
  {
    forall x | x in Union(ks[i + 1..])
      ensures x !in ks[i]
    {
      TailUnion(ks, i + 1, x);
    }
  }

  /** An indirect block that was emptied is all that is left of its tree. */
  lemma Emptied(s: Store, nb: nat, lv: nat)
    requires s.Valid() && nb != 0 && 0 < lv && s.Pruned(nb, lv, -1)
    ensures s.Frags(nb, lv) == Interval(nb, s.frag)
  {
    hide Store.Entries, Interval;
    forall i: nat | i < s.n
      ensures s.Kids(nb, lv)[i] == {}
    {
      NoFrags(s, lv - 1);
    }
    EmptyUnion(s.Kids(nb, lv));
  }

  lemma SizeMinus(a: set<nat>, b: set<nat>)
    requires b <= a
    ensures |a - b| == |a| - |b|
  {
    assert a == (a - b) + b;
  }

  /** What is free once all but the block itself of a tree is. */
  ghost function FreeBut(was: set<nat>, all: set<nat>, own: set<nat>): set<nat> {
    was + (all - own)
  }

  /** All of a set is handed over in two steps. */
  lemma TwoSteps(was: set<nat>, all: set<nat>, own: set<nat>, nspf: nat)
    requires own <= all && Disjoint(all, was)
    ensures Disjoint(own, FreeBut(was, all, own)) && FreeBut(was, all, own) + own == was + all
    ensures Btodb(nspf, |all - own|) + Btodb(nspf, |own|) == Btodb(nspf, |all|)
  {
    SizeMinus(all, own);
    BtodbAdd(nspf, |all - own|, |own|);
  }

  lemma EmptiedIs(was: set<nat>, all: set<nat>, own: set<nat>)
    ensures FreeBut(was, all, own) == was + (all - own)
  {
  }

  /**
   Taking the tree at `nb` off a file: what indirtrunc and itrunc do with each block pointer they clear.  An indirect
   block is emptied first.
   */
  method Drop(fs: Fs, nb: nat, lv: nat) returns (released: nat)
    requires fs.Valid() && fs.Pointers().Valid() && fs.Pointers().Sound(nb, lv) && nb != 0
    requires Disjoint(fs.Pointers().Frags(nb, lv), fs.FreeNow())
    modifies fs`cstotal, fs`disk, fs`ptrs, fs.csp
    ensures fs.Valid() && SameBut(old(fs.Pointers()), fs.Pointers(), old(fs.Pointers().Frags(nb, lv)))
    ensures fs.FreeNow() == old(fs.FreeNow() + fs.Pointers().Frags(nb, lv))
    ensures released == Btodb(fs.nspf, |old(fs.Pointers().Frags(nb, lv))|)
    decreases lv, 0, 1
  {
    hide *;
    ghost var was, all, own := fs.FreeNow(), fs.Pointers().Frags(nb, lv), Interval(nb, fs.geo.frag);
    PointersAre(fs);
    OwnFrags(fs.Pointers(), nb, lv);
    TwoSteps(was, all, own, fs.nspf);
    released := Empty(fs, nb, lv);
    PointersAre(fs);
    TreeHeld(fs, nb, lv);
    fs.Release(nb, fs.geo.frag);
    released := released + Btodb(fs.nspf, fs.geo.frag);
  }

  /** The block at `nb` emptied, if it is an indirect one. */
  method Empty(fs: Fs, nb: nat, lv: nat) returns (released: nat)
    requires fs.Valid() && fs.Pointers().Valid() && fs.Pointers().Sound(nb, lv) && nb != 0
    requires Disjoint(fs.Pointers().Frags(nb, lv), fs.FreeNow())
    modifies fs`cstotal, fs`disk, fs`ptrs, fs.csp
    ensures fs.Valid() && SameBut(old(fs.Pointers()), fs.Pointers(), old(fs.Pointers().Frags(nb, lv)))
    ensures fs.FreeNow() == old(FreeBut(fs.FreeNow(), fs.Pointers().Frags(nb, lv), Interval(nb, fs.geo.frag)))
    ensures fs.Pointers().Valid() && fs.Pointers().Sound(nb, lv)
    ensures released == Btodb(fs.nspf, |old(fs.Pointers().Frags(nb, lv)) - Interval(nb, fs.geo.frag)|)
    decreases lv, 0, 0
  {
    hide *;
    released := 0;
    ghost var was, all, own := fs.FreeNow(), fs.Pointers().Frags(nb, lv), Interval(nb, fs.geo.frag);
    PointersAre(fs);
    EmptiedIs(was, all, own);
    if lv > 0 {
      released := Indirtrunc(fs, nb, -1, lv - 1);
      AllOfIt(old(fs.Pointers()), fs.Pointers(), nb, lv);
      PointersAre(fs);
    } else {
      OwnFrags(fs.Pointers(), nb, lv);
      BtodbNone(fs.nspf);
      SameButNone(fs.Pointers(), all);
      NothingLeft(was, all, own);
    }
  }

  lemma NothingLeft(was: set<nat>, all: set<nat>, own: set<nat>)
    requires all == own
    ensures |all - own| == 0 && was == was + (all - own)
  {
  }

  /** An indirect block that was emptied, and what it lost. */
  lemma AllOfIt(s: Store, t: Store, nb: nat, lv: nat)
    requires Trimmed(s, t, nb, lv, -1) && nb != 0 && 0 < lv
    ensures t.Valid() && t.Sound(nb, lv) && t.Frags(nb, lv) == Interval(nb, t.frag)
      && Lost(s, t, nb, lv) == s.Frags(nb, lv) - Interval(nb, t.frag)
  {
    hide Store.Frags, Store.Sound, Store.Lookup, Store.Pruned, Interval;
    Emptied(t, nb, lv);
  }

  lemma OwnFrags(s: Store, nb: nat, lv: nat)
    requires nb != 0
    ensures Interval(nb, s.frag) <= s.Frags(nb, lv) && (lv == 0 ==> s.Frags(nb, lv) == Interval(nb, s.frag))
    ensures |Interval(nb, s.frag)| == s.frag
  {
  }

  lemma StoreFacts(s: Store, t: Store, where: set<nat>)
    requires s.Valid() && SameBut(s, t, where)
    ensures t.Valid() && 0 < s.n && t.n == s.n
  {
  }

  /** One turn of the loop of indirtrunc that takes whole subtrees off. */
  method DropKid(fs: Fs, nb: nat, level: nat, ghost bn: nat, ghost last: int, ghost i: nat, ghost s: Store)
        returns (released: nat)
    requires fs.Valid() && s.Valid() && s.Sound(bn, level + 1) && bn != 0 && last < i < s.n && nb == s.Entries(bn)[i]
    requires SameBut(s, fs.Pointers(), {bn} + s.Past(bn, level + 1, i + 1)) && Cleared(s, fs.Pointers(), bn, last)
    requires Disjoint(s.Frags(nb, level), fs.FreeNow())
    modifies fs`cstotal, fs`disk, fs`ptrs, fs.csp
    ensures fs.Valid() && SameBut(s, fs.Pointers(), {bn} + s.Past(bn, level + 1, i))
      && Cleared(s, fs.Pointers(), bn, last)
    ensures fs.FreeNow() == old(fs.FreeNow()) + s.Frags(nb, level)
    ensures released == Btodb(fs.nspf, |s.Frags(nb, level)|)
    decreases level, 1
  {
    hide CgData.Good, Fs.Summed, Fs.Reserved, Fs.FreeNow, Interval, Store.Entries, Store.Sound, Store.Frags, Btodb,
      Union, Cleared;
    NextKid(s, fs.Pointers(), bn, level + 1, i);
    released := 0;
    if nb != 0 {
      ghost var m := fs.Pointers();
      released := Drop(fs, nb, level);
      StillCleared(s, m, fs.Pointers(), bn, last, s.Kids(bn, level + 1)[i]);
    } else {
      NoFrags(s, level);
      BtodbNone(fs.nspf);
    }
  }

  /** The loop of indirtrunc that takes the subtrees past pointer `last` off, highest first. */
  method DropTail(fs: Fs, level: nat, last: int, copy: seq<nat>, ghost bn: nat, ghost s: Store)
        returns (released: nat, ghost freed: set<nat>)
    requires fs.Valid() && s.Valid() && s.Sound(bn, level + 1) && bn != 0 && -1 <= last < s.n && copy == s.Entries(bn)
    requires SameBut(s, fs.Pointers(), {bn}) && Disjoint(s.Frags(bn, level + 1), fs.FreeNow())
      && Cleared(s, fs.Pointers(), bn, last)
    modifies fs`cstotal, fs`disk, fs`ptrs, fs.csp
    ensures fs.Valid() && SameBut(s, fs.Pointers(), {bn} + freed) && Cleared(s, fs.Pointers(), bn, last)
    ensures freed == s.Past(bn, level + 1, last + 1)
    ensures fs.FreeNow() == old(fs.FreeNow()) + freed && released == Btodb(fs.nspf, |freed|)
    decreases level, 2
  {
    hide *;
    StoreFacts(s, fs.Pointers(), {bn});
    ghost var was := fs.FreeNow();
    released, freed := 0, s.Past(bn, level + 1, s.n);
    NothingYet(s, bn, level + 1, was, fs.nspf);
    var i: int := |copy| - 1;
    while i > last
      invariant last <= i < s.n && freed == s.Past(bn, level + 1, i + 1)
      invariant fs.Valid() && SameBut(s, fs.Pointers(), {bn} + freed) && Cleared(s, fs.Pointers(), bn, last)
      invariant fs.FreeNow() == was + freed && released == Btodb(fs.nspf, |freed|)
    {
      Turn(s, fs.Pointers(), bn, level + 1, i, was, fs.nspf);
      var k := DropKid(fs, copy[i], level, bn, last, i, s);
      released, freed := released + k, s.Past(bn, level + 1, i);
      i := i - 1;
    }
  }

  lemma Turn(s: Store, t: Store, bn: nat, lv: nat, i: nat, was: set<nat>, nspf: nat)
    requires s.Valid() && 0 < lv && bn != 0 && s.Sound(bn, lv) && i < s.n && Disjoint(s.Frags(bn, lv), was)
    requires SameBut(s, t, {bn} + s.Past(bn, lv, i + 1))
    ensures var kid, freed := s.Frags(s.Entries(bn)[i], lv - 1), s.Past(bn, lv, i + 1);
            && Disjoint(kid, was + freed) && (was + freed) + kid == was + s.Past(bn, lv, i)
            && Btodb(nspf, |freed|) + Btodb(nspf, |kid|) == Btodb(nspf, |s.Past(bn, lv, i)|)
  {
    hide Store.Entries, Store.Sound, Store.Frags, Btodb, Interval, Union;
    NextKid(s, t, bn, lv, i);
    Beside(was, s.Frags(bn, lv), s.Kids(bn, lv)[i], s.Past(bn, lv, i + 1));
    BtodbAdd(nspf, |s.Past(bn, lv, i + 1)|, |s.Kids(bn, lv)[i]|);
  }

  lemma NothingYet(s: Store, bn: nat, lv: nat, was: set<nat>, nspf: nat)
    requires 0 < lv
    ensures var none := s.Past(bn, lv, s.n); {bn} + none == {bn} && was + none == was && Btodb(nspf, |none|) == 0
  {
    assert s.Past(bn, lv, s.n) == {};
  }

  lemma StillCleared(s: Store, m: Store, t: Store, bn: nat, last: int, where: set<nat>)
    requires Cleared(s, m, bn, last) && SameBut(m, t, where) && bn !in where
    ensures Cleared(s, t, bn, last)
  {
  }

  lemma BtodbNone(nspf: nat)
    ensures Btodb(nspf, 0) == 0
  {
  }

  /** An indirect block none of which is kept. */
  lemma NoneKept(s: Store, t: Store, bn: nat, lv: nat, freed: set<nat>)
    requires s.Valid() && t.Valid() && 0 < lv && bn != 0 && s.Sound(bn, lv)
    requires SameBut(s, t, {bn} + freed) && freed == s.Past(bn, lv, 0) && Cleared(s, t, bn, -1)
    ensures Trimmed(s, t, bn, lv, -1) && SameBut(s, t, s.Frags(bn, lv)) && Lost(s, t, bn, lv) == freed
  {
    hide Store.Entries, Store.Sound, Store.Frags, Store.Pruned, Store.Lookup, Interval, Span, Digit, Rest, Union, Apart;
    var ks := s.Kids(bn, lv);
    Parts(s, bn, lv);
    assert ks[0..] == ks;
    TrimRoot(s, t, bn, lv, -1, {bn} + freed);
    TrimLookup(s, t, bn, lv, -1, {bn} + freed);
  }

  /**
   An indirect block of which some is kept: `m` is the disk after the whole subtrees went, `t` after the last went in
   part.
   */
  lemma SomeKept(s: Store, m: Store, t: Store, bn: nat, lv: nat, lastbn: nat, c: nat, kid: nat, freed: set<nat>)
    requires s.Valid() && m.Valid() && t.Valid() && 0 < lv && bn != 0 && s.Sound(bn, lv) && lastbn < Span(s.n, lv)
    requires c == LastKid(s.n, lv, lastbn) && c < s.n && kid == s.Entries(bn)[c]
    requires SameBut(s, m, {bn} + freed) && freed == s.Past(bn, lv, c + 1) && Cleared(s, m, bn, c)
    requires Rest(s.n, lv, lastbn) < Span(s.n, lv - 1)
    requires Trimmed(m, t, kid, lv - 1, Rest(s.n, lv, lastbn)) && SameBut(m, t, m.Frags(kid, lv - 1))
    ensures Trimmed(s, t, bn, lv, lastbn) && SameBut(s, t, s.Frags(bn, lv))
    ensures var part := Lost(m, t, kid, lv - 1);
      Lost(s, t, bn, lv) == freed + part && |freed + part| == |freed| + |part|
  {
    hide Store.Entries, Store.Sound, Store.Frags, Store.Pruned, Store.Lookup, Interval, Span, Digit, Rest, Union, Apart;
    var ks := s.Kids(bn, lv);
    Parts(s, bn, lv);
    NextKid(s, m, bn, lv, c);
    TrimSame(s, m, t, kid, lv - 1, Rest(s.n, lv, lastbn), {bn} + freed);
    Earlier(ks, bn, c);
    StillCleared(s, m, t, bn, c, ks[c]);
    TrimRoot(s, t, bn, lv, lastbn, {bn} + Union(ks[c..]));
    TrimLookup(s, t, bn, lv, lastbn, {bn} + Union(ks[c..]));
  }

  lemma Earlier(ks: seq<set<nat>>, bn: nat, c: nat)
    requires Apart(ks) && c <= |ks| && bn !in Union(ks)
    ensures forall j: nat :: j < c ==> {bn} + Union(ks[c..]) !! ks[j]
    ensures Union(ks[c..]) <= Union(ks)
  {
    PieceInUnion(ks);
    forall j: nat, x | j < c && x in {bn} + Union(ks[c..])
      ensures x !in ks[j]
    {
      TailUnion(ks, c, x);
    }
    forall x | x in Union(ks[c..])
      ensures x in Union(ks)
    {
      TailUnion(ks, c, x);
    }
  }

  /** How many data blocks one pointer of an indirect block of this level stands for. */
  method Factor(n: nat, level: nat) returns (factor: nat)
    requires 0 < n
    ensures factor == Span(n, level)
  {
    hide Span;
    factor := 1;
    SpanZero(n);
    for i := 0 to level
      invariant factor == Span(n, i)
    {
      SpanStep(n, i);
      factor := factor * n;
    }
  }

  /** The end of indirtrunc: the subtree of which only a part goes, unless it is a data block or a hole. */
  method TrimKid(fs: Fs, nb: nat, lv: nat, last: nat) returns (released: nat)
    requires fs.Valid() && fs.Pointers().Valid() && fs.Pointers().Sound(nb, lv)
    requires Disjoint(fs.Pointers().Frags(nb, lv), fs.FreeNow()) && last < Span(fs.nindir, lv)
    modifies fs`cstotal, fs`disk, fs`ptrs, fs.csp
    ensures fs.Valid() && SameBut(old(fs.Pointers()), fs.Pointers(), old(fs.Pointers().Frags(nb, lv)))
    ensures Trimmed(old(fs.Pointers()), fs.Pointers(), nb, lv, last)
    ensures fs.FreeNow() == old(fs.FreeNow()) + Lost(old(fs.Pointers()), fs.Pointers(), nb, lv)
    ensures released == Btodb(fs.nspf, |Lost(old(fs.Pointers()), fs.Pointers(), nb, lv)|)
    decreases lv, 0
  {
    hide CgData.Good, Fs.Summed, Fs.Reserved, Fs.FreeNow, Interval, Store.Entries, Store.Sound, Store.Frags, Btodb,
      Trimmed, Span;
    released := 0;
    if lv > 0 && nb != 0 {
      released := Indirtrunc(fs, nb, last, lv - 1);
    } else {
      TrimNothing(fs.Pointers(), nb, lv, last);
      BtodbNone(fs.nspf);
    }
  }

  /** TrimKid, and what becomes of the indirect block with it. */
  method KeepSome(fs: Fs, kid: nat, level: nat, rest: nat, ghost s: Store, ghost bn: nat, ghost lastbn: nat,
        ghost c: nat, ghost freed: set<nat>)
    returns (released: nat, ghost part: set<nat>)
    requires fs.Valid() && fs.Pointers().Valid() && fs.Pointers().Sound(kid, level)
      && Disjoint(fs.Pointers().Frags(kid, level), fs.FreeNow())
    requires s.Valid() && bn != 0 && s.Sound(bn, level + 1) && s.n == fs.nindir && lastbn < Span(s.n, level + 1)
    requires c == LastKid(s.n, level + 1, lastbn) && c < s.n && kid == s.Entries(bn)[c]
      && rest == Rest(s.n, level + 1, lastbn) < Span(s.n, level)
    requires SameBut(s, fs.Pointers(), {bn} + freed) && freed == s.Past(bn, level + 1, c + 1)
      && Cleared(s, fs.Pointers(), bn, c)
    modifies fs`cstotal, fs`disk, fs`ptrs, fs.csp
    ensures fs.Valid() && Trimmed(s, fs.Pointers(), bn, level + 1, lastbn)
      && SameBut(s, fs.Pointers(), s.Frags(bn, level + 1))
    ensures fs.FreeNow() == old(fs.FreeNow()) + part && released == Btodb(fs.nspf, |part|)
    ensures Lost(s, fs.Pointers(), bn, level + 1) == freed + part && |freed + part| == |freed| + |part|
    decreases level, 1
  {
    hide *;
    ghost var m := fs.Pointers();
    released := TrimKid(fs, kid, level, rest);
    StoreFacts(m, fs.Pointers(), m.Frags(kid, level));
    part := Lost(m, fs.Pointers(), kid, level);
    SomeKept(s, m, fs.Pointers(), bn, level + 1, lastbn, c, kid, freed);
  }

  lemma PointersAre(fs: Fs)
    ensures fs.Pointers() == Store(fs.geo.frag, fs.nindir, fs.size, fs.ptrs)
  {
  }

  /** indirtrunc: give back what the indirect block at `bn` holds past data block `lastbn` of its range. */
  method Indirtrunc(fs: Fs, bn: nat, lastbn: int, level: nat) returns (released: nat)
    requires fs.Valid() && fs.Pointers().Valid() && fs.Pointers().Sound(bn, level + 1) && bn != 0
    requires Disjoint(fs.Pointers().Frags(bn, level + 1), fs.FreeNow()) && -1 <= lastbn < Span(fs.nindir, level + 1)
    modifies fs`cstotal, fs`disk, fs`ptrs, fs.csp
    ensures fs.Valid() && SameBut(old(fs.Pointers()), fs.Pointers(), old(fs.Pointers().Frags(bn, level + 1)))
    ensures Trimmed(old(fs.Pointers()), fs.Pointers(), bn, level + 1, lastbn)
    ensures fs.FreeNow() == old(fs.FreeNow()) + Lost(old(fs.Pointers()), fs.Pointers(), bn, level + 1)
    ensures released == Btodb(fs.nspf, |Lost(old(fs.Pointers()), fs.Pointers(), bn, level + 1)|)
    decreases level, 3
  {
    hide *;
    PointersAre(fs);
    StoreFacts(fs.Pointers(), fs.Pointers(), {bn});
    var n := fs.nindir;
    ghost var s, was := fs.Pointers(), fs.FreeNow();
    var factor := Factor(n, level);
    var last := lastbn;
    if lastbn > 0 {
      last := last / factor;
    }
    LastDigit(n, level, lastbn, last);
    var copy := fs.Pointers().Entries(bn);
    var cleared := copy[..last + 1] + seq(n - (last + 1), _ => 0);
    fs.ptrs := fs.ptrs[bn := cleared];
    PointersAre(fs);
    Overwrite(s, fs.Pointers(), bn, cleared, last);
    ghost var freed;
    released, freed := DropTail(fs, level, last, copy, bn, s);
    ghost var m := fs.Pointers();
    StoreFacts(s, m, {bn} + freed);
    if lastbn < 0 {
      NoneKept(s, m, bn, level + 1, freed);
    } else {
      LastKidIntact(s, m, bn, level + 1, last, was);
      ghost var part;
      var k;
      k, part := KeepSome(fs, copy[last], level, lastbn % factor, s, bn, lastbn, last, freed);
      BtodbAdd(fs.nspf, |freed|, |part|);
      Associates(was, freed, part);
      released := released + k;
    }
  }

  lemma LastKidIntact(s: Store, m: Store, bn: nat, lv: nat, i: nat, was: set<nat>)
    requires s.Valid() && 0 < lv && bn != 0 && s.Sound(bn, lv) && i < s.n && Disjoint(s.Frags(bn, lv), was)
    requires SameBut(s, m, {bn} + s.Past(bn, lv, i + 1))
    ensures m.Sound(s.Entries(bn)[i], lv - 1) && Disjoint(m.Frags(s.Entries(bn)[i], lv - 1),
      was + s.Past(bn, lv, i + 1))
  {
    hide Store.Entries, Store.Sound, Store.Frags, Interval, Union;
    NextKid(s, m, bn, lv, i);
    Beside(was, s.Frags(bn, lv), s.Kids(bn, lv)[i], s.Past(bn, lv, i + 1));
  }

  lemma Associates(a: set<nat>, b: set<nat>, c: set<nat>)
    ensures (a + b) + c == a + (b + c)
  {
  }

  lemma Beside(was: set<nat>, all: set<nat>, one: set<nat>, freed: set<nat>)
    requires all !! was && one <= all && one !! freed
    ensures one !! was + freed && (was + freed) + one == was + (one + freed)
  {
  }

  lemma Overwrite(s: Store, t: Store, bn: nat, e: seq<nat>, last: int)
    requires t == s.(ptrs := s.ptrs[bn := e]) && -1 <= last < s.n && |e| == s.n
    requires forall j :: 0 <= j < s.n ==> e[j] == if j <= last then s.Entries(bn)[j] else 0
    ensures SameBut(s, t, {bn}) && Cleared(s, t, bn, last)
  {
  }

  lemma SpanStep(n: nat, lv: nat)
    requires 0 < n
    ensures Span(n, lv + 1) == Span(n, lv) * n
  {
  }

  lemma LastDigit(n: nat, level: nat, lastbn: int, last: int)
    requires 0 < n && -1 <= lastbn < Span(n, level + 1)
      && last == if lastbn > 0 then lastbn / Span(n, level) else lastbn
    ensures last == LastKid(n, level + 1, lastbn) && -1 <= last < n
    ensures 0 <= lastbn ==> lastbn % Span(n, level) == Rest(n, level + 1, lastbn) < Span(n, level)
  {
    if lastbn >= 0 {
      SplitIndex(n, level + 1, lastbn);
      DivModUnique(0, Span(n, level), 0, 0);
    }
  }

  // ---------------------------------------------------------------------------------------------------
  // The inode
  // ---------------------------------------------------------------------------------------------------

  class Inode {
    const fs: Fs
    const icg: nat                        // itog(i_number)
    const blkpref: (nat, nat, seq<nat>) -> nat  // blkpref: where a block is best put, any address
    const db: array<nat>                  // i_db
    const ib: array<nat>                  // i_ib
    var size: nat                         // i_size
    var blocks: int                       // i_blocks

    constructor (fs: Fs, icg: nat, blkpref: (nat, nat, seq<nat>) -> nat, db: array<nat>, ib: array<nat>, size: nat,
          blocks: int)
      ensures this.fs == fs && this.icg == icg && this.blkpref == blkpref && this.db == db && this.ib == ib
      ensures this.size == size && this.blocks == blocks
    {
      this.fs, this.icg, this.blkpref, this.db, this.ib, this.size, this.blocks :=
        fs, icg, blkpref, db, ib, size, blocks;
    }

    /** The block map, for a file of `sz` bytes. */
    ghost function FileAt(sz: nat): File
      reads db, ib, fs`ptrs
    {
      File(fs.fsize, sz, db[..], ib[..], fs.Pointers())
    }

    /**
     The file is sound when its size is taken to be `sz`, none of it is free, and i_blocks is the size of all its data
     and indirect blocks.
     */
    ghost predicate ValidAt(sz: nat)
      reads this`blocks, db, ib, fs`ptrs, fs`disk, fs`cstotal, fs.csp
    {
      && fs.Valid() && icg < fs.ncg && db != ib
      && FileAt(sz).Sound() && Disjoint(FileAt(sz).Frags(), fs.FreeNow())
      && blocks == Blocks(|FileAt(sz).Frags()|)
    }

    ghost predicate Valid()
      reads this`size, this`blocks, db, ib, fs`ptrs, fs`disk, fs`cstotal, fs.csp
    {
      ValidAt(size)
    }

    lemma Opened(sz: nat)
      requires ValidAt(sz)
      ensures fs.Valid() && icg < fs.ncg && db != ib && db.Length == NDADDR && ib.Length == NIADDR
      ensures FileAt(sz).Sound() && FileAt(sz).Shaped() && Disjoint(FileAt(sz).Frags(), fs.FreeNow())
      ensures blocks == Blocks(|FileAt(sz).Frags()|)
      ensures FileAt(sz) == File(fs.fsize, sz, db[..], ib[..], fs.Pointers()) && 0 < fs.fsize && 0 < fs.geo.frag
        && 0 < fs.nindir
      ensures fs.Pointers() == Store(fs.geo.frag, fs.nindir, fs.size, fs.ptrs)
    {
      hide File.Directs, File.Trees, File.Pieces, File.Ended, Apart, CgData.Good, Fs.Summed, Fs.Reserved;
    }

    /** The part of alloc that is about the inode, and alloc. */
    method AllocBlock(bpref: nat, n: nat, uid: nat) returns (bno: int)
      requires fs.Valid() && icg < fs.ncg && 1 <= n <= fs.geo.frag
      modifies this`blocks, fs`cstotal, fs`disk, fs.csp
      ensures fs.Valid() && bno >= 0
      ensures bno == 0 ==>
        fs.disk == old(fs.disk) && fs.cstotal == old(fs.cstotal) && blocks == old(blocks) && fs.Exhausted(uid)
      ensures bno > 0 ==>
        fs.Held(bno, n) && Interval(bno, n) <= old(fs.FreeNow()) && fs.FreeNow() == old(fs.FreeNow()) - Interval(bno, n)
      ensures bno > 0 ==> blocks == old(blocks) + Btodb(fs.nspf, n)
    {
      hide CgData.Good, Fs.Summed, Fs.Reserved, Fs.FreeNow, Fs.Held, Btodb, Interval;
      bno := fs.Alloc(icg, bpref, n, uid);
      if bno > 0 {
        blocks := blocks + Btodb(fs.nspf, n);
      }
    }

    /** The part of realloccg that is about the inode, and realloccg. */
    method ReallocBlock(bprev: nat, bpref: nat, osize: nat, nsize: nat, uid: nat) returns (bno: int)
      requires fs.Valid() && 1 <= osize < nsize <= fs.geo.frag && fs.Held(bprev, osize)
      modifies this`blocks, fs`cstotal, fs`disk, fs`optim, fs.csp
      ensures fs.Valid() && bno >= 0
      ensures bno == 0 ==>
        fs.disk == old(fs.disk) && fs.cstotal == old(fs.cstotal) && blocks == old(blocks) && fs.Exhausted(uid)
      ensures bno == 0 <==> old(fs.CannotGrow(bprev, osize, nsize, uid))
      ensures bno > 0 ==> fs.Held(bno, nsize) && Interval(bno, nsize) <= old(fs.FreeNow()) + Interval(bprev, osize)
      ensures bno > 0 ==> fs.FreeNow() == (old(fs.FreeNow()) + Interval(bprev, osize)) - Interval(bno, nsize)
      ensures bno > 0 ==> blocks == old(blocks) + Btodb(fs.nspf, nsize - osize)
    {
      hide CgData.Good, Fs.Summed, Fs.Reserved, Fs.FreeNow, Fs.Held, Btodb, Interval;
      bno := fs.Realloccg(bprev, bpref, osize, nsize, uid);
      if bno > 0 {
        blocks := blocks + Btodb(fs.nspf, nsize - osize);
      }
    }

    /** A direct block as the allocator sees it. */
    lemma DirectHeld(sz: nat, k: nat)
      requires ValidAt(sz) && k < NDADDR && FileAt(sz).Sound() && FileAt(sz).db[k] != 0
      ensures fs.Valid() && FileAt(sz).Pieces()[k] ==
        Interval(FileAt(sz).db[k], FileAt(sz).Length(k)) <= FileAt(sz).Frags()
      ensures fs.Held(FileAt(sz).db[k], FileAt(sz).Length(k))
    {
      hide File.Trees, File.Ended, Apart, Union, CgData.Good, Fs.Summed, Fs.Reserved, Fs.FreeNow, Blksize, Interval;
      PieceInUnion(FileAt(sz).Pieces());
    }

    lemma HeldPlaced(f: File, nb: nat, n: nat)
      requires f.Shaped() && f.s.frag == fs.geo.frag && f.s.limit == fs.size && fs.Valid() && fs.Held(nb, n)
      ensures nb != 0 && f.Placed(nb, n)
    {
      hide CgData.Good, Fs.Summed, Fs.Reserved, Fs.FreeNow, Interval;
    }

    lemma Closed(f: File, sz: nat)
      requires f == FileAt(sz) && fs.Valid() && icg < fs.ncg && db != ib && f.Sound()
        && Disjoint(f.Frags(), fs.FreeNow())
      requires blocks == Blocks(|f.Frags()|)
      ensures ValidAt(sz)
    {
    }

    lemma ValidIs()
      ensures Valid() <==> ValidAt(size)
    {
    }

    lemma FileIs(sz: nat)
      ensures FileAt(sz) == File(fs.fsize, sz, db[..], ib[..], fs.Pointers())
    {
    }

    /** i_blocks of a file of `n` fragments. */
    ghost function Blocks(n: int): int {
      n * fs.nspf
    }

    /** Putting a new address in a direct pointer. */
    method PutDirect(k: nat, nb: nat, ghost sz: nat, ghost f: File, ghost free: set<nat>)
      requires fs.Valid() && icg < fs.ncg && db != ib && db.Length == NDADDR && f == FileAt(f.size)
      requires f.Shaped() && k < NDADDR && Exchangeable(f, free, k, nb, sz, fs.FreeNow())
        && blocks == Blocks(CountAfter(f, k, nb, sz))
      modifies db
      ensures ValidAt(sz) && Step(f, free, FileAt(sz), fs.FreeNow()) && FileAt(sz) == WithDirect(f, k, nb, sz)
      ensures forall bn: nat :: bn < MaxBlocks(f.s.n) ==> FileAt(sz).Lookup(bn) == if bn == k then nb else f.Lookup(bn)
    {
      hide *;
      ExchangeDirect(f, free, k, nb, sz, fs.FreeNow());
      FileIs(f.size);
      db[k] := nb;
      FileIs(sz);
      DirectIs(f, k, nb, sz);
      StepSound(f, free, FileAt(sz), fs.FreeNow());
      Closed(FileAt(sz), sz);
    }

    lemma BlocksPositive(n: nat)
      ensures Blocks(n) >= 0
    {
    }

    lemma BlocksAdd(a: int, d: nat)
      ensures Blocks(a + d) == Blocks(a) + Btodb(fs.nspf, d)
    {
    }

    /**
     The first thing bmap does: a file that ends in a fragment, and is to be extended into a new block, has it made
     whole.
     */
    method FillLast(k: nat, uid: nat) returns (ok: bool)
      requires Valid() && FileAt(size).Shaped() && k == Lblkno(FileAt(size).Bsize(), size) < NDADDR
        && 0 < FileAt(size).Length(k) < fs.geo.frag
      modifies this`size, this`blocks, db, fs`cstotal, fs`disk, fs`optim, fs.csp
      ensures Valid() && FileAt(size).Shaped() && Step(old(FileAt(size)), old(fs.FreeNow()), FileAt(size), fs.FreeNow())
      ensures !ok ==>
        FileAt(size) == old(FileAt(size)) && fs.FreeNow() == old(fs.FreeNow()) && fs.Valid() && fs.Exhausted(uid)
      ensures ok <==> !old(fs.CannotGrow(db[k], FileAt(size).Length(k), fs.geo.frag, uid))
      ensures ok ==> size > old(size)
      ensures ok ==> size == Start(old(FileAt(size)).Bsize(), k + 1) && forall bn: nat :: WholeBefore(FileAt(size), bn)
      ensures FileAt(size).s == old(FileAt(size)).s && size >= old(size)
      ensures forall bn: nat :: k < bn ==> Kept(old(FileAt(size)), FileAt(size), bn)
      ensures forall x: nat :: x < MaxBlocks(fs.nindir) && x != k ==>
        FileAt(size).Lookup(x) == old(FileAt(size)).Lookup(x)
    {
      hide *;
      ValidIs();
      Opened(size);
      ghost var f, free := FileAt(size), fs.FreeNow();
      Units(f);
      LastIsMapped(f, k);
      InBlock(f.Bsize(), size, k);
      DirectHeld(size, k);
      var osize := Blksize(fs.geo.frag, fs.fsize, size, k);
      var nb := ReallocBlock(db[k], blkpref(k, k, db[..]), osize, fs.geo.frag, uid);
      if nb == 0 {
        StepSame(f, free);
        FileIs(size);
        Closed(f, size);
        ValidIs();
        return false;
      }
      HeldPlaced(f, nb, fs.geo.frag);
      Filling(f, free, k, nb, fs.FreeNow());
      BlocksAdd(|f.Frags()|, fs.geo.frag - osize);
      size := Start(fs.geo.frag * fs.fsize, k + 1);
      FileIs(f.size);
      PutDirect(k, nb, size, f, free);
      ValidIs();
      StepSound(f, free, FileAt(size), fs.FreeNow());
      FileIs(size);
      Units(FileAt(size));
      ok := true;
    }

    /** bmap for write of a direct block, `sz` bytes into it; its address, or -1. */
    method WriteDirect(bn: nat, sz: nat, uid: nat) returns (r: int)
      requires Valid() && bn < NDADDR && FileAt(size).Shaped() && 1 <= sz <= FileAt(size).Bsize()
        && WholeBefore(FileAt(size), bn)
      modifies this`blocks, db, fs`cstotal, fs`disk, fs`optim, fs.csp
      ensures r == -1 || r > 0
      ensures r == -1 ==>
        Valid() && FileAt(size) == old(FileAt(size)) && fs.FreeNow() == old(fs.FreeNow()) && fs.Valid()
        && fs.Exhausted(uid)
      ensures r > 0 ==> var now := NewSize(old(FileAt(size)), bn, sz);
                ValidAt(now) && Maps(old(FileAt(size)), old(fs.FreeNow()), FileAt(now), fs.FreeNow(), bn, r)
    {
      hide *;
      ValidIs();
      Opened(size);
      ghost var f, free := FileAt(size), fs.FreeNow();
      Units(f);
      WantedCases(f, bn, sz);
      DirectLookup(f, bn);
      SameButNone(f.s, {});
      ghost var now := NewSize(f, bn, sz);
      var bsize := fs.geo.frag * fs.fsize;
      var nb := db[bn];
      if nb == 0 || size < Start(bsize, bn + 1) {
        if nb != 0 {
          var osize := Fragroundup(fs.fsize, Blkoff(bsize, size));
          var nsize := Fragroundup(fs.fsize, sz);
          if nsize <= osize {
            StaysDirect(f, free, bn, sz, nb);
            return nb;
          }
          DirectHeld(size, bn);
          r := ReallocBlock(nb, blkpref(bn, bn, db[..]), osize, nsize, uid);
        } else {
          var nsize := if size < Start(bsize, bn + 1) then Fragroundup(fs.fsize, sz) else fs.geo.frag;
          r := AllocBlock(blkpref(bn, bn, db[..]), nsize, uid);
        }
        if r == 0 {
          StepSame(f, free);
          FileIs(size);
          Closed(f, size);
          ValidIs();
          return -1;
        }
        HeldPlaced(f, r, Wanted(f, bn, sz));
        Writing(f, free, bn, sz, r, fs.FreeNow());
        BlocksAdd(|f.Frags()|, Wanted(f, bn, sz) - if nb != 0 then f.Length(bn) else 0);
        FileIs(f.size);
        PutDirect(bn, r, now, f, free);
        StepSound(f, free, FileAt(now), fs.FreeNow());
        FileIs(now);
        MayMoveIs(f, FileAt(now), bn);
        MapsMake(f, free, FileAt(now), fs.FreeNow(), bn, 0, {});
        MapsFound(f, free, FileAt(now), fs.FreeNow(), bn, r);
      } else {
        StaysDirect(f, free, bn, sz, nb);
        r := nb;
      }
    }

    /** Direct block `bn` is long enough where it is. */
    lemma StaysDirect(f: File, free: set<nat>, bn: nat, sz: nat, nb: nat)
      requires ValidAt(f.size) && f == FileAt(f.size) && free == fs.FreeNow() && f.Sound() && f.Shaped()
        && Disjoint(f.Frags(), free) && bn < NDADDR
      requires 1 <= sz <= f.Bsize() && WholeBefore(f, bn) && nb == f.db[bn] != 0 && Wanted(f, bn, sz) == f.Length(bn)
      ensures ValidAt(NewSize(f, bn, sz)) && Maps(f, free, FileAt(NewSize(f, bn, sz)), free, bn, nb)
    {
      hide *;
      var now := NewSize(f, bn, sz);
      DirectLookup(f, bn);
      SameButNone(f.s, {});
      Staying(f, free, bn, sz);
      Stays(f, free, now);
      MapsMake(f, free, FileAt(now), free, bn, 0, {});
      MapsFound(f, free, FileAt(now), free, bn, nb);
    }

    /** Nothing changed but what the size of the file is taken to be. */
    lemma Stays(f: File, free: set<nat>, now: nat)
      requires ValidAt(f.size) && f == FileAt(f.size) && free == fs.FreeNow() && f.Shaped()
      requires var g := f.(size := now); Step(f, free, g, free) && |g.Frags()| == |f.Frags()|
      ensures ValidAt(now) && FileAt(now) == f.(size := now) && f.(size := now).Shaped() && f.(size := now).db == f.db
    {
      hide File.Directs, File.Trees, File.Pieces, File.Ended, Apart, File.Frags, CgData.Good, Fs.Summed, Fs.Reserved;
    }

    lemma HeldJoins(f: File, free: set<nat>, nb: nat)
      requires fs.Valid() && fs.Held(nb, fs.geo.frag) && f.Shaped() && f.s.frag == fs.geo.frag && f.s.limit == fs.size
      requires Disjoint(f.Frags(), free) && Interval(nb, fs.geo.frag) <= free
      ensures nb != 0 && Joins(f.s, nb, f.Frags()) && |Interval(nb, fs.geo.frag)| == fs.geo.frag
        && nb in Interval(nb, fs.geo.frag) - f.Frags()
    {
      hide CgData.Good, Fs.Summed, Fs.Reserved, Fs.FreeNow, File.Frags;
    }

    /** The block alloc hands out is cleared. */
    method Clear(nb: nat)
      modifies fs`ptrs
      ensures SameBut(old(fs.Pointers()), fs.Pointers(), {nb}) && Blank(fs.Pointers(), nb)
    {
      fs.ptrs := fs.ptrs[nb := seq(fs.nindir, _ => 0)];
    }

    /** After a step that changed the tree under pointer `l` and perhaps the pointer itself. */
    lemma TreeStepped(f: File, free: set<nat>, l: nat, root: nat, sz: nat)
      requires f.Shaped() && l < NIADDR && FileAt(sz) == WithTree(f, l, root, fs.Pointers(), sz)
        && Step(f, free, FileAt(sz), fs.FreeNow())
      requires fs.Valid() && icg < fs.ncg && db != ib && blocks == Blocks(|FileAt(sz).Frags()|)
      ensures ValidAt(sz)
    {
      hide File.Directs, File.Trees, File.Pieces, File.Ended, Apart, File.Frags, CgData.Good, Fs.Summed, Fs.Reserved;
    }

    /** bmap giving the file the indirect block of pointer `l`; its address, or -1. */
    method SproutRoot(l: nat, pref: nat, uid: nat, ghost bn: nat) returns (nb: int)
      requires Valid() && l < NIADDR && FileAt(size).Shaped() && NDADDR <= bn < MaxBlocks(fs.nindir)
        && FileAt(size).s.n == fs.nindir > 0
      requires Slot(fs.nindir, bn) == NDADDR + l && FileAt(size).ib[l] == 0
      modifies this`blocks, ib, fs`cstotal, fs`disk, fs`ptrs, fs.csp
      ensures nb == -1 || nb > 0
      ensures nb == -1 ==>
        Valid() && FileAt(size) == old(FileAt(size)) && fs.FreeNow() == old(fs.FreeNow()) && fs.Valid()
        && fs.Exhausted(uid)
      ensures nb > 0 ==> Valid() && Maps(old(FileAt(size)), old(fs.FreeNow()), FileAt(size), fs.FreeNow(), bn, -1)
      ensures nb > 0 ==> FileAt(size).Shaped() && FileAt(size).ib[l] == nb
    {
      hide *;
      ValidIs();
      Opened(size);
      ghost var f, free, s := FileAt(size), fs.FreeNow(), fs.Pointers();
      Units(f);
      nb := AllocBlock(pref, fs.geo.frag, uid);
      if nb == 0 {
        FileIs(size);
        Closed(f, size);
        ValidIs();
        return -1;
      }
      HeldJoins(f, free, nb);
      Clear(nb);
      SproutFits(f, l, bn, nb, fs.Pointers());
      Growing(f, free, l, nb, fs.Pointers(), size, {nb}, bn, false, 0, Interval(nb, fs.geo.frag), fs.FreeNow());
      TreeIs(f, l, nb, fs.Pointers(), size);
      BlocksAdd(|f.Frags()|, fs.geo.frag);
      ib[l] := nb;
      FileIs(size);
      StepSound(f, free, FileAt(size), fs.FreeNow());
      TreeStepped(f, free, l, nb, size);
      ValidIs();
      MapsMake(f, free, FileAt(size), fs.FreeNow(), bn, -1, {nb});
    }

    /**
     bmap filling pointer `i` of the indirect block at `cur`, a hole until now; the address of the new block, or -1.
     */
    method GraftKid(l: nat, cur: nat, i: nat, pref: nat, uid: nat, ghost bn: nat, ghost x: nat, ghost d: nat,
          ghost to: nat) returns (nb: int)
      requires Valid() && FileAt(size).Shaped() && l < NIADDR && d <= l && Hole(FileAt(size), l, bn, x, d, cur, i)
      requires SizeFits(FileAt(size), to) && (d == l ==> Start(FileAt(size).Bsize(), bn) < to)
      modifies this`blocks, fs`cstotal, fs`disk, fs`ptrs, fs.csp
      ensures nb == -1 || nb > 0
      ensures nb == -1 ==>
        Valid() && FileAt(size) == old(FileAt(size)) && fs.FreeNow() == old(fs.FreeNow()) && fs.Valid()
        && fs.Exhausted(uid)
      ensures nb > 0 ==> ValidAt(to) && Reaches(FileAt(to), l, x, d + 1, nb)
      ensures nb > 0 ==> Maps(old(FileAt(size)), old(fs.FreeNow()), FileAt(to), fs.FreeNow(), bn, if d < l then -1
        else 0)
    {
      hide *;
      ValidIs();
      Opened(size);
      ghost var f, free, s := FileAt(size), fs.FreeNow(), fs.Pointers();
      Units(f);
      HoleIs(f, l, bn, x, d, cur, i);
      var bap := fs.Pointers().Entries(cur);
      nb := AllocBlock(pref, fs.geo.frag, uid);
      if nb == 0 {
        FileIs(size);
        Closed(f, size);
        ValidIs();
        return -1;
      }
      HeldJoins(f, free, nb);
      Clear(nb);
      ghost var m := fs.Pointers();
      PointersAre(fs);
      fs.ptrs := fs.ptrs[cur := bap[i := nb]];
      PointersAre(fs);
      Stored(s, m, fs.Pointers(), cur, i, nb);
      GraftedIs(f, fs.Pointers(), l, bn, x, d, cur, i, nb);
      GraftFits(f, l, x, d, bn, nb, fs.Pointers(), to);
      Growing(f, free, l, f.ib[l], fs.Pointers(), to, {cur, nb}, bn, d == l, nb, Interval(nb, fs.geo.frag),
        fs.FreeNow());
      TreeIs(f, l, f.ib[l], fs.Pointers(), to);
      BlocksAdd(|f.Frags()|, fs.geo.frag);
      FileIs(to);
      StepSound(f, free, FileAt(to), fs.FreeNow());
      TreeStepped(f, free, l, f.ib[l], to);
      ReachesIs(FileAt(to), l, x, d + 1, nb);
      MapsMake(f, free, FileAt(to), fs.FreeNow(), bn, if d < l then -1 else 0, {cur, nb});
    }

    /** One turn of bmap's loop through the indirect blocks; the address of the next block, or -1. */
    method Descend(l: nat, cur: nat, i: nat, write: bool, pref: nat, uid: nat, ghost bn: nat, ghost x: nat,
          ghost d: nat, ghost to: nat) returns (kid: int)
      requires Valid() && FileAt(size).Shaped() && l < NIADDR && d <= l && Reaches(FileAt(size), l, x, d, cur)
        && cur != 0
      requires NDADDR <= bn < MaxBlocks(FileAt(size).s.n) && Slot(FileAt(size).s.n, bn) == NDADDR + l
        && x == Offset(FileAt(size).s.n, bn)
      requires i == DigitAt(FileAt(size).s.n, l + 1, x, d)
      requires SizeFits(FileAt(size), to) && (d == l && write ==> Start(FileAt(size).Bsize(), bn) < to)
        && (!(d == l && write) ==> to == size)
      modifies this`blocks, fs`cstotal, fs`disk, fs`ptrs, fs.csp
      ensures kid == -1 || kid > 0
      ensures kid == -1 || !write ==> Valid() && FileAt(size) == old(FileAt(size)) && fs.FreeNow() == old(fs.FreeNow())
      ensures kid == -1 ==> if write then fs.Valid() && fs.Exhausted(uid) else old(FileAt(size)).Lookup(bn) == 0
      ensures kid > 0 ==> ValidAt(to) && Reaches(FileAt(to), l, x, d + 1, kid)
      ensures kid > 0 ==> Maps(old(FileAt(size)), old(fs.FreeNow()), FileAt(to), fs.FreeNow(), bn, if d < l then -1
        else 0)
    {
      hide *;
      ValidIs();
      Opened(size);
      ghost var f, free := FileAt(size), fs.FreeNow();
      Units(f);
      NextReached(f, l, x, d, cur, i);
      var bap := fs.Pointers().Entries(cur);
      kid := bap[i];
      if kid == 0 {
        if !write {
          Reached(f, l, bn, x, d + 1, 0);
          return -1;
        }
        HoleHere(f, l, bn, x, d, cur, i);
        kid := GraftKid(l, cur, i, pref, uid, bn, x, d, to);
      } else {
        if d == l && write {
          StayingBelow(f, free, l, bn, to);
        } else {
          StepSame(f, free);
        }
        Stays(f, free, to);
        FileIs(to);
        ReachesSame(f, l, x, d + 1, kid, to);
        SameButNone(fs.Pointers(), {});
        MapsMake(f, free, FileAt(to), fs.FreeNow(), bn, if d < l then -1 else 0, {});
      }
    }

    /** bmap's loop through the indirect blocks, from the one of pointer `l` down. */
    method Follow(l: nat, x: nat, step: nat, from: nat, write: bool, bn: nat, hint: nat, uid: nat, ghost to: nat)
          returns (r: int)
      requires Valid() && FileAt(size).Shaped() && l < NIADDR && from == FileAt(size).ib[l] != 0
      requires NDADDR <= bn < MaxBlocks(fs.nindir) && FileAt(size).s.n == fs.nindir > 0
        && Slot(fs.nindir, bn) == NDADDR + l && x == Offset(fs.nindir, bn)
      requires step == Span(fs.nindir, l + 1) && SizeFits(FileAt(size), to)
      requires if write then Start(FileAt(size).Bsize(), bn) < to else to == size
      modifies this`blocks, fs`cstotal, fs`disk, fs`ptrs, fs.csp
      ensures r == -1 || r > 0
      ensures !write ==> FileAt(size) == old(FileAt(size)) && fs.FreeNow() == old(fs.FreeNow())
      ensures r == -1 ==> if write then fs.Valid() && fs.Exhausted(uid) else old(FileAt(size)).Lookup(bn) == 0
      ensures var now := if r == -1 then size else to;
              ValidAt(now) && Maps(old(FileAt(size)), old(fs.FreeNow()), FileAt(now), fs.FreeNow(), bn, r)
    {
      hide *;
      ValidIs();
      Opened(size);
      ghost var f, free := FileAt(size), fs.FreeNow();
      Units(f);
      MapsSame(f, free, bn);
      AtStart(f, l, x);
      FileIs(size);
      r := from;
      var pref: nat, sh: nat, j := hint, step, 3 - l;
      while j <= 3
        invariant 3 - l <= j <= 4 && sh == Span(fs.nindir, 4 - j) && r > 0 && db[..] == f.db
        invariant var now := if j == 4 then to else size;
          ValidAt(now) && Reaches(FileAt(now), l, x, j - (3 - l), r)
            && Maps(f, free, FileAt(now), fs.FreeNow(), bn, if j == 4 then 0 else -1)
        invariant !write ==> FileAt(size) == f && fs.FreeNow() == free
      {
        ghost var g, left := FileAt(size), fs.FreeNow();
        FileIs(size);
        Opened(size);
        Units(g);
        ValidIs();
        var bap := fs.Pointers().Entries(r);
        SpanDown(fs.nindir, 3 - j);
        sh := sh / fs.nindir;
        var i := (x / sh) % fs.nindir;
        DigitByDivision(fs.nindir, l + 1, x, j - (3 - l));
        if bap[i] == 0 && write && pref == 0 {
          pref := if j < 3 then blkpref(bn, 0, []) else blkpref(bn, i, bap);
        }
        ghost var next := if j == 3 then to else size;
        if j == 3 && write {
          SizeFitsSame(f, g, to);
        } else {
          SameSizeFits(g);
        }
        MapsOpen(f, free, g, left, bn, -1);
        r := Descend(l, r, i, write, pref, uid, bn, x, j - (3 - l), next);
        ValidIs();
        if r == -1 {
          return;
        }
        MapsThen(f, free, g, left, FileAt(next), fs.FreeNow(), bn, if j == 3 then 0 else -1);
        j := j + 1;
      }
      MapsOpen(f, free, FileAt(to), fs.FreeNow(), bn, 0);
      Reached(FileAt(to), l, bn, x, l + 1, r);
      MapsFound(f, free, FileAt(to), fs.FreeNow(), bn, r);
    }

    /** bmap for a block found through indirect blocks. */
    method BmapTree(bn: nat, write: bool, sz: nat, uid: nat) returns (r: int)
      requires Valid() && FileAt(size).Shaped() && NDADDR <= bn
      requires write ==> 1 <= sz <= FileAt(size).Bsize() && WholeBefore(FileAt(size), bn)
      modifies this`blocks, ib, fs`cstotal, fs`disk, fs`ptrs, fs.csp
      ensures r >= -1 && (r == 0 <==> bn >= MaxBlocks(old(FileAt(size)).s.n))
      ensures !write ==> FileAt(size) == old(FileAt(size)) && fs.FreeNow() == old(fs.FreeNow())
      ensures r == -1 ==> if write then fs.Valid() && fs.Exhausted(uid) else old(FileAt(size)).Lookup(bn) == 0
      ensures var f := old(FileAt(size));
              var to := if write && r > 0 then NewSize(f, bn, sz) else size;
              ValidAt(to) && Maps(f, old(fs.FreeNow()), FileAt(to), fs.FreeNow(), bn, if r > 0 then r else -1)
    {
      hide *;
      ValidIs();
      Opened(size);
      ghost var f, free := FileAt(size), fs.FreeNow();
      Units(f);
      MapsSame(f, free, bn);
      var j, x, sh := FindLevel(bn);
      if j == 0 {
        return 0;
      }
      ghost var to := if write then NewSize(f, bn, sz) else size;
      if write {
        NewSizeFitsTree(f, bn, sz);
      } else {
        SameSizeFits(f);
      }
      var l := 3 - j;
      var pref := 0;
      r := ib[l];
      if r == 0 {
        if !write {
          AtStart(f, l, x);
          Reached(f, l, bn, x, 0, 0);
          return -1;
        }
        pref := blkpref(bn, 0, []);
        r := SproutRoot(l, pref, uid, bn);
        ValidIs();
        if r == -1 {
          return;
        }
        MapsOpen(f, free, FileAt(size), fs.FreeNow(), bn, -1);
        FileIs(size);
        SizeFitsSame(f, FileAt(size), to);
      }
      FileIs(size);
      ghost var g, left := FileAt(size), fs.FreeNow();
      r := Follow(l, x, sh, r, write, bn, pref, uid, to);
      MapsThen(f, free, g, left, FileAt(if r == -1 then size else to), fs.FreeNow(), bn, r);
    }

    /** How many levels of indirection: `j` is 4 less their number, or 0 when the block number is too large. */
    method FindLevel(bn: nat) returns (j: nat, x: nat, sh: nat)
      requires NDADDR <= bn && 0 < fs.nindir
      ensures j <= 3 && (j == 0 <==> bn >= MaxBlocks(fs.nindir))
      ensures j > 0 ==>
        Slot(fs.nindir, bn) == NDADDR + (3 - j) && x == Offset(fs.nindir, bn) && sh == Span(fs.nindir, 4 - j)
    {
      hide Span;
      var n := fs.nindir;
      SpanOne(n);
      sh := 1;
      x := bn - NDADDR;
      j := 3;
      while j > 0
        invariant j <= 3 && sh == Span(n, 3 - j)
        invariant x == bn - NDADDR - (if j <= 2 then Span(n, 1) else 0) - (if j <= 1 then Span(n, 2)
          else 0) - (if j == 0 then Span(n, 3) else 0)
        invariant j <= 2 ==> bn - NDADDR >= Span(n, 1)
        invariant j <= 1 ==> bn - NDADDR - Span(n, 1) >= Span(n, 2)
        invariant j == 0 ==> bn >= MaxBlocks(n)
      {
        SpanStep(n, 3 - j);
        sh := sh * n;
        if x < sh {
          return;
        }
        x := x - sh;
        j := j - 1;
      }
    }

    /**
     bmap, called to write block `bn`, first makes the last block whole: it is a fragment, before `bn`, and can grow.
     */
    ghost predicate RoundsUp(bn: int, uid: nat)
      requires fs.Valid() && FileAt(size).Shaped()
      reads this`size, db, ib, fs`ptrs, fs`disk, fs`cstotal, fs`optim, fs.csp
    {
      var f := FileAt(size);
      var k := Lblkno(f.Bsize(), size);
      && k < NDADDR && k < bn && 0 < f.Length(k) < fs.geo.frag
      && !fs.CannotGrow(f.db[k], f.Length(k), fs.geo.frag, uid)
    }

    lemma RoundsUpIs(bn: int, uid: nat)
      requires fs.Valid() && FileAt(size).Shaped()
      ensures var f := FileAt(size); var k := Lblkno(f.Bsize(), size);
        RoundsUp(bn, uid) == (k < NDADDR && k < bn && 0 < f.Length(k) < fs.geo.frag
          && !fs.CannotGrow(f.db[k], f.Length(k), fs.geo.frag, uid))
    {
      hide CgData.Good, Fs.Summed, Fs.Reserved, Fs.CannotGrow;
    }

    /** The first part of bmap for write. */
    method FillBefore(bn: nat, uid: nat) returns (ok: bool)
      requires Valid() && FileAt(size).Shaped()
      modifies this`size, this`blocks, db, fs`cstotal, fs`disk, fs`optim, fs.csp
      ensures Valid()
      ensures !ok ==>
        FileAt(size) == old(FileAt(size)) && fs.FreeNow() == old(fs.FreeNow()) && fs.Valid() && fs.Exhausted(uid)
      ensures ok ==> Filled(old(FileAt(size)), old(fs.FreeNow()), FileAt(size), fs.FreeNow(), bn)
      ensures size != old(size) <==> old(RoundsUp(bn, uid))
    {
      hide *;
      ValidIs();
      Opened(size);
      ghost var f, free := FileAt(size), fs.FreeNow();
      Units(f);
      StepSame(f, free);
      RoundsUpIs(bn, uid);
      var nb := Lblkno(fs.geo.frag * fs.fsize, size);
      if nb < NDADDR && nb < bn {
        var osize := Blksize(fs.geo.frag, fs.fsize, size, nb);
        if osize < fs.geo.frag && osize > 0 {
          ok := FillLast(nb, uid);
          FileIs(size);
          if ok {
            FilledMake(f, free, FileAt(size), fs.FreeNow(), bn);
          }
          return;
        }
      }
      NothingToFill(f, bn);
      FilledMake(f, free, f, free, bn);
      FileIs(size);
      ok := true;
    }

    /**
     bmap: the address of block `bn`; -1 for a hole, or when there is no space for it, and 0 when the number is out of
     range.  For write the block is made to hold `sz` bytes; the caller then raises i_size to `NewSize`.
     */
    method Bmap(bn: int, write: bool, sz: nat, uid: nat) returns (r: int)
      requires Valid() && FileAt(size).Shaped() && (write ==> 1 <= sz <= FileAt(size).Bsize())
      modifies this`size, this`blocks, db, ib, fs`cstotal, fs`disk, fs`optim, fs`ptrs, fs.csp
      ensures r >= -1 && (r == 0 ==> bn < 0 || bn >= MaxBlocks(old(FileAt(size)).s.n))
      ensures bn < 0 || bn >= MaxBlocks(old(FileAt(size)).s.n) ==> r == 0 || (write && r == -1)
      ensures !write ==> Valid() && FileAt(size) == old(FileAt(size)) && fs.FreeNow() == old(fs.FreeNow())
      ensures !write && r != 0 ==> r == if old(FileAt(size)).Lookup(bn) == 0 then -1 else old(FileAt(size)).Lookup(bn)
      ensures r == -1 && write ==> fs.Valid() && fs.Exhausted(uid)
      ensures r <= 0 ==> Valid()
      ensures size != old(size) <==> write && old(RoundsUp(bn, uid))
      ensures var b := old(FileAt(size)).Bsize();
              size == old(size) || (Lblkno(b, old(size)) < bn && size == Start(b, Lblkno(b, old(size)) + 1))
      ensures r > 0 && write ==> ValidAt(NewSize(old(FileAt(size)), bn, sz))
      ensures r > 0 && write ==> var end := bn * (fs.geo.frag * fs.fsize) + sz;
                NewSize(old(FileAt(size)), bn, sz) == if size < end then end else size
      ensures r > 0 && write ==> Stores(FileAt(NewSize(old(FileAt(size)), bn, sz)), bn, sz, r)
      ensures Written(old(FileAt(size)), old(fs.FreeNow()),
        FileAt(if r > 0 && write then NewSize(old(FileAt(size)), bn, sz) else size), fs.FreeNow(), bn, r)
    {
      hide *;
      ValidIs();
      Opened(size);
      ghost var f, free := FileAt(size), fs.FreeNow();
      Units(f);
      NothingWritten(f, free, bn, -1);
      NothingWritten(f, free, bn, 0);
      RoundsUpIs(bn, uid);
      if bn < 0 {
        return 0;
      }
      StepSame(f, free);
      if write {
        var ok := FillBefore(bn, uid);
        FileIs(size);
        if !ok {
          return -1;
        }
        FilledOpen(f, free, FileAt(size), fs.FreeNow(), bn);
      }
      ghost var g, left := FileAt(size), fs.FreeNow();
      ValidIs();
      Opened(size);
      Units(g);
      MapsSame(g, left, bn);
      if bn < NDADDR {
        r := db[bn];
        DirectLookup(g, bn);
        if !write {
          r := if r == 0 then -1 else r;
        } else {
          r := WriteDirect(bn, sz, uid);
        }
      } else {
        r := BmapTree(bn, write, sz, uid);
      }
      ValidIs();
      FileIs(size);
      if r > 0 && write {
        NewSizeIs(g, bn, sz);
        StartIs(g.Bsize(), bn);
      }
      ghost var now := FileAt(if r > 0 && write then NewSize(g, bn, sz) else size);
      if r > 0 && bn < NDADDR && !write {
        MapsAlready(g, left, bn, r);
      } else if r > 0 && !write {
        MapsOpen(g, left, now, fs.FreeNow(), bn, r);
      }
      FilledThen(f, free, g, left, now, fs.FreeNow(), bn, r);
      if r > 0 && write {
        NewSizeIs(f, bn, sz);
        HeldNow(f, free, NewSize(g, bn, sz), bn, sz, r);
      }
    }

    lemma HeldNow(f: File, free: set<nat>, to: nat, bn: nat, sz: nat, r: int)
      requires ValidAt(to) && Written(f, free, FileAt(to), fs.FreeNow(), bn, r) && 0 < r
      requires 1 <= sz <= fs.geo.frag * fs.fsize && Start(fs.geo.frag * fs.fsize, bn) + sz <= to
      ensures Stores(FileAt(to), bn, sz, r)
    {
      hide *;
      Opened(to);
      Units(FileAt(to));
      WrittenIs(f, free, FileAt(to), fs.FreeNow(), bn, r);
      StartIs(fs.geo.frag * fs.fsize, bn);
      WrittenHeld(FileAt(to), bn, sz);
    }

    /** The part of a write to a file that is about its map: bmap, and the size update that follows it. */
    method WriteBlock(lbn: int, sz: nat, uid: nat) returns (r: int)
      requires Valid() && FileAt(size).Shaped() && 1 <= sz <= FileAt(size).Bsize()
      modifies this`size, this`blocks, db, ib, fs`cstotal, fs`disk, fs`optim, fs`ptrs, fs.csp
      ensures Valid() && Written(old(FileAt(size)), old(fs.FreeNow()), FileAt(size), fs.FreeNow(), lbn, r)
      ensures r > 0 ==> Stores(FileAt(size), lbn, sz, r)
      ensures r > 0 ==> var end := lbn * (fs.geo.frag * fs.fsize) + sz;
        size == if old(size) < end then end else old(size)
    {
      hide *;
      ghost var f := FileAt(size);
      ValidIs();
      Opened(size);
      Units(f);
      r := Bmap(lbn, true, sz, uid);
      if r > 0 {
        var end := Start(fs.geo.frag * fs.fsize, lbn) + sz;
        StartIs(fs.geo.frag * fs.fsize, lbn);
        NewSizeIs(f, lbn, sz);
        if end > size {
          size := end;
        }
      }
      ValidIs();
    }

    // -----------------------------------------------------------------------------------------------
    // Truncation
    // -----------------------------------------------------------------------------------------------

    /** itrunc giving back all of the tree under pointer `l`. */
    method DropTree(l: nat, root: nat, ghost f: File, ghost free: set<nat>) returns (released: nat)
      requires fs.Valid() && f.Sound() && f.Shaped() && Disjoint(f.Frags(), free) && l < NIADDR && root == f.ib[l]
      requires SameBut(f.s, fs.Pointers(), From(f.Pieces(), NDADDR + l + 1))
        && fs.FreeNow() == free + From(f.Pieces(), NDADDR + l + 1)
      modifies fs`cstotal, fs`disk, fs`ptrs, fs.csp
      ensures fs.Valid() && SameBut(f.s, fs.Pointers(), From(f.Pieces(), NDADDR + l))
        && fs.FreeNow() == free + From(f.Pieces(), NDADDR + l)
      ensures released == Btodb(fs.nspf, |f.Pieces()[NDADDR + l]|)
    {
      hide *;
      Units(f);
      ghost var ps, t := f.Pieces(), fs.Pointers();
      TreeTurn(f, t, l, free);
      SoundParts(f);
      PieceTurn(ps, NDADDR + l, free);
      StoreFacts(f.s, t, From(ps, NDADDR + l + 1));
      released := 0;
      if root != 0 {
        released := Drop(fs, root, l + 1);
      } else {
        NoFrags(t, l + 1);
        BtodbNone(fs.nspf);
      }
      SameButBoth(f.s, t, fs.Pointers(), From(ps, NDADDR + l + 1), ps[NDADDR + l]);
    }

    /**
     The part of itrunc that gives back indirect blocks and what is below them; `done` when the file still ends below
     one.
     */
    method FreeTrees(tib: seq<nat>, ends: seq<int>, ghost f: File, ghost free: set<nat>, ghost last: int)
      returns (released: nat, now: seq<nat>, done: bool, ghost freed: set<nat>, ghost where: set<nat>)
      requires fs.Valid() && f.Sound() && f.Shaped() && Disjoint(f.Frags(), free) && f.s == fs.Pointers()
        && fs.FreeNow() == free && tib == f.ib
      requires f.s.n == fs.nindir && Lasts(f.s.n, last, ends)
      modifies fs`cstotal, fs`disk, fs`ptrs, fs.csp
      ensures fs.Valid() && 0 < f.s.n && -1 <= last < MaxBlocks(f.s.n) && (done <==> NDADDR <= last)
      ensures SameBut(f.s, fs.Pointers(), where) && where ==
        From(f.Pieces(), if done then CutAt(f.s.n, last) else NDADDR)
      ensures fs.FreeNow() == free + freed && released == Btodb(fs.nspf, |freed|)
      ensures !done ==> freed == From(f.Pieces(), NDADDR)
      ensures done ==> NDADDR <= CutAt(f.s.n, last) < NDADDR + NIADDR
      ensures done ==> TreeCut(f, fs.Pointers(), CutAt(f.s.n, last) - NDADDR, Offset(f.s.n, last), freed)
      ensures KeptUpTo(now, f.ib, CutAt(f.s.n, last) - NDADDR)
    {
      hide *;
      SoundParts(f);
      Units(f);
      LastsRange(f.s.n, last, ends);
      ghost var ps := f.Pieces();
      FromAll(ps);
      SameButNone(f.s, {});
      BtodbNone(fs.nspf);
      released, now, done, freed, where := 0, tib, false, {}, {};
      NoneFreed(free);
      KeptAll(f.ib, NIADDR - 1);
      var level := NIADDR - 1;
      while level >= 0
        invariant -1 <= level < NIADDR && CutAt(f.s.n, last) <= NDADDR + level
        invariant fs.Valid() && freed == where == From(ps, NDADDR + level + 1) && SameBut(f.s, fs.Pointers(), where)
        invariant fs.FreeNow() == free + freed && released == Btodb(fs.nspf, |freed|)
        invariant KeptUpTo(now, f.ib, level)
      {
        LastsOpen(f.s.n, last, ends, level);
        TreeTurn(f, fs.Pointers(), level, free);
        PieceTurn(ps, NDADDR + level, free);
        if ends[level] >= 0 {
          var k;
          k, freed := TrimTree(level, tib[level], ends[level], f, free);
          TreeCutSize(f, fs.Pointers(), level, ends[level], freed);
          BtodbAdd(fs.nspf, |where|, |freed| - |where|);
          released, done, where := released + k, true, From(ps, NDADDR + level);
          return;
        }
        KeptStep(now, f.ib, level);
        var k := DropTree(level, tib[level], f, free);
        BtodbAdd(fs.nspf, |freed|, |ps[NDADDR + level]|);
        released, now := released + k, now[level := 0];
        freed, where := From(ps, NDADDR + level), From(ps, NDADDR + level);
        level := level - 1;
      }
      KeptNone(now, f.ib, CutAt(f.s.n, last) - NDADDR);
    }

    /** itrunc pruning the tree the file is to end in. */
    method TrimTree(l: nat, root: nat, end: nat, ghost f: File, ghost free: set<nat>)
          returns (released: nat, ghost freed: set<nat>)
      requires fs.Valid() && f.Sound() && f.Shaped() && Disjoint(f.Frags(), free) && l < NIADDR && root == f.ib[l]
        && f.s.n == fs.nindir
      requires SameBut(f.s, fs.Pointers(), From(f.Pieces(), NDADDR + l + 1))
        && fs.FreeNow() == free + From(f.Pieces(), NDADDR + l + 1)
      requires end < Span(fs.nindir, l + 1)
      modifies fs`cstotal, fs`disk, fs`ptrs, fs.csp
      ensures fs.Valid() && SameBut(f.s, fs.Pointers(), From(f.Pieces(), NDADDR + l)) && fs.FreeNow() == free + freed
      ensures TreeCut(f, fs.Pointers(), l, end, freed)
        && released == Btodb(fs.nspf, |Lost(f.s, fs.Pointers(), root, l + 1)|)
    {
      hide *;
      Units(f);
      ghost var ps, t := f.Pieces(), fs.Pointers();
      ghost var past := From(ps, NDADDR + l + 1);
      TreeTurn(f, t, l, free);
      SoundParts(f);
      PieceTurn(ps, NDADDR + l, free);
      StoreFacts(f.s, t, past);
      released := TrimKid(fs, root, l + 1, end);
      TreeCutIs(f, t, fs.Pointers(), l, end, free);
      freed := past + Lost(t, fs.Pointers(), root, l + 1);
      SameButBoth(f.s, t, fs.Pointers(), past, ps[NDADDR + l]);
    }


    lemma PlacedHeld(f: File, nb: nat, n: nat)
      requires fs.Valid() && f.Shaped() && f.s.frag == fs.geo.frag && f.s.limit == fs.size && nb != 0 && f.Placed(nb, n)
      requires Disjoint(Interval(nb, n), fs.FreeNow())
      ensures fs.Held(nb, n)
    {
      hide CgData.Good, Fs.Summed, Fs.Reserved, Fs.FreeNow, Interval;
    }

    /** One turn of the loop that gives back whole direct blocks; nothing is done for a hole. */
    method FreeDirect(i: nat, bn: nat, osize: nat, ghost f: File, ghost free: set<nat>) returns (released: nat)
      requires fs.Valid() && f.Sound() && f.Shaped() && Disjoint(f.Frags(), free) && i < NDADDR && bn == f.db[i]
        && osize == f.size
      requires f.s.frag == fs.geo.frag && f.s.limit == fs.size && f.fsize == fs.fsize
        && fs.FreeNow() == free + From(f.Pieces(), i + 1)
      modifies fs`cstotal, fs`disk, fs.csp
      ensures fs.Valid() && fs.FreeNow() == free + From(f.Pieces(), i)
      ensures released + Btodb(fs.nspf, |From(f.Pieces(), i + 1)|) == Btodb(fs.nspf, |From(f.Pieces(), i)|)
    {
      hide *;
      SoundParts(f);
      Units(f);
      PieceTurn(f.Pieces(), i, free);
      DirectPiece(f, i);
      BtodbAdd(fs.nspf, |From(f.Pieces(), i + 1)|, |f.Pieces()[i]|);
      if bn == 0 {
        BtodbNone(fs.nspf);
        NoneFreed(fs.FreeNow());
        return 0;
      }
      var bsize := Blksize(fs.geo.frag, fs.fsize, osize, i);
      PlacedHeld(f, bn, bsize);
      fs.Release(bn, bsize);
      released := Btodb(fs.nspf, bsize);
    }

    /** The part of itrunc that gives back whole direct blocks, the last first. */
    method FreeDirects(tdb: seq<nat>, osize: nat, last: int, ghost f: File, ghost free: set<nat>)
          returns (released: nat, now: seq<nat>)
      requires fs.Valid() && f.Sound() && f.Shaped() && Disjoint(f.Frags(), free) && tdb == f.db && osize == f.size
        && -1 <= last < NDADDR
      requires f.s.frag == fs.geo.frag && f.s.limit == fs.size && f.fsize == fs.fsize
        && fs.FreeNow() == free + From(f.Pieces(), NDADDR)
      modifies fs`cstotal, fs`disk, fs.csp
      ensures fs.Valid() && fs.FreeNow() == free + From(f.Pieces(), last + 1)
      ensures released + Btodb(fs.nspf, |From(f.Pieces(), NDADDR)|) == Btodb(fs.nspf, |From(f.Pieces(), last + 1)|)
      ensures KeptUpTo(now, f.db, last)
    {
      hide *;
      SoundParts(f);
      Units(f);
      ghost var ps := f.Pieces();
      released, now := 0, tdb;
      KeptAll(f.db, NDADDR - 1);
      var i := NDADDR - 1;
      while i > last
        invariant last <= i < NDADDR && fs.Valid() && fs.FreeNow() == free + From(ps, i + 1)
        invariant released + Btodb(fs.nspf, |From(ps, NDADDR)|) == Btodb(fs.nspf, |From(ps, i + 1)|)
        invariant KeptUpTo(now, f.db, i)
      {
        KeptStep(now, f.db, i);
        var bn := now[i];
        now := now[i := 0];
        var k := FreeDirect(i, bn, osize, f, free);
        released := released + k;
        i := i - 1;
      }
    }

    /** The part of itrunc that gives back what the last direct block no longer needs. */
    method FreeTail(bn: nat, osize: nat, length: nat, last: nat, ghost f: File, ghost free: set<nat>)
          returns (released: nat, ghost part: set<nat>)
      requires fs.Valid() && f.Sound() && f.Shaped() && Disjoint(f.Frags(), free) && last < NDADDR && bn == f.db[last]
        && osize == f.size
      requires f.s.frag == fs.geo.frag && f.s.limit == fs.size && f.fsize == fs.fsize
        && fs.FreeNow() == free + From(f.Pieces(), last + 1)
      requires bn != 0 ==> 1 <= Blksize(f.s.frag, f.fsize, length, last) <= f.Length(last)
      modifies fs`cstotal, fs`disk, fs.csp
      ensures fs.Valid() && fs.FreeNow() == (free + From(f.Pieces(), last + 1)) + part
        && released == Btodb(fs.nspf, |part|)
      ensures part == f.Pieces()[last] - Extent(bn, Blksize(f.s.frag, f.fsize, length, last))
    {
      hide *;
      SoundParts(f);
      Units(f);
      ghost var ps := f.Pieces();
      PieceTurn(ps, last, free);
      DirectPiece(f, last);
      released, part := 0, {};
      BtodbNone(fs.nspf);
      NoneFreed(fs.FreeNow());
      if bn != 0 {
        var oldspace := Blksize(fs.geo.frag, fs.fsize, osize, last);
        var newspace := Blksize(fs.geo.frag, fs.fsize, length, last);
        if newspace == 0 {
          assert false;    // the "itrunc: newspace" panic
        }
        PlacedHeld(f, bn, oldspace);
        IntervalSplit(bn, newspace, oldspace);
        ExtentIs(bn, newspace);
        part := Interval(bn + newspace, oldspace - newspace);
        if oldspace - newspace > 0 {
          Groups(fs);
          fs.Tail(bn, newspace, oldspace);
          fs.Release(bn + newspace, oldspace - newspace);
          released := Btodb(fs.nspf, oldspace - newspace);
        }
      }
    }

    /** The part of itrunc that gives back direct blocks, whole or in part. */
    method FreeRest(tdb: seq<nat>, osize: nat, length: nat, last: int, ghost f: File, ghost free: set<nat>)
      returns (released: nat, now: seq<nat>, ghost freed: set<nat>)
      requires fs.Valid() && f.Sound() && f.Shaped() && Disjoint(f.Frags(), free) && tdb == f.db && osize == f.size
        && -1 <= last < NDADDR
      requires f.s.frag == fs.geo.frag && f.s.limit == fs.size && f.fsize == fs.fsize
        && fs.FreeNow() == free + From(f.Pieces(), NDADDR)
      requires length < osize && last == LastBlockOf(f.Bsize(), length)
      modifies fs`cstotal, fs`disk, fs.csp
      ensures fs.Valid() && fs.FreeNow() == free + freed
      ensures freed == DirectsLost(f, length, last)
      ensures released + Btodb(fs.nspf, |From(f.Pieces(), NDADDR)|) == Btodb(fs.nspf, |freed|)
      ensures KeptUpTo(now, f.db, last)
    {
      hide *;
      Units(f);
      SoundParts(f);
      released, now := FreeDirects(tdb, osize, last, f, free);
      freed := From(f.Pieces(), last + 1);
      if last >= 0 {
        LastLength(f, length, last);
        ghost var part;
        var k;
        KeptOpen(now, f.db, last);
        k, part := FreeTail(now[last], osize, length, last, f, free);
        BtodbAdd(fs.nspf, |freed|, |part|);
        TailApart(f, free, last, part, Extent(f.db[last], Blksize(f.s.frag, f.fsize, length, last)));
        DirectsLostIs(f, length, last, freed, part);
        released, freed := released + k, freed + part;
      } else {
        DirectsLostIs(f, length, last, freed, {});
        NoneFreed(freed);
      }
    }

    /**
     itrunc from the call of syncip on: what the copy of the inode in `tdb` and `tib` still points to is given back.
     */
    method GiveBack(tdb: seq<nat>, tib: seq<nat>, osize: nat, length: nat, last: int, ends: seq<int>, ghost f: File)
      requires fs.Valid() && icg < fs.ncg && db != ib && f == File(fs.fsize, osize, tdb, tib, fs.Pointers())
        && f.Sound() && f.Shaped()
      requires Disjoint(f.Frags(), fs.FreeNow()) && blocks == Blocks(|f.Frags()|) && f.s.n == fs.nindir
        && length < osize
      requires Lasts(f.s.n, last, ends) && -1 <= last < MaxBlocks(f.s.n) && last == LastBlockOf(f.Bsize(), length)
      requires Blkoff(f.Bsize(), length) != 0 && last < NDADDR ==> 0 <= last && f.db[last] != 0
      requires PointersCut(f, last, db[..], ib[..])
      modifies this`blocks, fs`cstotal, fs`disk, fs`ptrs, fs.csp
      ensures ValidAt(length) && FileAt(length).Shaped() && fs.Valid()
      ensures CutOffAt(f, old(fs.FreeNow()), FileAt(length), fs.FreeNow(), last)
    {
      hide *;
      ghost var free := fs.FreeNow();
      Units(f);
      SoundParts(f);
      PointersAre(fs);
      PointersCutIs(f, last, db[..], ib[..]);
      var released, now, done;
      ghost var freed, where;
      released, now, done, freed, where := FreeTrees(tib, ends, f, free, last);
      var now' := tdb;
      if !done {
        var k;
        k, now', freed := FreeRest(tdb, osize, length, last, f, free);
        released := released + k;
      }
      KeptOne(now, ib[..], f.ib, CutAt(f.s.n, last) - NDADDR);
      KeptOne(now', db[..], f.db, last);
      if now != ib[..] {
        assert false;    // the "itrunc1" panic
      }
      if now' != db[..] {
        assert false;    // the "itrunc2" panic
      }
      Settled(f, free, length, last, done, freed, where);
      blocks := blocks - released;
      blocks := if blocks < 0 then 0 else blocks;
      FileIs(length);
      Closed(FileAt(length), length);
    }

    /** The file and the free space once everything is given back. */
    lemma Settled(f: File, free: set<nat>, length: nat, last: int, done: bool, freed: set<nat>, where: set<nat>)
      requires f.Sound() && f.Shaped() && Disjoint(f.Frags(), free) && length < f.size && fs.FreeNow() == free + freed
        && f.fsize == fs.fsize
      requires -1 <= last < MaxBlocks(f.s.n) && last == LastBlockOf(f.Bsize(), length) && (done <==> NDADDR <= last)
      requires PointersCut(f, last, db[..], ib[..]) && SameBut(f.s, fs.Pointers(), where)
      requires where == From(f.Pieces(), if done then CutAt(f.s.n, last) else NDADDR)
      requires Blkoff(f.Bsize(), length) != 0 && last < NDADDR ==> 0 <= last && f.db[last] != 0
      requires done ==>
        NDADDR <= CutAt(f.s.n, last) < NDADDR + NIADDR
        && TreeCut(f, fs.Pointers(), CutAt(f.s.n, last) - NDADDR, Offset(f.s.n, last), freed)
      requires !done ==> freed == DirectsLost(f, length, last)
      ensures FileAt(length).Shaped() && FileAt(length).Sound() && Disjoint(FileAt(length).Frags(), fs.FreeNow())
      ensures CutOffAt(f, free, FileAt(length), fs.FreeNow(), last)
      ensures Blocks(|f.Frags()|) - Btodb(fs.nspf, |freed|) == Blocks(|FileAt(length).Frags()|) >= 0
    {
      hide *;
      FileIs(length);
      var g := FileAt(length);
      PointersCutIs(f, last, db[..], ib[..]);
      ShapedSame(f, g, where);
      Units(f);
      Units(g);
      if 0 <= last < NDADDR {
        KeptOpen(g.db, f.db, last);
      }
      if !done {
        DirectsLostFrom(f, g, last, freed);
      }
      CutEnds(f, free, g, fs.FreeNow(), last, done, freed);
      StepSound(f, free, g, fs.FreeNow());
      BlocksAdd(|g.Frags()|, |freed|);
      BlocksPositive(|g.Frags()|);
    }

    /**
     The loops of itrunc that clear the pointers of the inode past the cut; `ends` is lastiblock, -1 for what goes
     altogether.
     */
    method ClearPointers(last: int, raw: seq<int>, ghost f: File) returns (ends: seq<int>)
      requires f.Shaped() && db != ib && db[..] == f.db && ib[..] == f.ib && -1 <= last < MaxBlocks(f.s.n) && |raw| == 3
      requires Lasts(f.s.n, last, [if raw[0] < 0 then -1 else raw[0], if raw[1] < 0 then -1 else raw[1], if raw[2] < 0
        then -1 else raw[2]])
      modifies db, ib
      ensures PointersCut(f, last, db[..], ib[..]) && Lasts(f.s.n, last, ends)
    {
      hide MaxBlocks, CutAt, Offset;
      Units(f);
      ends := raw;
      var level := NIADDR - 1;
      while level >= 0
        invariant -1 <= level < NIADDR && |ends| == NIADDR
        invariant forall l :: 0 <= l < NIADDR ==> ends[l] == if level < l && raw[l] < 0 then -1 else raw[l]
        invariant forall l :: 0 <= l < NIADDR ==> ib[l] == if level < l && raw[l] < 0 then 0 else f.ib[l]
        invariant db[..] == f.db
      {
        if ends[level] < 0 {
          ib[level] := 0;
          ends := ends[level := -1];
        }
        level := level - 1;
      }
      assert ends == [if raw[0] < 0 then -1 else raw[0], if raw[1] < 0 then -1 else raw[1], if raw[2] < 0 then -1
        else raw[2]];
      ghost var cut := ib[..];
      var i := NDADDR - 1;
      while i > last
        invariant i < NDADDR && (last < NDADDR ==> last <= i) && (NDADDR <= last ==> i == NDADDR - 1) && ib[..] == cut
        invariant forall j :: 0 <= j < NDADDR ==> db[j] == if i < j then 0 else f.db[j]
      {
        db[i] := 0;
        i := i - 1;
      }
    }

    /**
     itrunc: cut the file to `length` bytes, if it is longer. First a hole at the new end is filled; `before` and
     `mid` are file and free space then. It gives up, having changed nothing the file maps, only when there is no
     space for that.
     */
    method Itrunc(length: nat, uid: nat) returns (done: bool, ghost before: File, ghost mid: set<nat>)
      requires Valid() && FileAt(size).Shaped()
      modifies this`size, this`blocks, db, ib, fs`cstotal, fs`disk, fs`optim, fs`ptrs, fs.csp
      ensures Valid() && FileAt(size).Shaped()
      ensures old(size) <= length ==> done && FileAt(size) == old(FileAt(size)) && fs.FreeNow() == old(fs.FreeNow())
      ensures !done ==> size == old(size) && Maps(old(FileAt(size)), old(fs.FreeNow()), FileAt(size), fs.FreeNow(), 0,
        -1)
      ensures !done ==> fs.Valid() && fs.Exhausted(uid)
      ensures length < old(size) && done ==>
        size == length && HoleFilled(old(FileAt(size)), old(fs.FreeNow()), before, mid, length)
      ensures length < old(size) && done ==> KeepsBelow(old(FileAt(size)), FileAt(size), length)
      ensures length < old(size) && done ==>
        0 < before.Bsize() && CutOffAt(before, mid, FileAt(size), fs.FreeNow(), LastBlockOf(before.Bsize(), length))
    {
      hide *;
      ValidIs();
      Opened(size);
      before, mid := FileAt(size), fs.FreeNow();
      ghost var f, free := before, mid;
      Units(f);
      if size <= length {
        return true, before, mid;
      }
      var bsize := fs.geo.frag * fs.fsize;
      LastBlockEnds(bsize, length);
      CutPoint(f, length);
      HoleFilledSame(f, mid, length);
      var last := Lblkno(bsize, length + bsize - 1) - 1;
      LastBlockIs(bsize, length);
      var single := last - NDADDR;
      var double := single - fs.nindir;
      var triple := double - fs.nindir * fs.nindir;
      LastsMade(fs.nindir, last);
      var osize := size;
      var offset := Blkoff(bsize, length);
      if offset != 0 {
        var lbn := Lblkno(bsize, length);
        var bn := Bmap(lbn, true, offset, uid);
        FileIs(size);
        FileIs(osize);
        ghost var g := FileAt(osize);
        HoleFilledIs(f, mid, g, fs.FreeNow(), length, lbn, bn);
        if bn <= 0 {
          ValidIs();
          Opened(size);
          return false, before, mid;
        }
        WrittenIs(f, mid, g, fs.FreeNow(), lbn, bn);
        before, mid := g, fs.FreeNow();
      }
      Opened(osize);
      FileIs(osize);
      Units(before);
      size := length;
      var tdb, tib := db[..], ib[..];
      var ends := ClearPointers(last, [single, double, triple], before);
      GiveBack(tdb, tib, osize, length, last, ends, before);
      FileIs(length);
      CutKeepsBelow(f, free, before, mid, FileAt(length), fs.FreeNow(), length);
      ValidIs();
      done := true;
    }

  }

  /** Storing the address of a block just cleared in another one. */
  lemma Stored(s: Store, m: Store, t: Store, cur: nat, i: nat, nb: nat)
    requires SameBut(s, m, {nb}) && Blank(m, nb) && cur != nb && i < s.n
    requires t == m.(ptrs := m.ptrs[cur := s.Entries(cur)[i := nb]])
    ensures SameBut(s, t, {cur, nb}) && t.Entries(cur) == s.Entries(cur)[i := nb] && Blank(t, nb)
  {
    assert t.Entries(nb) == m.Entries(nb);
  }

  lemma SameButNone(s: Store, a: set<nat>)
    ensures SameBut(s, s, a)
  {
  }

  lemma SpanDown(n: nat, lv: nat)
    requires 0 < n
    ensures Span(n, lv + 1) / n == Span(n, lv) > 0
  {
    DivModUnique(Span(n, lv + 1), n, Span(n, lv), 0);
  }

  lemma SameButBoth(s: Store, m: Store, t: Store, a: set<nat>, b: set<nat>)
    requires SameBut(s, m, a) && SameBut(m, t, b)
    ensures SameBut(s, t, b + a)
  {
  }

  lemma LastBlockIs(bsize: nat, length: nat)
    requires 0 < bsize
    ensures LastBlockOf(bsize, length) == Lblkno(bsize, length + bsize - 1) - 1
  {
  }

  lemma NoneFreed(free: set<nat>)
    ensures free + {} == free
  {
  }

  lemma Groups(fs: Fs)
    requires fs.Valid()
    ensures fs.Groups()
  {
    hide CgData.Good, Fs.Summed, Fs.Reserved;
  }

  lemma ExtentIs(nb: nat, n: nat)
    requires nb != 0
    ensures Extent(nb, n) == Interval(nb, n) && Extent(0, n) == {}
  {
  }

}
