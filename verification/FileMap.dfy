/**
 The block map of one file: twelve direct blocks, the last of which may be a fragment, and three trees.
 */
module FileMap {
  import opened FragMap
  import opened BlockTree

  const NDADDR: nat := 12
  const NIADDR: nat := 3

  /** blkoff, lblkno. */
  function Blkoff(bsize: nat, x: nat): nat
    requires 0 < bsize
  {
    x % bsize
  }

  function Lblkno(bsize: nat, x: nat): nat
    requires 0 < bsize
  {
    x / bsize
  }

  /** fragroundup, in fragments. */
  function Fragroundup(fsize: nat, x: nat): nat
    requires 0 < fsize
  {
    (x + fsize - 1) / fsize
  }

  /** The first byte of a block. */
  function Start(bsize: nat, bn: nat): nat {
    bn * bsize
  }

  /** blksize, in fragments, for a file of `size` bytes. */
  function Blksize(frag: nat, fsize: nat, size: nat, lbn: nat): nat
    requires 0 < frag * fsize
  {
    if lbn >= NDADDR || size >= Start(frag * fsize, lbn + 1) then frag
      else Fragroundup(fsize, Blkoff(frag * fsize, size))
  }

  lemma StartStep(bsize: nat, bn: nat)
    ensures Start(bsize, bn + 1) == Start(bsize, bn) + bsize
  {
  }

  lemma StartOrder(bsize: nat, a: nat, b: nat)
    ensures a < b ==> Start(bsize, a) + bsize <= Start(bsize, b)
    ensures a <= b ==> Start(bsize, a) <= Start(bsize, b)
  {
    if a < b {
      MulStep(a, b, bsize);
    }
  }

  /** A byte offset lies in block `i` exactly when lblkno says so. */
  lemma InBlock(bsize: nat, x: nat, i: nat)
    requires 0 < bsize
    ensures Start(bsize, i) <= x < Start(bsize, i + 1) <==> Lblkno(bsize, x) == i
    ensures x == Start(bsize, Lblkno(bsize, x)) + Blkoff(bsize, x) && Blkoff(bsize, x) < bsize
  {
    DivMod(x, bsize);
    if Start(bsize, i) <= x < Start(bsize, i + 1) {
      StartStep(bsize, i);
      DivModUnique(x, bsize, i, x - i * bsize);
    }
    StartStep(bsize, Lblkno(bsize, x));
  }

  lemma RoundupBounds(frag: nat, fsize: nat, x: nat)
    requires 0 < fsize && 0 < frag
    ensures x <= frag * fsize ==> Fragroundup(fsize, x) <= frag
    ensures 0 < x ==> 1 <= Fragroundup(fsize, x)
    ensures x == frag * fsize ==> Fragroundup(fsize, x) == frag
  {
    DivMod(x + fsize - 1, fsize);
    var q := Fragroundup(fsize, x);
    if frag < q {
      MulStep(frag, q, fsize);
    }
    if q < frag {
      MulStep(q, frag, fsize);
    }
  }

  lemma RoundupOrder(fsize: nat, x: nat, y: nat)
    requires 0 < fsize && x <= y
    ensures Fragroundup(fsize, x) <= Fragroundup(fsize, y)
  {
    DivMod(x + fsize - 1, fsize);
    DivMod(y + fsize - 1, fsize);
    var p, q := Fragroundup(fsize, x), Fragroundup(fsize, y);
    if q < p {
      MulStep(q, p, fsize);
    }
  }

  /** Blocks that can be addressed. */
  function MaxBlocks(n: nat): nat
    requires 0 < n
  {
    NDADDR + Span(n, 1) + Span(n, 2) + Span(n, 3)
  }

  /** The pointer of the inode a block is found under: 0 to 11 the direct ones, 12 to 14 the indirect ones. */
  function Slot(n: nat, bn: nat): (k: nat)
    requires 0 < n && bn < MaxBlocks(n)
    ensures k < NDADDR + NIADDR && (bn >= NDADDR ==> k >= NDADDR)
  {
    if bn < NDADDR then bn
    else if bn - NDADDR < Span(n, 1) then NDADDR
    else if bn - NDADDR - Span(n, 1) < Span(n, 2) then NDADDR + 1
    else NDADDR + 2
  }

  /** The place of a block in the tree it is found under. */
  function Offset(n: nat, bn: nat): (x: nat)
    requires 0 < n && NDADDR <= bn < MaxBlocks(n)
    ensures x < Span(n, Slot(n, bn) - NDADDR + 1)
  {
    if bn - NDADDR < Span(n, 1) then bn - NDADDR
    else if bn - NDADDR - Span(n, 1) < Span(n, 2) then bn - NDADDR - Span(n, 1)
    else bn - NDADDR - Span(n, 1) - Span(n, 2)
  }

  /** `n` fragments of one block. */
  ghost function Extent(nb: nat, n: nat): set<nat> {
    if nb == 0 then {} else Interval(nb, n)
  }

  datatype File = File(fsize: nat, size: nat, db: seq<nat>, ib: seq<nat>, s: Store) {

    ghost predicate Shaped() {
      s.Valid() && 0 < fsize && 0 < s.frag * fsize && |db| == NDADDR && |ib| == NIADDR
    }

    function Bsize(): nat {
      s.frag * fsize
    }

    function Length(lbn: nat): nat
      requires 0 < s.frag * fsize
    {
      Blksize(s.frag, fsize, size, lbn)
    }

    /** The fragments under each pointer of the inode. */
    ghost function Pieces(): (ps: seq<set<nat>>)
      requires Shaped()
      ensures |ps| == NDADDR + NIADDR
      ensures forall k :: 0 <= k < NDADDR ==> ps[k] == Extent(db[k], Length(k))
      ensures forall l :: 0 <= l < NIADDR ==> ps[NDADDR + l] == s.Frags(ib[l], l + 1)
    {
      seq(NDADDR + NIADDR, k requires 0 <= k < NDADDR + NIADDR => if k < NDADDR then Extent(db[k], Length(k))
        else s.Frags(ib[k - NDADDR], k - NDADDR + 1))
    }

    /** Every fragment of the file, indirect blocks included. */
    ghost function Frags(): set<nat>
      requires Shaped()
    {
      Union(Pieces())
    }

    /** The address of block `bn` of the file; 0 for a hole. */
    ghost function Lookup(bn: nat): nat
      requires Shaped() && bn < MaxBlocks(s.n)
    {
      if bn < NDADDR then db[bn]
      else s.Lookup(ib[Slot(s.n, bn) - NDADDR], Slot(s.n, bn) - NDADDR + 1, Offset(s.n, bn))
    }

    /** `n` fragments at `nb` lie within one block of the disk. */
    ghost predicate Placed(nb: nat, n: nat)
      requires Shaped()
    {
      1 <= n <= s.frag && nb % s.frag + n <= s.frag && nb + n <= s.limit
    }

    ghost predicate Directs()
      requires Shaped()
    {
      forall i :: 0 <= i < NDADDR && db[i] != 0 ==> Placed(db[i], Length(i))
    }

    ghost predicate Trees()
      requires Shaped()
    {
      forall l :: 0 <= l < NIADDR ==> s.Sound(ib[l], l + 1)
    }

    /** Nothing is mapped past the end of the file, and a direct block that is a fragment is not a hole. */
    ghost predicate Ended()
      requires Shaped()
    {
      && size <= Start(Bsize(), MaxBlocks(s.n))
      && (forall bn: nat :: bn < MaxBlocks(s.n) && size <= Start(Bsize(), bn) ==> Lookup(bn) == 0)
      && (Blkoff(Bsize(), size) != 0 && Lblkno(Bsize(), size) < NDADDR ==> db[Lblkno(Bsize(), size)] != 0)
    }

    /**
     Every block is where it may be, no two logical or indirect blocks share a fragment, and the file ends where it
     says.
     */
    ghost predicate Sound() {
      Shaped() && Directs() && Trees() && Apart(Pieces()) && Ended()
    }
  }

  /** A piece is exchanged for another one; what is given up becomes free, what is taken was free. */
  lemma Exchanged(ps: seq<set<nat>>, now: seq<set<nat>>, k: nat, p: set<nat>, free: set<nat>, left: set<nat>)
    requires k < |ps| && Apart(ps) && Union(ps) !! free && p <= free + ps[k]
    requires now == ps[k := p] && left == (free + ps[k]) - p
    ensures Apart(now) && Union(now) !! left && Union(now) + left == Union(ps) + free
    ensures |Union(now)| == |Union(ps)| - |ps[k]| + |p|
  {
    hide Union, Apart;
    PieceInUnion(ps);
    UnionUpdate(ps, k, p);
    ExchangedSets(Union(ps), ps[k], p, free, left, Union(now));
  }

  lemma ExchangedSets(all: set<nat>, one: set<nat>, p: set<nat>, free: set<nat>, left: set<nat>, now: set<nat>)
    requires one <= all && all !! free && p <= free + one && left == (free + one) - p && now == (all - one) + p
    ensures now !! left && now + left == all + free && |now| == |all| - |one| + |p|
  {
    assert all == (all - one) + one;
    assert (all - one) !! p;
  }

  // ---------------------------------------------------------------------------------------------------
  // Growing a file
  // ---------------------------------------------------------------------------------------------------

  /** A mapped direct block starts before the end of the file; all but the last are whole. */
  lemma Mapped(f: File, i: nat)
    requires f.Sound() && i < NDADDR && f.db[i] != 0
    ensures Start(f.Bsize(), i) < f.size && i < MaxBlocks(f.s.n)
    ensures f.size < Start(f.Bsize(), i + 1) ==> i == Lblkno(f.Bsize(), f.size) && 0 < Blkoff(f.Bsize(), f.size)
    ensures f.size >= Start(f.Bsize(), i + 1) ==> f.Length(i) == f.s.frag
  {
    hide File.Directs, File.Trees, File.Pieces, Apart, Span;
    assert f.Lookup(i) == f.db[i];
    InBlock(f.Bsize(), f.size, i);
  }

  /** The file `f` with direct pointer `k` set to `nb`, and grown to `size`. */
  function WithDirect(f: File, k: nat, nb: nat, size: nat): File
    requires k < |f.db|
  {
    f.(db := f.db[k := nb], size := size)
  }

  ghost predicate FitsDirect(f: File, k: nat, nb: nat, size: nat)
    requires f.Shaped() && k < NDADDR
  {
    var g := WithDirect(f, k, nb, size);
    && f.size <= size <= Start(f.Bsize(), MaxBlocks(f.s.n)) && Start(f.Bsize(), k) < size && nb != 0
        && g.Placed(nb, g.Length(k))
    && (forall i :: 0 <= i < NDADDR && i != k && f.db[i] != 0 ==> g.Length(i) == f.Length(i))
    && (Blkoff(f.Bsize(), size) != 0 && Lblkno(f.Bsize(), size) < NDADDR ==> g.db[Lblkno(f.Bsize(), size)] != 0)
  }

  lemma SetDirect(f: File, k: nat, nb: nat, size: nat)
    requires f.Sound() && k < NDADDR && FitsDirect(f, k, nb, size)
    ensures var g := WithDirect(f, k, nb, size);
            && g.Shaped() && g.Directs() && g.Trees() && g.Ended()
            && g.Pieces() == f.Pieces()[k := Interval(nb, g.Length(k))]
            && (forall bn: nat :: bn < MaxBlocks(f.s.n) ==> g.Lookup(bn) == if bn == k then nb else f.Lookup(bn))
  {
    hide Span, Start, Lblkno, Blkoff, Blksize, Interval, Apart, Store.Lookup, Store.Sound, Store.Frags, Slot, Offset;
    var g := WithDirect(f, k, nb, size);
    forall bn: nat | bn < MaxBlocks(f.s.n)
      ensures g.Lookup(bn) == if bn == k then nb else f.Lookup(bn)
      ensures size <= Start(f.Bsize(), bn) ==> bn != k
    {
    }
  }

  /** The file `f` with the tree under indirect pointer `l` exchanged, and grown to `size`. */
  function WithTree(f: File, l: nat, root: nat, t: Store, size: nat): File
    requires l < |f.ib|
  {
    f.(s := t, ib := f.ib[l := root], size := size)
  }

  /** The file may be taken to have `size` bytes, as far as its direct blocks go. */
  ghost predicate SizeFits(f: File, size: nat)
    requires f.Shaped()
  {
    && f.size <= size <= Start(f.Bsize(), MaxBlocks(f.s.n))
    && (forall i :: 0 <= i < NDADDR && f.db[i] != 0 ==> f.(size := size).Length(i) == f.Length(i))
    && (Blkoff(f.Bsize(), size) != 0 && Lblkno(f.Bsize(), size) < NDADDR ==> f.db[Lblkno(f.Bsize(), size)] != 0)
  }

  /** Data block `x` of the tree now at `root` is at `nb`, if `leaf`; all others are where they were under `was`. */
  ghost predicate SameLookups(s: Store, t: Store, was: nat, root: nat, lv: nat, x: nat, leaf: bool, nb: nat)
    requires s.Valid() && t.Valid() && s.n == t.n
  {
    forall y: nat :: y < Span(s.n, lv) ==> t.Lookup(root, lv, y) == if leaf && y == x then nb else s.Lookup(was, lv, y)
  }

  /** In the tree now at `root`, block `bn` of the file is at `nb` if `leaf`, and all else is as it was. */
  ghost predicate FitsTree(f: File, l: nat, root: nat, t: Store, size: nat, where: set<nat>, bn: nat, leaf: bool,
        nb: nat)
    requires f.Shaped() && l < NIADDR
  {
    && SameBut(f.s, t, where) && t.Sound(root, l + 1)
    && (forall k :: 0 <= k < NIADDR && k != l ==> where !! f.s.Frags(f.ib[k], k + 1))
    && SizeFits(f, size) && (leaf ==> Start(f.Bsize(), bn) < size)
    && NDADDR <= bn < MaxBlocks(f.s.n) && Slot(f.s.n, bn) == NDADDR + l
    && SameLookups(f.s, t, f.ib[l], root, l + 1, Offset(f.s.n, bn), leaf, nb)
  }

  lemma OffsetUnique(n: nat, a: nat, b: nat)
    requires 0 < n && NDADDR <= a < MaxBlocks(n) && NDADDR <= b < MaxBlocks(n) && Slot(n, a) == Slot(n, b)
      && Offset(n, a) == Offset(n, b)
    ensures a == b
  {
    hide Span;
  }

  lemma SetTree(f: File, l: nat, root: nat, t: Store, size: nat, where: set<nat>, bn: nat, leaf: bool, nb: nat)
    requires f.Sound() && l < NIADDR && FitsTree(f, l, root, t, size, where, bn, leaf, nb)
    ensures var g := WithTree(f, l, root, t, size);
            && g.Shaped() && g.Directs() && g.Trees() && g.Ended()
            && g.Pieces() == f.Pieces()[NDADDR + l := t.Frags(root, l + 1)]
            && (forall x: nat :: x < MaxBlocks(f.s.n) ==> g.Lookup(x) == if leaf && x == bn then nb else f.Lookup(x))
  {
    hide Span, Start, Lblkno, Blkoff, Blksize, Interval, Apart, Store.Lookup, Store.Sound, Store.Frags, Store.Entries,
      Slot, Offset;
    var g := WithTree(f, l, root, t, size);
    forall k | 0 <= k < NIADDR && k != l
      ensures t.Sound(f.ib[k], k + 1) && t.Frags(f.ib[k], k + 1) == f.s.Frags(f.ib[k], k + 1)
    {
      Unchanged(f.s, t, f.ib[k], k + 1, where);
    }
    forall x: nat | x < MaxBlocks(f.s.n)
      ensures g.Lookup(x) == if leaf && x == bn then nb else f.Lookup(x)
    {
      TreeLookup(f, l, root, t, size, where, bn, leaf, nb, x);
    }
  }

  lemma TreeLookup(f: File, l: nat, root: nat, t: Store, size: nat, where: set<nat>, bn: nat, leaf: bool, nb: nat,
        x: nat)
    requires f.Sound() && l < NIADDR && FitsTree(f, l, root, t, size, where, bn, leaf, nb) && x < MaxBlocks(f.s.n)
    ensures WithTree(f, l, root, t, size).Lookup(x) == if leaf && x == bn then nb else f.Lookup(x)
  {
    hide Span, Start, Lblkno, Blkoff, Blksize, Interval, Apart, Store.Sound, Store.Frags, Store.Entries, Slot, Offset;
    if NDADDR <= x {
      var k, y := Slot(f.s.n, x) - NDADDR, Offset(f.s.n, x);
      if k != l {
        UnchangedAt(f.s, t, f.ib[k], k + 1, where, y, k + 1);
      } else if y == Offset(f.s.n, bn) {
        OffsetUnique(f.s.n, x, bn);
      }
    }
  }

  /**
   From one state of file and free space to another: the file stays sound, and fragments only change hands between the
   two.
   */
  ghost predicate Step(f: File, free: set<nat>, g: File, left: set<nat>) {
    f.Shaped() && g.Sound() && Disjoint(g.Frags(), left) && g.Frags() + left == f.Frags() + free
  }

  lemma DirectsAreBlocks(n: nat)
    requires 0 < n
    ensures NDADDR < MaxBlocks(n)
  {
    hide Span;
  }

  lemma StepSound(f: File, free: set<nat>, g: File, left: set<nat>)
    requires Step(f, free, g, left)
    ensures g.Sound() && g.Shaped() && Disjoint(g.Frags(), left) && g.Frags() + left == f.Frags() + free
  {
    hide File.Directs, File.Trees, File.Pieces, File.Ended, Apart;
  }

  lemma DirectIs(f: File, k: nat, nb: nat, size: nat)
    requires k < |f.db|
    ensures WithDirect(f, k, nb, size) == File(f.fsize, size, f.db[k := nb], f.ib, f.s)
  {
  }

  /** Block `x` is the fragment at the end of the file. */
  ghost predicate Fragment(f: File, x: nat)
    requires f.Shaped()
  {
    x < NDADDR && x == Lblkno(f.Bsize(), f.size) && f.db[x] != 0 && f.Length(x) < f.s.frag
  }

  /**
   Every block but `bn` is where it was; only the fragment at the end of the file, when it lies before `bn`, may have
   moved.
   */
  ghost predicate Kept(f: File, g: File, bn: int)
    requires f.Shaped() && g.Shaped() && f.s.n == g.s.n
  {
    forall x: nat :: x < MaxBlocks(f.s.n) && x != bn ==>
      g.Lookup(x) == f.Lookup(x) || (Fragment(f, x) && x < bn && g.Lookup(x) != 0)
  }

  lemma StepSame(f: File, free: set<nat>)
    requires f.Sound() && Disjoint(f.Frags(), free)
    ensures Step(f, free, f, free) && forall bn: nat :: Kept(f, f, bn)
  {
    hide File.Directs, File.Trees, File.Pieces, File.Ended, Apart, File.Frags;
  }

  /** Taking a place that was free, or free but for the piece it takes over from. */
  lemma TakesOver(f: File, free: set<nat>, k: nat, nb: nat, size: nat, left: set<nat>)
    requires f.Sound() && Disjoint(f.Frags(), free) && k < NDADDR && FitsDirect(f, k, nb, size)
    requires f.db[k] != 0 ==> var p, was := Interval(nb, WithDirect(f, k, nb, size).Length(k)),
      Interval(f.db[k], f.Length(k));
                p <= free + was && left == (free + was) - p
    requires f.db[k] == 0 ==> var p := Interval(nb, WithDirect(f, k, nb, size).Length(k)); p <= free && left == free - p
    ensures Exchangeable(f, free, k, nb, size, left)
    ensures CountAfter(f, k, nb, size) == |f.Frags()| + WithDirect(f, k, nb, size).Length(k) - if f.db[k] != 0
      then f.Length(k) else 0
  {
    hide File.Directs, File.Trees, File.Ended, Apart, Union, FitsDirect, WithDirect, Blksize, Interval;
    assert f.db[k] == 0 ==> f.Pieces()[k] == {};
    assert f.db[k] == 0 ==> free + {} == free;
  }

  /** Direct pointer `k` may become `nb`, at the cost of going from free set `free` to `left`. */
  ghost predicate Exchangeable(f: File, free: set<nat>, k: nat, nb: nat, size: nat, left: set<nat>) {
    && f.Sound() && Disjoint(f.Frags(), free) && k < NDADDR && FitsDirect(f, k, nb, size)
    && (var p := Interval(nb, WithDirect(f, k, nb, size).Length(k));
        p <= free + f.Pieces()[k] && left == (free + f.Pieces()[k]) - p)
  }

  /** The fragments of the file after that. */
  ghost function CountAfter(f: File, k: nat, nb: nat, size: nat): int
    requires f.Shaped() && k < NDADDR
  {
    |f.Frags()| - |f.Pieces()[k]| + WithDirect(f, k, nb, size).Length(k)
  }

  lemma ExchangeDirect(f: File, free: set<nat>, k: nat, nb: nat, size: nat, left: set<nat>)
    requires Exchangeable(f, free, k, nb, size, left)
    ensures f.Shaped() && k < NDADDR
    ensures var g := WithDirect(f, k, nb, size);
            && Step(f, free, g, left) && |g.Frags()| == CountAfter(f, k, nb, size)
            && (forall bn: nat :: bn < MaxBlocks(f.s.n) ==> g.Lookup(bn) == if bn == k then nb else f.Lookup(bn))
  {
    hide Span, Start, Lblkno, Blkoff, Blksize, Apart, Union, FitsDirect, WithDirect, File.Directs, File.Trees,
      File.Ended, File.Lookup, MaxBlocks, Slot, Offset;
    SetDirect(f, k, nb, size);
    Exchanged(f.Pieces(), WithDirect(f, k, nb, size).Pieces(), k, Interval(nb, WithDirect(f, k, nb, size).Length(k)),
      free, left);
  }

  lemma ExchangeTree(f: File, free: set<nat>, l: nat, root: nat, t: Store, size: nat, where: set<nat>, bn: nat,
        leaf: bool, nb: nat, left: set<nat>)
    requires f.Sound() && Disjoint(f.Frags(), free) && l < NIADDR && FitsTree(f, l, root, t, size, where, bn, leaf, nb)
    requires var was, p := f.s.Frags(f.ib[l], l + 1), t.Frags(root, l + 1); p <= free + was && left == (free + was) - p
    ensures var g := WithTree(f, l, root, t, size);
            && Step(f, free, g, left) && |g.Frags()| == |f.Frags()| - |f.s.Frags(f.ib[l], l + 1)| +
                |t.Frags(root, l + 1)|
            && (forall x: nat :: x < MaxBlocks(f.s.n) ==> g.Lookup(x) == if leaf && x == bn then nb else f.Lookup(x))
  {
    hide Span, Start, Lblkno, Blkoff, Blksize, Apart, Union, FitsTree, WithTree, File.Directs, File.Trees, File.Ended,
      File.Lookup, MaxBlocks, Slot, Offset, Store.Frags;
    SetTree(f, l, root, t, size, where, bn, leaf, nb);
    Exchanged(f.Pieces(), WithTree(f, l, root, t, size).Pieces(), NDADDR + l, t.Frags(root, l + 1), free, left);
  }

  /** The size of the file once `sz` bytes of block `bn` are written. */
  function NewSize(f: File, bn: nat, sz: nat): nat {
    if f.size < Start(f.Bsize(), bn) + sz then Start(f.Bsize(), bn) + sz else f.size
  }

  /** The direct blocks before `bn` are whole, or holes. */
  ghost predicate WholeBefore(f: File, bn: nat)
    requires f.Shaped()
  {
    forall i :: 0 <= i < NDADDR && i < bn && f.db[i] != 0 ==> f.Length(i) == f.s.frag
  }

  /** How long direct block `bn` must be for `sz` bytes of it to be written. */
  function Wanted(f: File, bn: nat, sz: nat): nat
    requires 0 < f.s.frag * f.fsize && bn < |f.db| && 0 < f.fsize
  {
    var o, n := Fragroundup(f.fsize, Blkoff(f.Bsize(), f.size)), Fragroundup(f.fsize, sz);
    if f.size >= Start(f.Bsize(), bn + 1) then f.s.frag
    else if f.db[bn] != 0 && n <= o then o else n
  }

  lemma NewSizeFits(f: File, bn: nat, sz: nat)
    requires f.Sound() && bn < MaxBlocks(f.s.n) && 1 <= sz <= f.Bsize()
    ensures f.size <= NewSize(f, bn, sz) <= Start(f.Bsize(), MaxBlocks(f.s.n))
      && Start(f.Bsize(), bn) < NewSize(f, bn, sz)
    ensures f.size < NewSize(f, bn, sz) ==> NewSize(f, bn, sz) == Start(f.Bsize(), bn) + sz <= Start(f.Bsize(), bn + 1)
  {
    hide File.Directs, File.Trees, File.Pieces, Apart, Span, MaxBlocks, File.Lookup, Start, Lblkno, Blkoff;
    StartStep(f.Bsize(), bn);
    StartOrder(f.Bsize(), bn, MaxBlocks(f.s.n));
  }

  /** A file that ends `off` bytes into direct block `bn`. */
  lemma LengthAt(frag: nat, fsize: nat, bn: nat, off: nat)
    requires 0 < frag * fsize && 0 < fsize && bn < NDADDR && 1 <= off <= frag * fsize
    ensures Blksize(frag, fsize, Start(frag * fsize, bn) + off, bn) == Fragroundup(fsize, off)
    ensures 1 <= Fragroundup(fsize, off) <= frag
    ensures if off < frag * fsize
      then Lblkno(frag * fsize, Start(frag * fsize, bn) + off) == bn
      && Blkoff(frag * fsize, Start(frag * fsize, bn) + off) == off
            else Blkoff(frag * fsize, Start(frag * fsize, bn) + off) == 0
  {
    hide Start, Lblkno, Blkoff, Fragroundup;
    var b := frag * fsize;
    StartStep(b, bn);
    RoundupBounds(frag, fsize, off);
    InBlock(b, Start(b, bn) + off, if off < b then bn else bn + 1);
    StartStep(b, bn + 1);
  }

  /** A direct block that ends the file, or has nothing mapped. */
  lemma LastBlock(f: File, bn: nat)
    requires f.Sound() && bn < NDADDR && f.size < Start(f.Bsize(), bn + 1)
    ensures f.db[bn] != 0 ==>
      f.size == Start(f.Bsize(), bn) + Blkoff(f.Bsize(), f.size) && 1 <= Blkoff(f.Bsize(), f.size) < f.Bsize()
    ensures f.db[bn] != 0 ==> f.Length(bn) == Fragroundup(f.fsize, Blkoff(f.Bsize(), f.size))
    ensures f.db[bn] == 0 ==> f.size <= Start(f.Bsize(), bn)
  {
    hide File.Directs, File.Trees, File.Pieces, Apart, Span, MaxBlocks, File.Lookup, Start, Lblkno, Blkoff, Fragroundup;
    InBlock(f.Bsize(), f.size, bn);
    if f.db[bn] != 0 {
      Mapped(f, bn);
    }
  }

  lemma WantedLength(f: File, bn: nat, sz: nat)
    requires f.Sound() && bn < NDADDR && bn < MaxBlocks(f.s.n) && 1 <= sz <= f.Bsize()
    ensures f.(size := NewSize(f, bn, sz)).Length(bn) == Wanted(f, bn, sz) && 1 <= Wanted(f, bn, sz) <= f.s.frag
  {
    hide File.Directs, File.Trees, File.Pieces, File.Ended, Apart, Span, MaxBlocks, Start, Lblkno, Blkoff, Fragroundup;
    var b, off := f.Bsize(), Blkoff(f.Bsize(), f.size);
    NewSizeFits(f, bn, sz);
    RoundupBounds(f.s.frag, f.fsize, sz);
    LengthAt(f.s.frag, f.fsize, bn, sz);
    if f.size < Start(b, bn + 1) {
      LastBlock(f, bn);
      if f.db[bn] != 0 {
        LengthAt(f.s.frag, f.fsize, bn, off);
        RoundupOrder(f.fsize, if off < sz then off else sz, if off < sz then sz else off);
      }
    }
  }

  /** Writing to block `bn` changes the length of no other direct block, and the file then ends in a mapped one. */
  lemma OthersKept(f: File, bn: nat, sz: nat)
    requires f.Sound() && bn < MaxBlocks(f.s.n) && 1 <= sz <= f.Bsize() && WholeBefore(f, bn)
    ensures forall i :: 0 <= i < NDADDR && i != bn && f.db[i] != 0 ==>
      f.(size := NewSize(f, bn, sz)).Length(i) == f.Length(i)
    ensures Blkoff(f.Bsize(), NewSize(f, bn, sz)) != 0 && Lblkno(f.Bsize(), NewSize(f, bn, sz)) < NDADDR ==>
              Lblkno(f.Bsize(), NewSize(f, bn, sz)) == bn || f.db[Lblkno(f.Bsize(), NewSize(f, bn, sz))] != 0
  {
    hide File.Directs, File.Trees, File.Pieces, Apart, Span, MaxBlocks, File.Lookup, Start, Lblkno, Blkoff, Fragroundup,
      NewSize;
    var b, now := f.Bsize(), NewSize(f, bn, sz);
    NewSizeFits(f, bn, sz);
    forall i | 0 <= i < NDADDR && i != bn && f.db[i] != 0
      ensures f.(size := now).Length(i) == f.Length(i)
    {
      Mapped(f, i);
      StartOrder(b, i + 1, bn);
      StartOrder(b, bn + 1, i);
    }
    if f.size < now {
      InBlock(b, now, bn);
      StartStep(b, bn);
      StartStep(b, bn + 1);
      InBlock(b, now, bn + 1);
    }
  }

  /** Direct block `bn` written to: `nb` may be it if it is as long as it has to be. */
  lemma WantedFits(f: File, bn: nat, sz: nat, nb: nat)
    requires f.Sound() && bn < NDADDR && bn < MaxBlocks(f.s.n) && 1 <= sz <= f.Bsize() && WholeBefore(f, bn)
    requires nb != 0 && f.Placed(nb, Wanted(f, bn, sz))
    ensures FitsDirect(f, bn, nb, NewSize(f, bn, sz))
      && WithDirect(f, bn, nb, NewSize(f, bn, sz)).Length(bn) == Wanted(f, bn, sz)
  {
    hide File.Directs, File.Trees, File.Pieces, File.Ended, Apart, Span, MaxBlocks, Start, Lblkno, Blkoff, Fragroundup,
      NewSize, Wanted;
    NewSizeFits(f, bn, sz);
    WantedLength(f, bn, sz);
    OthersKept(f, bn, sz);
  }

  /** The fragment at the end of a file, made a whole block. */
  lemma FillFits(f: File, k: nat, nb: nat)
    requires f.Sound() && k == Lblkno(f.Bsize(), f.size) < NDADDR && k < MaxBlocks(f.s.n) && 0 < f.Length(k) < f.s.frag
    requires nb != 0 && f.Placed(nb, f.s.frag)
    ensures FitsDirect(f, k, nb, Start(f.Bsize(), k + 1)) && f.db[k] != 0
    ensures var g := WithDirect(f, k, nb, Start(f.Bsize(), k + 1));
      g.Length(k) == f.s.frag && forall bn: nat :: WholeBefore(g, bn)
  {
    hide File.Directs, File.Trees, File.Pieces, Apart, Span, MaxBlocks, File.Lookup, Start, Lblkno, Blkoff;
    var b := f.Bsize();
    InBlock(b, f.size, k);
    StartStep(b, k);
    StartStep(b, k + 1);
    InBlock(b, Start(b, k + 1), k + 1);
    StartOrder(b, k + 1, MaxBlocks(f.s.n));
    RoundupZero(f.fsize);
    forall i | 0 <= i < NDADDR && (f.db[i] != 0 || i == k)
      ensures f.(size := Start(b, k + 1)).Length(i) == f.s.frag && (i != k ==> f.Length(i) == f.s.frag)
    {
      if i != k {
        Mapped(f, i);
        StartOrder(b, i + 1, k + 1);
        StartOrder(b, k + 1, i);
      }
    }
  }

  lemma RoundupZero(fsize: nat)
    requires 0 < fsize
    ensures Fragroundup(fsize, 0) == 0
  {
    DivModUnique(fsize - 1, fsize, 0, fsize - 1);
  }

  /** When there is no such fragment before block `bn`. */
  lemma NothingToFill(f: File, bn: nat)
    requires f.Sound()
    requires var k := Lblkno(f.Bsize(), f.size); k < NDADDR && k < bn ==> f.Length(k) == 0 || f.s.frag <= f.Length(k)
    ensures WholeBefore(f, bn)
  {
    hide File.Directs, File.Trees, File.Pieces, Apart, Span, MaxBlocks, File.Lookup, Start, Lblkno, Blkoff;
    forall i | 0 <= i < NDADDR && i < bn && f.db[i] != 0
      ensures f.Length(i) == f.s.frag
    {
      Mapped(f, i);
      if f.size < Start(f.Bsize(), i + 1) {
        LastBlock(f, i);
        LengthAt(f.s.frag, f.fsize, i, Blkoff(f.Bsize(), f.size));
      }
    }
  }

  lemma Units(f: File)
    requires f.Shaped()
    ensures f.Bsize() == f.s.frag * f.fsize > 0 && |f.db| == NDADDR && |f.ib| == NIADDR && 0 < f.fsize && f.s.Valid()
      && 0 < f.s.n && 0 < f.s.frag
    ensures forall k: nat :: f.Length(k) == Blksize(f.s.frag, f.fsize, f.size, k)
  {
  }

  lemma LastIsMapped(f: File, k: nat)
    requires f.Sound() && k == Lblkno(f.Bsize(), f.size) < NDADDR && 0 < f.Length(k) < f.s.frag
    ensures f.db[k] != 0 && Fragment(f, k) && f.size <= Start(f.Bsize(), k + 1)
  {
    hide File.Directs, File.Trees, File.Pieces, Apart, Span, MaxBlocks, File.Lookup, Start, Lblkno, Blkoff;
    RoundupZero(f.fsize);
    InBlock(f.Bsize(), f.size, k);
  }

  /** The fragment at the end of the file is made a whole block, here or elsewhere. */
  lemma Filling(f: File, free: set<nat>, k: nat, nb: nat, left: set<nat>)
    requires f.Sound() && Disjoint(f.Frags(), free) && k == Lblkno(f.Bsize(), f.size) < NDADDR
      && 0 < f.Length(k) < f.s.frag
    requires nb != 0 && f.Placed(nb, f.s.frag)
    requires var p, was := Interval(nb, f.s.frag), Interval(f.db[k], f.Length(k));
      p <= free + was && left == (free + was) - p
    ensures Exchangeable(f, free, k, nb, Start(f.Bsize(), k + 1), left)
    ensures CountAfter(f, k, nb, Start(f.Bsize(), k + 1)) == |f.Frags()| + (f.s.frag - f.Length(k))
    ensures var g := WithDirect(f, k, nb, Start(f.Bsize(), k + 1));
            g.Shaped() && (forall bn: nat :: WholeBefore(g, bn)) && forall bn: nat :: k < bn ==> Kept(f, g, bn)
  {
    hide File.Directs, File.Trees, File.Pieces, File.Ended, Apart, Span, Union, File.Frags, MaxBlocks, File.Lookup,
      Start, Lblkno, Blkoff, WholeBefore, FitsDirect, Blksize;
    DirectsAreBlocks(f.s.n);
    LastIsMapped(f, k);
    FillFits(f, k, nb);
    TakesOver(f, free, k, nb, Start(f.Bsize(), k + 1), left);
    ExchangeDirect(f, free, k, nb, Start(f.Bsize(), k + 1), left);
  }

  /** What bmap finds out about direct block `bn` before it asks for space. */
  lemma WantedCases(f: File, bn: nat, sz: nat)
    requires f.Sound() && bn < NDADDR && 1 <= sz <= f.Bsize()
    ensures bn < MaxBlocks(f.s.n) && 1 <= Wanted(f, bn, sz) <= f.s.frag
    ensures var o, n := Fragroundup(f.fsize, Blkoff(f.Bsize(), f.size)), Fragroundup(f.fsize, sz);
            && (f.db[bn] != 0 && f.size >= Start(f.Bsize(), bn + 1) ==> Wanted(f, bn, sz) == f.Length(bn))
            && (f.db[bn] != 0 && f.size < Start(f.Bsize(), bn + 1) && n <= o ==> Wanted(f, bn, sz) == f.Length(bn))
            && (f.db[bn] != 0 && f.size < Start(f.Bsize(), bn + 1) && n > o ==>
                Wanted(f, bn, sz) == n && f.Length(bn) == o >= 1)
            && (f.db[bn] != 0 && f.size < Start(f.Bsize(), bn + 1) && n > o ==>
                Fragment(f, bn) && f.size < NewSize(f, bn, sz))
            && (f.db[bn] == 0 && f.size < Start(f.Bsize(), bn + 1) ==> Wanted(f, bn, sz) == n)
            && (f.db[bn] == 0 && f.size >= Start(f.Bsize(), bn + 1) ==> Wanted(f, bn, sz) == f.s.frag)
  {
    hide File.Directs, File.Trees, File.Pieces, File.Ended, Apart, Span, MaxBlocks, Start, Lblkno, Blkoff, Fragroundup,
      NewSize;
    DirectsAreBlocks(f.s.n);
    WantedLength(f, bn, sz);
    if f.db[bn] != 0 && f.size < Start(f.Bsize(), bn + 1) {
      LastBlock(f, bn);
      LengthAt(f.s.frag, f.fsize, bn, Blkoff(f.Bsize(), f.size));
      NewSizeIs(f, bn, sz);
      if sz <= Blkoff(f.Bsize(), f.size) {
        RoundupOrder(f.fsize, sz, Blkoff(f.Bsize(), f.size));
      }
    }
  }

  /** Direct block `bn` is put at `nb`. */
  lemma Writing(f: File, free: set<nat>, bn: nat, sz: nat, nb: nat, left: set<nat>)
    requires f.Sound() && Disjoint(f.Frags(), free) && bn < NDADDR && 1 <= sz <= f.Bsize() && WholeBefore(f, bn)
    requires nb != 0 && f.Placed(nb, Wanted(f, bn, sz))
    requires var p, was := Interval(nb, Wanted(f, bn, sz)), if f.db[bn] != 0 then Interval(f.db[bn], f.Length(bn))
      else {};
             p <= free + was && left == (free + was) - p
    ensures Exchangeable(f, free, bn, nb, NewSize(f, bn, sz), left)
    ensures CountAfter(f, bn, nb, NewSize(f, bn, sz)) == |f.Frags()| + Wanted(f, bn, sz) - if f.db[bn] != 0
      then f.Length(bn) else 0
  {
    hide File.Directs, File.Trees, File.Pieces, File.Ended, Apart, Span, Union, File.Frags, MaxBlocks, File.Lookup,
      Start, Lblkno, Blkoff, WholeBefore, FitsDirect, Blksize, NewSize, Wanted, Interval;
    DirectsAreBlocks(f.s.n);
    WantedFits(f, bn, sz, nb);
    assert f.db[bn] == 0 ==> free + {} == free;
    TakesOver(f, free, bn, nb, NewSize(f, bn, sz), left);
  }

  /** Direct block `bn` stays where it is. */
  lemma Staying(f: File, free: set<nat>, bn: nat, sz: nat)
    requires f.Sound() && Disjoint(f.Frags(), free) && bn < NDADDR && 1 <= sz <= f.Bsize() && WholeBefore(f, bn)
    requires f.db[bn] != 0 && Wanted(f, bn, sz) == f.Length(bn)
    ensures var g := f.(size := NewSize(f, bn, sz));
            && Step(f, free, g, free) && |g.Frags()| == |f.Frags()|
            && forall y: nat :: y < MaxBlocks(f.s.n) ==> g.Lookup(y) == f.Lookup(y)
  {
    hide File.Trees, File.Ended, Apart, Span, Union, MaxBlocks, File.Lookup, Start, Lblkno, Blkoff, WholeBefore,
      FitsDirect, Blksize, NewSize, Wanted, Interval;
    DirectsAreBlocks(f.s.n);
    PieceInUnion(f.Pieces());
    var p := Interval(f.db[bn], f.Length(bn));
    assert p <= f.Frags();
    assert free == (free + p) - p;
    Writing(f, free, bn, sz, f.db[bn], free);
    ExchangeDirect(f, free, bn, f.db[bn], NewSize(f, bn, sz), free);
    DirectIs(f, bn, f.db[bn], NewSize(f, bn, sz));
    assert f.db[bn := f.db[bn]] == f.db;
    DirectLookup(f, bn);
  }

  lemma DirectLookup(f: File, bn: nat)
    requires f.Shaped() && bn < NDADDR
    ensures bn < MaxBlocks(f.s.n) && f.Lookup(bn) == f.db[bn]
  {
    DirectsAreBlocks(f.s.n);
  }

  // ---------------------------------------------------------------------------------------------------
  // Growing a file below its indirect pointers
  // ---------------------------------------------------------------------------------------------------

  lemma SameSizeFits(f: File)
    requires f.Sound()
    ensures SizeFits(f, f.size)
  {
    hide File.Directs, File.Trees, File.Pieces, Apart, Span, MaxBlocks, File.Lookup, Start, Lblkno, Blkoff, Blksize;
    assert f.(size := f.size) == f;
  }

  lemma NewSizeFitsTree(f: File, bn: nat, sz: nat)
    requires f.Sound() && NDADDR <= bn < MaxBlocks(f.s.n) && 1 <= sz <= f.Bsize() && WholeBefore(f, bn)
    ensures SizeFits(f, NewSize(f, bn, sz)) && Start(f.Bsize(), bn) < NewSize(f, bn, sz)
  {
    hide File.Directs, File.Trees, File.Pieces, File.Ended, Apart, Span, MaxBlocks, File.Lookup, Start, Lblkno, Blkoff,
      Blksize, NewSize, WholeBefore;
    NewSizeFits(f, bn, sz);
    OthersKept(f, bn, sz);
  }

  lemma PieceOf(f: File, l: nat)
    requires f.Shaped() && l < NIADDR
    ensures f.s.Frags(f.ib[l], l + 1) == f.Pieces()[NDADDR + l] <= f.Frags()
    ensures Apart(f.Pieces()) ==> forall k :: 0 <= k < NIADDR && k != l ==>
      f.s.Frags(f.ib[k], k + 1) !! f.s.Frags(f.ib[l], l + 1)
  {
    hide Store.Frags, Blksize, Union;
    PieceInUnion(f.Pieces());
    if Apart(f.Pieces()) {
      forall k | 0 <= k < NIADDR && k != l
        ensures f.s.Frags(f.ib[k], k + 1) !! f.s.Frags(f.ib[l], l + 1)
      {
        assert if k < l then f.Pieces()[NDADDR + k] !! f.Pieces()[NDADDR + l]
          else f.Pieces()[NDADDR + l] !! f.Pieces()[NDADDR + k];
      }
    }
  }

  /** A block in the tree under pointer `l`, and one that is new to the file, are not in the other trees. */
  lemma NotElsewhere(f: File, l: nat, b: nat, nb: nat)
    requires f.Sound() && l < NIADDR && b in f.s.Frags(f.ib[l], l + 1) && nb !in f.Frags()
    ensures forall k :: 0 <= k < NIADDR && k != l ==> {b, nb} !! f.s.Frags(f.ib[k], k + 1)
    ensures forall k :: 0 <= k < NIADDR && k != l ==> {nb} !! f.s.Frags(f.ib[k], k + 1)
  {
    hide Store.Frags, File.Frags, File.Directs, File.Trees, File.Ended, File.Pieces, Blksize;
    PieceOf(f, l);
    forall k: nat | k < NIADDR && k != l
      ensures {b, nb} !! f.s.Frags(f.ib[k], k + 1) && {nb} !! f.s.Frags(f.ib[k], k + 1)
    {
      PieceOf(f, k);
    }
  }

  lemma GraftFits(f: File, l: nat, x: nat, d: nat, bn: nat, nb: nat, t: Store, size: nat)
    requires f.Sound() && l < NIADDR && NDADDR <= bn < MaxBlocks(f.s.n) && Slot(f.s.n, bn) == NDADDR + l
      && x == Offset(f.s.n, bn) && d <= l
    requires Grafted(f.s, t, f.ib[l], l + 1, x, d, nb) && Joins(f.s, nb, f.Frags())
    requires SizeFits(f, size) && (d == l ==> Start(f.Bsize(), bn) < size)
    ensures FitsTree(f, l, f.ib[l], t, size, {f.s.At(f.ib[l], l + 1, x, d), nb}, bn, d == l, nb)
    ensures t.Frags(f.ib[l], l + 1) == f.s.Frags(f.ib[l], l + 1) + Interval(nb, f.s.frag)
      && t.At(f.ib[l], l + 1, x, d + 1) == nb
  {
    hide Store.Frags, Store.Sound, Store.At, Store.Lookup, Store.Entries, File.Frags, File.Directs, File.Ended,
      File.Pieces, Interval, Span, Start, SizeFits, Apart, Slot, Offset, MaxBlocks, DigitAt, Blank;
    var root, h := f.ib[l], l + 1;
    PieceOf(f, l);
    assert nb in Interval(nb, f.s.frag);
    assert Joins(f.s, nb, f.s.Frags(root, h));
    BlockInTree(f.s, root, h, x, d);
    NotElsewhere(f, l, f.s.At(root, h, x, d), nb);
    Graft(f.s, t, root, h, x, d, nb);
    forall y: nat | y < Span(f.s.n, h)
      ensures t.Lookup(root, h, y) == if d == l && y == x then nb else f.s.Lookup(root, h, y)
    {
      GraftLookup(f.s, t, root, h, x, d, nb, y);
    }
  }

  lemma SproutFits(f: File, l: nat, bn: nat, nb: nat, t: Store)
    requires f.Sound() && l < NIADDR && NDADDR <= bn < MaxBlocks(f.s.n) && Slot(f.s.n, bn) == NDADDR + l && f.ib[l] == 0
    requires SameBut(f.s, t, {nb}) && Blank(t, nb) && Joins(f.s, nb, f.Frags())
    ensures FitsTree(f, l, nb, t, f.size, {nb}, bn, false, 0)
    ensures t.Frags(nb, l + 1) == Interval(nb, f.s.frag) && f.s.Frags(0, l + 1) == {}
  {
    hide Store.Frags, Store.Sound, Store.Entries, File.Frags, File.Directs, File.Ended, File.Pieces, Interval, Span,
      Start, SizeFits, Apart, Slot, Offset, MaxBlocks, Blank;
    SameSizeFits(f);
    NoFrags(f.s, l + 1);
    assert nb in Interval(nb, f.s.frag);
    forall k: nat | k < NIADDR && k != l
      ensures {nb} !! f.s.Frags(f.ib[k], k + 1)
    {
      PieceOf(f, k);
    }
    assert Joins(t, nb, {});
    Sprout(t, nb, l + 1);
    var h := l + 1;
    forall y: nat | y < Span(f.s.n, h)
      ensures t.Lookup(nb, h, y) == 0
    {
      SproutAt(t, nb, h, y);
    }
  }

  lemma StayFits(f: File, l: nat, bn: nat, size: nat)
    requires f.Sound() && l < NIADDR && NDADDR <= bn < MaxBlocks(f.s.n) && Slot(f.s.n, bn) == NDADDR + l
    requires SizeFits(f, size) && Start(f.Bsize(), bn) < size
    ensures FitsTree(f, l, f.ib[l], f.s, size, {}, bn, true, f.Lookup(bn))
  {
    hide Store.Frags, Store.Sound, Store.Lookup, Store.Entries, File.Frags, File.Directs, File.Ended, File.Pieces,
      Interval, Span, Start, SizeFits, Apart, Slot, Offset, MaxBlocks;
  }

  /** A growth of the tree under pointer `l` by block `nb`. */
  lemma Growing(f: File, free: set<nat>, l: nat, root: nat, t: Store, size: nat, where: set<nat>, bn: nat, leaf: bool,
        nb: nat, own: set<nat>, left: set<nat>)
    requires f.Sound() && Disjoint(f.Frags(), free) && l < NIADDR && FitsTree(f, l, root, t, size, where, bn, leaf, nb)
    requires t.Frags(root, l + 1) == f.s.Frags(f.ib[l], l + 1) + own && own <= free && left == free - own
    ensures var g := WithTree(f, l, root, t, size);
            && Step(f, free, g, left) && |g.Frags()| == |f.Frags()| + |own|
            && (forall x: nat :: x < MaxBlocks(f.s.n) ==> g.Lookup(x) == if leaf && x == bn then nb else f.Lookup(x))
  {
    hide Span, Start, Lblkno, Blkoff, Blksize, Apart, Union, FitsTree, WithTree, File.Directs, File.Trees, File.Ended,
      File.Lookup, MaxBlocks, Slot, Offset, Store.Frags, File.Pieces;
    PieceOf(f, l);
    GrowingSets(f.Frags(), f.s.Frags(f.ib[l], l + 1), free, own);
    ExchangeTree(f, free, l, root, t, size, where, bn, leaf, nb, left);
  }

  lemma GrowingSets(all: set<nat>, was: set<nat>, free: set<nat>, own: set<nat>)
    requires was <= all && all !! free && own <= free
    ensures was + own <= free + was && free - own == (free + was) - (was + own) && |was + own| == |was| + |own|
  {
  }

  lemma TreeIs(f: File, l: nat, root: nat, t: Store, size: nat)
    requires l < |f.ib|
    ensures WithTree(f, l, root, t, size) == File(f.fsize, size, f.db, f.ib[l := root], t) && f.ib[l := f.ib[l]] == f.ib
  {
  }

  /** The way to block `x` of the tree under pointer `l` leads to `cur` in `d` steps. */
  ghost predicate Reaches(f: File, l: nat, x: nat, d: nat, cur: nat) {
    f.Shaped() && l < NIADDR && d <= l + 1 && x < Span(f.s.n, l + 1) && f.s.At(f.ib[l], l + 1, x, d) == cur
  }

  lemma ReachesIs(f: File, l: nat, x: nat, d: nat, cur: nat)
    requires f.Shaped() && l < NIADDR && d <= l + 1 && x < Span(f.s.n, l + 1) && f.s.At(f.ib[l], l + 1, x, d) == cur
    ensures Reaches(f, l, x, d, cur)
  {
  }

  lemma AtStart(f: File, l: nat, x: nat)
    requires f.Shaped() && l < NIADDR && x < Span(f.s.n, l + 1)
    ensures Reaches(f, l, x, 0, f.ib[l])
  {
  }

  /** On the way to block `bn`, pointer `i` of the indirect block at `cur`, `d` steps down, is a hole. */
  ghost predicate Hole(f: File, l: nat, bn: nat, x: nat, d: nat, cur: nat, i: nat) {
    && Reaches(f, l, x, d, cur) && cur != 0 && d <= l
    && NDADDR <= bn < MaxBlocks(f.s.n) && Slot(f.s.n, bn) == NDADDR + l && x == Offset(f.s.n, bn)
    && i == DigitAt(f.s.n, l + 1, x, d) && i < f.s.n && f.s.Entries(cur)[i] == 0
  }

  lemma HoleIs(f: File, l: nat, bn: nat, x: nat, d: nat, cur: nat, i: nat)
    requires Hole(f, l, bn, x, d, cur, i)
    ensures f.Shaped() && l < NIADDR && d <= l && NDADDR <= bn < MaxBlocks(f.s.n) && Slot(f.s.n, bn) == NDADDR + l
      && x == Offset(f.s.n, bn)
    ensures x < Span(f.s.n, l + 1) && cur != 0 && cur == f.s.At(f.ib[l], l + 1, x, d) && cur in f.Frags()
    ensures f.s.At(f.ib[l], l + 1, x, d + 1) == 0 && i < f.s.n && i == DigitAt(f.s.n, l + 1, x, d)
    ensures f.Lookup(bn) == 0 && forall g :: MayMove(f, g, bn)
  {
    hide Store.Frags, Store.Entries, File.Frags, Span, Slot, Offset, MaxBlocks, DigitAt;
    NextReached(f, l, x, d, cur, i);
    Reached(f, l, bn, x, d + 1, 0);
    BlockInTree(f.s, f.ib[l], l + 1, x, d);
    PieceOf(f, l);
    NextAt(f.s, f.ib[l], l + 1, x, d);
  }

  lemma GraftedIs(f: File, t: Store, l: nat, bn: nat, x: nat, d: nat, cur: nat, i: nat, nb: nat)
    requires Hole(f, l, bn, x, d, cur, i)
    requires SameBut(f.s, t, {cur, nb}) && t.Entries(cur) == f.s.Entries(cur)[i := nb] && Blank(t, nb)
    ensures f.Shaped() && l < NIADDR && Grafted(f.s, t, f.ib[l], l + 1, x, d, nb)
  {
    hide Store.Frags, Store.Entries, File.Frags, Span, Slot, Offset, MaxBlocks, DigitAt;
    NextAt(f.s, f.ib[l], l + 1, x, d);
  }

  /** One step further on the way to a block. */
  lemma NextReached(f: File, l: nat, x: nat, d: nat, cur: nat, i: nat)
    requires Reaches(f, l, x, d, cur) && cur != 0 && d <= l && i == DigitAt(f.s.n, l + 1, x, d)
    ensures i < f.s.n && Reaches(f, l, x, d + 1, f.s.Entries(cur)[i])
  {
    hide Store.Entries, Span, DigitAt;
    NextAt(f.s, f.ib[l], l + 1, x, d);
  }

  /** The end of the way, and a hole on it. */
  lemma Reached(f: File, l: nat, bn: nat, x: nat, d: nat, cur: nat)
    requires Reaches(f, l, x, d, cur) && NDADDR <= bn < MaxBlocks(f.s.n) && Slot(f.s.n, bn) == NDADDR + l
      && x == Offset(f.s.n, bn)
    ensures d == l + 1 || cur == 0 ==> f.Lookup(bn) == cur
  {
    hide Store.Entries, Span, Slot, Offset, MaxBlocks;
    if cur == 0 {
      AtZero(f.s, f.ib[l], l + 1, x, d, l + 1);
    }
  }

  /** Block `bn` is mapped already, and the file is taken to have `size` bytes. */
  lemma StayingBelow(f: File, free: set<nat>, l: nat, bn: nat, size: nat)
    requires f.Sound() && Disjoint(f.Frags(), free) && l < NIADDR && NDADDR <= bn < MaxBlocks(f.s.n)
      && Slot(f.s.n, bn) == NDADDR + l
    requires SizeFits(f, size) && Start(f.Bsize(), bn) < size
    ensures var g := f.(size := size);
            && Step(f, free, g, free) && |g.Frags()| == |f.Frags()|
            && forall y: nat :: y < MaxBlocks(f.s.n) ==> g.Lookup(y) == f.Lookup(y)
  {
    hide Store.Frags, Store.Sound, Store.Entries, File.Frags, File.Directs, File.Trees, File.Ended, File.Pieces,
      File.Lookup, Interval, Span, Start, SizeFits, Apart, Slot, Offset, MaxBlocks, FitsTree;
    StayFits(f, l, bn, size);
    Growing(f, free, l, f.ib[l], f.s, size, {}, bn, true, f.Lookup(bn), {}, free);
    TreeIs(f, l, f.ib[l], f.s, size);
  }

  lemma ReachesSame(f: File, l: nat, x: nat, d: nat, cur: nat, size: nat)
    requires Reaches(f, l, x, d, cur)
    ensures Reaches(f.(size := size), l, x, d, cur)
  {
  }

  lemma HoleHere(f: File, l: nat, bn: nat, x: nat, d: nat, cur: nat, i: nat)
    requires Reaches(f, l, x, d, cur) && cur != 0 && d <= l && i == DigitAt(f.s.n, l + 1, x, d)
    requires NDADDR <= bn < MaxBlocks(f.s.n) && Slot(f.s.n, bn) == NDADDR + l && x == Offset(f.s.n, bn)
    requires i < f.s.n && f.s.Entries(cur)[i] == 0
    ensures Hole(f, l, bn, x, d, cur, i)
  {
  }

  lemma SizeFitsSame(f: File, g: File, to: nat)
    requires f.Shaped() && SizeFits(f, to) && g == f.(ib := g.ib, s := g.s) && g.Shaped() && g.s.n == f.s.n
      && g.s.frag == f.s.frag
    ensures SizeFits(g, to) && g.Bsize() == f.Bsize()
  {
    hide Start, Lblkno, Blkoff, Blksize, MaxBlocks;
    forall i | 0 <= i < NDADDR && g.db[i] != 0
      ensures g.(size := to).Length(i) == g.Length(i)
    {
      assert f.(size := to).Length(i) == f.Length(i);
    }
  }

  /** Block `bn` was a hole, or it is a fragment at the end of a file that grows. */
  ghost predicate MayMove(f: File, g: File, bn: nat)
    requires f.Shaped()
  {
    bn < MaxBlocks(f.s.n) ==> f.Lookup(bn) == 0 || (Fragment(f, bn) && f.size < g.size)
  }

  /**
   From `f` and `free` to `g` and `left`: nothing lost between file and free space, other blocks of the disk
   untouched, and no block mapped elsewhere, but that `bn` is at `r`, if `r` is positive, and may be anywhere if `r`
   is 0 and it may move.
   */
  ghost predicate Maps(f: File, free: set<nat>, g: File, left: set<nat>, bn: nat, r: int) {
    && f.Shaped() && g.Shaped() && g.s.n == f.s.n && Step(f, free, g, left) && SameBut(f.s, g.s, f.Frags() + free)
    && (r > 0 ==> bn < MaxBlocks(f.s.n) && g.Lookup(bn) == r)
    && (forall y: nat :: y < MaxBlocks(f.s.n) && (y != bn || r < 0 || !MayMove(f, g, bn)) ==>
        g.Lookup(y) == f.Lookup(y))
  }

  lemma MayMoveIs(f: File, g: File, bn: nat)
    requires f.Shaped() && bn < NDADDR && (f.db[bn] == 0 || (Fragment(f, bn) && f.size < g.size))
    ensures MayMove(f, g, bn)
  {
  }

  lemma MapsSame(f: File, free: set<nat>, bn: nat)
    requires f.Sound() && Disjoint(f.Frags(), free)
    ensures Maps(f, free, f, free, bn, -1)
  {
    hide File.Directs, File.Trees, File.Pieces, File.Ended, Apart, File.Frags;
  }

  lemma MapsAlready(f: File, free: set<nat>, bn: nat, r: int)
    requires Maps(f, free, f, free, bn, -1) && bn < MaxBlocks(f.s.n) && f.Lookup(bn) == r
    ensures Maps(f, free, f, free, bn, r)
  {
  }

  lemma MapsThen(f: File, a: set<nat>, g: File, b: set<nat>, h: File, c: set<nat>, bn: nat, r: int)
    requires Maps(f, a, g, b, bn, -1) && Maps(g, b, h, c, bn, r) && NDADDR <= bn
    ensures Maps(f, a, h, c, bn, r)
  {
    hide File.Sound, File.Pieces, MaxBlocks, File.Lookup;
    forall y: nat | y < MaxBlocks(f.s.n) && (y != bn || r < 0 || !MayMove(f, h, bn))
      ensures h.Lookup(y) == f.Lookup(y)
    {
      assert g.Lookup(y) == f.Lookup(y);
    }
  }

  lemma MapsOpen(f: File, a: set<nat>, g: File, b: set<nat>, bn: nat, r: int)
    requires Maps(f, a, g, b, bn, r)
    ensures f.Shaped() && g.Shaped() && g.s.n == f.s.n && Step(f, a, g, b) && SameBut(f.s, g.s, f.Frags() + a)
    ensures (r > 0 ==> bn < MaxBlocks(f.s.n) && g.Lookup(bn) == r)
    ensures forall y: nat :: y < MaxBlocks(f.s.n) && (y != bn || r < 0) ==> g.Lookup(y) == f.Lookup(y)
  {
  }

  lemma MapsMake(f: File, a: set<nat>, g: File, b: set<nat>, bn: nat, r: int, where: set<nat>)
    requires f.Shaped() && g.Shaped() && Step(f, a, g, b) && SameBut(f.s, g.s, where) && where <= f.Frags() + a
    requires r <= 0 && (MayMove(f, g, bn) || r < 0 || (bn < MaxBlocks(f.s.n) ==> g.Lookup(bn) == f.Lookup(bn)))
    requires forall y: nat :: y < MaxBlocks(f.s.n) && (y != bn || r < 0) ==> g.Lookup(y) == f.Lookup(y)
    ensures Maps(f, a, g, b, bn, r)
  {
    hide File.Sound, File.Pieces, MaxBlocks, File.Lookup, Fragment;
  }

  lemma MapsFound(f: File, a: set<nat>, g: File, b: set<nat>, bn: nat, r: int)
    requires Maps(f, a, g, b, bn, 0) && bn < MaxBlocks(f.s.n) && g.Lookup(bn) == r
    ensures Maps(f, a, g, b, bn, r)
  {
  }

  /**
   What a call of bmap for block `bn` comes to: nothing is lost between file and free space, other blocks of the disk
   are untouched, and no block is mapped elsewhere but the one asked for and a fragment that ended the file before it.
   */
  ghost predicate Written(f: File, free: set<nat>, g: File, left: set<nat>, bn: int, r: int) {
    && f.Shaped() && g.Shaped() && g.s.n == f.s.n && Step(f, free, g, left) && SameBut(f.s, g.s, f.Frags() + free)
    && Kept(f, g, bn)
    && (r > 0 ==> 0 <= bn < MaxBlocks(f.s.n) && g.Lookup(bn) == r)
    && (0 <= bn < MaxBlocks(f.s.n) && (r <= 0 || !MayMove(f, g, bn)) ==> g.Lookup(bn) == f.Lookup(bn))
  }

  lemma WrittenIs(f: File, free: set<nat>, g: File, left: set<nat>, bn: int, r: int)
    requires Written(f, free, g, left, bn, r) && 0 < r
    ensures f.Shaped() && g.Shaped() && g.s.n == f.s.n && 0 <= bn < MaxBlocks(g.s.n) && g.Lookup(bn) == r
  {
  }

  /** The fragment that ended the file was made whole, if there was one before block `bn`; then the block was mapped. */
  lemma FilledThen(f: File, a: set<nat>, g: File, b: set<nat>, h: File, c: set<nat>, bn: nat, r: int)
    requires f.Shaped() && g.Shaped() && f.s == g.s && Step(f, a, g, b) && Kept(f, g, bn)
      && Maps(g, b, h, c, bn, if r > 0 then r else -1)
    requires bn < MaxBlocks(f.s.n) ==> g.Lookup(bn) == f.Lookup(bn)
    requires f.size <= g.size && (Fragment(g, bn) ==> Fragment(f, bn))
    ensures Written(f, a, h, c, bn, r)
  {
    hide File.Sound, File.Pieces, MaxBlocks, File.Lookup, Fragment;
    forall x: nat | x < MaxBlocks(f.s.n) && x != bn
      ensures h.Lookup(x) == f.Lookup(x) || (Fragment(f, x) && x < bn && h.Lookup(x) != 0)
    {
      assert h.Lookup(x) == g.Lookup(x);
    }
  }

  lemma NothingWritten(f: File, free: set<nat>, bn: int, r: int)
    requires f.Sound() && Disjoint(f.Frags(), free) && r <= 0
    ensures Written(f, free, f, free, bn, r)
  {
    hide File.Directs, File.Trees, File.Pieces, File.Ended, Apart, File.Frags, File.Lookup, Fragment;
  }

  /** A size that was rounded up to a block before `bn` makes no difference to the size after the write. */
  lemma NewSizeSame(f: File, g: File, bn: nat, sz: nat, k: nat)
    requires f.Shaped() && g.Bsize() == f.Bsize() && 1 <= sz
      && (g.size == f.size || (k < bn && f.size <= g.size == Start(f.Bsize(), k + 1)))
    ensures NewSize(f, bn, sz) == NewSize(g, bn, sz)
  {
    hide Start;
    StartOrder(f.Bsize(), k + 1, bn);
  }

  /**
   The first part of bmap done: the fragment that ended the file before block `bn` is a whole block now, if there was
   one.
   */
  ghost predicate Filled(f: File, free: set<nat>, g: File, left: set<nat>, bn: nat) {
    && f.Shaped() && g.Shaped() && f.s == g.s && g.fsize == f.fsize && Step(f, free, g, left) && WholeBefore(g, bn)
        && Kept(f, g, bn)
    && (bn < MaxBlocks(f.s.n) ==> g.Lookup(bn) == f.Lookup(bn)) && (Fragment(g, bn) ==> Fragment(f, bn))
    && (g.size == f.size || (Lblkno(f.Bsize(), f.size) < bn
        && f.size <= g.size == Start(f.Bsize(), Lblkno(f.Bsize(), f.size) + 1)))
  }

  lemma FilledOpen(f: File, free: set<nat>, g: File, left: set<nat>, bn: nat)
    requires Filled(f, free, g, left, bn)
    ensures f.Shaped() && g.Shaped() && f.s == g.s && Step(f, free, g, left) && WholeBefore(g, bn) && Kept(f, g, bn)
    ensures bn < MaxBlocks(f.s.n) ==> g.Lookup(bn) == f.Lookup(bn)
    ensures f.size <= g.size && (Fragment(g, bn) ==> Fragment(f, bn))
    ensures g.size == f.size || (Lblkno(f.Bsize(), f.size) < bn
      && g.size == Start(f.Bsize(), Lblkno(f.Bsize(), f.size) + 1))
    ensures forall sz :: 1 <= sz ==> NewSize(f, bn, sz) == NewSize(g, bn, sz)
  {
    hide File.Directs, File.Trees, File.Pieces, File.Ended, Apart, File.Frags, File.Lookup, WholeBefore, Kept,
      MaxBlocks, Step, Start, NewSize, Lblkno;
    forall sz | 1 <= sz
      ensures NewSize(f, bn, sz) == NewSize(g, bn, sz)
    {
      NewSizeSame(f, g, bn, sz, Lblkno(f.Bsize(), f.size));
    }
  }

  lemma FilledMake(f: File, free: set<nat>, g: File, left: set<nat>, bn: nat)
    requires f.Shaped() && g.Shaped() && f.s == g.s && g.fsize == f.fsize && Step(f, free, g, left)
      && WholeBefore(g, bn) && Kept(f, g, bn)
    requires (bn < MaxBlocks(f.s.n) ==> g.Lookup(bn) == f.Lookup(bn)) && (g == f || WholeBefore(g, bn + 1))
    requires g.size == f.size || (Lblkno(f.Bsize(), f.size) < bn
      && f.size <= g.size == Start(f.Bsize(), Lblkno(f.Bsize(), f.size) + 1))
    ensures Filled(f, free, g, left, bn)
  {
  }

  lemma NewSizeIs(f: File, bn: nat, sz: nat)
    ensures NewSize(f, bn, sz) == if f.size < Start(f.Bsize(), bn) + sz then Start(f.Bsize(), bn) + sz else f.size
  {
  }

  lemma SoundParts(f: File)
    requires f.Sound()
    ensures f.Shaped() && Apart(f.Pieces()) && f.Frags() == Union(f.Pieces()) && |f.Pieces()| == NDADDR + NIADDR
  {
  }

  lemma DirectPiece(f: File, i: nat)
    requires f.Sound() && i < NDADDR
    ensures f.Pieces()[i] == Extent(f.db[i], f.Length(i))
      && (f.db[i] == 0 ==> f.Pieces()[i] == {} && |f.Pieces()[i]| == 0)
    ensures f.db[i] != 0 ==>
      f.Placed(f.db[i], f.Length(i)) && f.Pieces()[i] == Interval(f.db[i], f.Length(i))
      && |f.Pieces()[i]| == f.Length(i)
  {
    hide Blksize, Interval;
  }

  /** No two blocks of a sound file share a fragment. */
  lemma NoSharing(f: File, a: nat, b: nat)
    requires f.Sound() && a < MaxBlocks(f.s.n) && b < MaxBlocks(f.s.n) && a != b && f.Lookup(a) != 0 && f.Lookup(b) != 0
    ensures Disjoint(Interval(f.Lookup(a), f.Length(a)), Interval(f.Lookup(b), f.Length(b)))
  {
    hide Store.Frags, Store.Sound, Store.Entries, Store.At, File.Directs, File.Ended, File.Frags, Interval, Span, Start,
      MaxBlocks, Offset, Slot;
    BlockInPiece(f, a);
    BlockInPiece(f, b);
    var i, j := Slot(f.s.n, a), Slot(f.s.n, b);
    if i != j {
      assert if i < j then f.Pieces()[i] !! f.Pieces()[j] else f.Pieces()[j] !! f.Pieces()[i];
    } else if NDADDR <= a {
      if Offset(f.s.n, a) == Offset(f.s.n, b) {
        OffsetUnique(f.s.n, a, b);
      }
      LeavesApart(f.s, f.ib[i - NDADDR], i - NDADDR + 1, Offset(f.s.n, a), Offset(f.s.n, b));
    }
  }

  lemma BlockInPiece(f: File, a: nat)
    requires f.Sound() && a < MaxBlocks(f.s.n) && f.Lookup(a) != 0
    ensures Interval(f.Lookup(a), f.Length(a)) <= f.Pieces()[Slot(f.s.n, a)] && (a < NDADDR ==> Slot(f.s.n, a) == a)
    ensures a < NDADDR <==> Slot(f.s.n, a) < NDADDR
  {
    hide Store.Frags, Store.Sound, Store.Entries, Store.At, File.Directs, File.Ended, File.Frags, Interval, Span, Start,
      MaxBlocks, Offset;
    if NDADDR <= a {
      var l := Slot(f.s.n, a) - NDADDR;
      BlockInTree(f.s, f.ib[l], l + 1, Offset(f.s.n, a), l + 1);
    }
  }
}
