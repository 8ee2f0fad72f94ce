/**
 Where the bytes of a file lie: the blocks of a sound file hold all bytes there are of it, and no two bytes are in one
 place.
 */
module FileBytes {
  import opened FragMap
  import opened BlockTree
  import opened FileMap

  /** How many bytes of block `bn` the file has. */
  function BytesIn(f: File, bn: nat): int {
    var b := f.s.frag * f.fsize;
    if f.size < bn * b then 0 else if f.size < bn * b + b then f.size - bn * b else b
  }

  lemma RoundupHolds(fsize: nat, x: nat)
    requires 0 < fsize && 0 < x
    ensures fsize * (Fragroundup(fsize, x) - 1) < x <= fsize * Fragroundup(fsize, x)
  {
    var q := Fragroundup(fsize, x);
    DivMod(x + fsize - 1, fsize);
    assert q * fsize == fsize * q && fsize * (q - 1) == fsize * q - fsize;
  }

  /** A direct block has fragments enough for the bytes in it, and none to spare. */
  lemma HoldsBytes(f: File, k: nat)
    requires f.Sound() && k < 12 && |f.db| == 12 && f.db[k] != 0
    ensures 0 < BytesIn(f, k) <= f.fsize * |f.Pieces()[k]| && f.fsize * (|f.Pieces()[k]| - 1) < BytesIn(f, k)
    ensures forall x: nat :: x in f.Pieces()[k] <==> f.db[k] <= x < f.db[k] + |f.Pieces()[k]|
  {
    hide File.Directs, File.Trees, File.Pieces, File.Ended, Apart, Blksize, Fragroundup, Lblkno, Blkoff;
    DirectPiece(f, k);
    Mapped(f, k);
    StartStep(f.Bsize(), k);
    Units(f);
    var n, b := f.Length(k), f.Bsize();
    if f.size < Start(b, k + 1) {
      LastBlock(f, k);
      RoundupHolds(f.fsize, Blkoff(b, f.size));
    } else {
      assert n == f.s.frag;
      assert f.fsize * (n - 1) == f.fsize * n - f.fsize;
    }
  }

  lemma LengthHolds(f: File, bn: nat)
    requires f.Sound() && bn < MaxBlocks(f.s.n) && f.Lookup(bn) != 0
    ensures 0 < f.fsize && BytesIn(f, bn) <= f.Length(bn) * f.fsize
  {
    hide File.Directs, File.Trees, File.Pieces, File.Ended, Apart, Blksize, Fragroundup, Span, MaxBlocks;
    Units(f);
    if bn < NDADDR {
      DirectLookup(f, bn);
      HoldsBytes(f, bn);
      DirectPiece(f, bn);
    } else {
      WholeBlock(f, bn);
    }
  }

  /** Byte `o` of block `bn` lies in the fragment `o / fsize` behind the block's address, and that is the file's. */
  lemma ByteInBlock(f: File, bn: nat, o: nat)
    requires f.Sound() && bn < MaxBlocks(f.s.n) && f.Lookup(bn) != 0 && o < BytesIn(f, bn)
    ensures 0 < f.fsize && o / f.fsize < f.Length(bn) && f.Lookup(bn) + o / f.fsize in f.Frags()
  {
    hide *;
    SoundParts(f);
    Units(f);
    LengthHolds(f, bn);
    BlockInPiece(f, bn);
    var x, n, i := f.Lookup(bn), f.Length(bn), o / f.fsize;
    DivBelow(o, n, f.fsize);
    InPiece(f.Pieces(), Slot(f.s.n, bn), x, n, i);
  }

  lemma InPiece(ps: seq<set<nat>>, k: nat, x: nat, n: nat, i: nat)
    requires k < |ps| && Interval(x, n) <= ps[k] && i < n
    ensures x + i in Union(ps)
  {
    hide Union, Interval;
    PieceInUnion(ps);
    assert x + i in Interval(x, n);
  }

  lemma WholeBlock(f: File, bn: nat)
    requires f.Shaped() && NDADDR <= bn
    ensures f.Length(bn) == f.s.frag
  {
  }

  lemma DivBelow(o: nat, n: nat, fsize: nat)
    requires 0 < fsize && o < n * fsize
    ensures o / fsize < n
  {
    DivMod(o, fsize);
    if n <= o / fsize {
      MulStepWeak(n, o / fsize, fsize);
    }
  }

  lemma MulStepWeak(i: nat, j: nat, fsize: nat)
    requires i <= j
    ensures i * fsize <= j * fsize
  {
    if i < j {
      MulStep(i, j, fsize);
    }
  }

  /** The place on the disk of byte `o` of block `bn`. */
  ghost function Place(f: File, bn: nat, o: nat): nat
    requires f.Shaped() && bn < MaxBlocks(f.s.n)
  {
    Spot(f.fsize, f.Lookup(bn), o)
  }

  function Spot(fsize: nat, x: nat, o: nat): nat {
    x * fsize + o
  }

  /** No two bytes of a sound file are in one place. */
  lemma BytesApart(f: File, a: nat, o: nat, b: nat, p: nat)
    requires f.Sound() && a < MaxBlocks(f.s.n) && b < MaxBlocks(f.s.n) && f.Lookup(a) != 0 && f.Lookup(b) != 0
    requires o < BytesIn(f, a) && p < BytesIn(f, b) && (a != b || o != p)
    ensures Place(f, a, o) != Place(f, b, p)
  {
    hide *;
    SoundParts(f);
    Units(f);
    PlaceIs(f, a, o);
    PlaceIs(f, b, p);
    if a == b {
      SpotOrder(f.fsize, f.Lookup(a), o, p);
    } else {
      ByteInBlock(f, a, o);
      ByteInBlock(f, b, p);
      NoSharing(f, a, b);
      FragmentsApart(f.Lookup(a), f.Length(a), o / f.fsize, f.Lookup(b), f.Length(b), p / f.fsize);
      QuotientsApart(f.fsize, f.Lookup(a), o, f.Lookup(b), p);
    }
  }

  lemma PlaceIs(f: File, bn: nat, o: nat)
    requires f.Shaped() && bn < MaxBlocks(f.s.n)
    ensures Place(f, bn, o) == Spot(f.fsize, f.Lookup(bn), o)
  {
  }

  lemma SpotOrder(fsize: nat, x: nat, o: nat, p: nat)
    requires o != p
    ensures Spot(fsize, x, o) != Spot(fsize, x, p)
  {
  }

  lemma FragmentsApart(x: nat, m: nat, i: nat, y: nat, n: nat, j: nat)
    requires Disjoint(Interval(x, m), Interval(y, n)) && i < m && j < n
    ensures x + i != y + j
  {
    hide Interval;
    assert x + i in Interval(x, m) && y + j in Interval(y, n);
  }

  lemma QuotientsApart(fsize: nat, x: nat, o: nat, y: nat, p: nat)
    requires 0 < fsize && x + o / fsize != y + p / fsize
    ensures Spot(fsize, x, o) != Spot(fsize, y, p)
  {
    InFragment(fsize, x, o);
    InFragment(fsize, y, p);
    var u, v := x * fsize + o, y * fsize + p;
    assert u / fsize != v / fsize;
  }

  lemma InFragment(fsize: nat, x: nat, o: nat)
    requires 0 < fsize
    ensures (x * fsize + o) / fsize == x + o / fsize
  {
    DivMod(o, fsize);
    assert (x + o / fsize) * fsize == x * fsize + (o / fsize) * fsize;
    DivModUnique(x * fsize + o, fsize, x + o / fsize, o % fsize);
  }

  /** Block `bn`, at `r`, has room in the fragments of the file for `sz` bytes, each where its offset says. */
  ghost predicate Stores(f: File, bn: nat, sz: nat, r: int) {
    && f.Shaped() && 0 < f.fsize
    && (forall o: nat :: o < sz ==> r + o / f.fsize in f.Frags())
    && (bn < 12 ==> sz <= f.fsize * |f.Pieces()[bn]|)
  }

  lemma WrittenHeld(f: File, bn: nat, sz: nat)
    requires f.Sound() && bn < MaxBlocks(f.s.n) && f.Lookup(bn) != 0 && 1 <= sz <= f.s.frag * f.fsize
      && bn * (f.s.frag * f.fsize) + sz <= f.size
    ensures Stores(f, bn, sz, f.Lookup(bn))
  {
    hide File.Directs, File.Trees, File.Pieces, File.Ended, Apart, Blksize, Fragroundup, Span, MaxBlocks, Union,
      File.Frags;
    Units(f);
    forall o: nat | o < sz
      ensures f.Lookup(bn) + o / f.fsize in f.Frags()
    {
      ByteInBlock(f, bn, o);
    }
    if bn < NDADDR {
      DirectLookup(f, bn);
      HoldsBytes(f, bn);
    }
  }

  lemma StartIs(bsize: nat, bn: nat)
    ensures Start(bsize, bn) == bn * bsize
  {
  }

  /** The blocks a file can have: so many direct ones, and those found through one, two and three indirect blocks. */
  lemma FoundAt(n: nat, bn: nat)
    requires 0 < n
    ensures bn < MaxBlocks(n) <==> bn < 12 + n + n * n + n * (n * n)
    ensures bn < 12 ==> bn < MaxBlocks(n) && Slot(n, bn) == bn
    ensures 12 <= bn < 12 + n ==> bn < MaxBlocks(n) && Slot(n, bn) == 12 && Offset(n, bn) == bn - 12
    ensures 12 + n <= bn < 12 + n + n * n ==>
      bn < MaxBlocks(n) && Slot(n, bn) == 13 && Offset(n, bn) == bn - (12 + n)
    ensures 12 + n + n * n <= bn < MaxBlocks(n) ==> Slot(n, bn) == 14 && Offset(n, bn) == bn - (12 + n + n * n)
  {
    assert Span(n, 0) == 1 && Span(n, 1) == n && Span(n, 2) == n * n && Span(n, 3) == n * (n * n);
  }
}
