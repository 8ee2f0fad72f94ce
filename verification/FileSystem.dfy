/**
 The block and inode allocator of a whole file system: the cylinder groups, the in-core copies of their
 summaries, and the search that overflows from one group into the next.
 */
module FileSystem {
  import opened FragTables
  import opened FragMap
  import opened CylGroup
  import opened FreeSpace
  import BlockTree

  /** Room in a group for `size` fragments: a free run, within one block, that is long enough. */
  ghost predicate Room(geo: Geometry, cg: CgData, size: nat)
    requires cg.Sized(geo)
  {
    exists j: nat, k: nat :: size <= k && BlockHasRun(cg.Map(geo), j, k)
  }

  /** Taking a whole block and giving back all but its head is taking its head. */
  lemma FillTwice(bits: seq<bool>, d: nat, frag: nat, n: nat)
    requires n <= frag && d + frag <= |bits| && forall x :: d <= x < d + frag ==> bits[x]
    ensures Fill(Fill(bits, d, frag, false), d + n, frag - n, true) == Fill(bits, d, n, false)
  {
  }

  /** What hashalloc is asked for: the routine it is handed, and that routine's last argument. */
  datatype Request = Fragments(size: nat) | Inode(dir: bool)

  /** How a call of free ends: done, a complaint about the block number, or a panic. */
  datatype Outcome = Done | BadBlock | Panic

  class Fs {
    const geo: Geometry
    const ncg: nat              // fs_ncg
    const size: nat             // fs_size
    const dsize: nat            // fs_dsize
    const minfree: int          // fs_minfree
    const fsize: nat            // fs_fsize
    const nindir: nat           // fs_nindir
    const nspf: nat             // fs_nspf
    const csp: array<Csum>      // fs_cs
    var cstotal: Csum           // fs_cstotal
    var optim: int              // fs_optim
    var disk: seq<CgData>       // the cylinder group blocks
    var ptrs: map<nat, seq<nat>>  // the indirect blocks: disk blocks read as block pointers

    /** A mounted file system: the super block, the summary area and the groups. */
    constructor (geo: Geometry, size: nat, dsize: nat, minfree: int, fsize: nat, nindir: nat, nspf: nat,
          csp: array<Csum>,
                 cstotal: Csum, optim: int, disk: seq<CgData>, ptrs: map<nat, seq<nat>>)
      ensures this.geo == geo && this.ncg == |disk| && this.size == size && this.dsize == dsize
        && this.minfree == minfree
      ensures this.fsize == fsize && this.nindir == nindir && this.nspf == nspf
      ensures this.optim == optim && this.csp == csp && this.cstotal == cstotal && this.disk == disk
        && this.ptrs == ptrs
    {
      this.geo, this.ncg, this.size, this.dsize, this.minfree := geo, |disk|, size, dsize, minfree;
      this.fsize, this.nindir, this.nspf := fsize, nindir, nspf;
      this.optim, this.csp, this.cstotal, this.disk, this.ptrs := optim, csp, cstotal, disk, ptrs;
    }

    /** Every group is consistent. */
    ghost predicate Groups()
      reads this`disk
    {
      && geo.Valid() && 0 < ncg == |disk| && csp.Length == ncg
      && forall g :: 0 <= g < ncg ==> disk[g].Good(geo)
    }

    /** The in-core summaries agree with the groups and with each other. */
    ghost predicate Summed()
      requires Groups()
      reads this`disk, this`cstotal, csp
    {
      && (forall g :: 0 <= g < ncg ==> csp[g] == disk[g].cs)
      && cstotal == Sum(csp[..])
    }

    /** Nothing past the end of the disk is free, nor is the boot block; inode 0 is in use. */
    ghost predicate Reserved()
      requires Groups()
      reads this`disk
    {
      && size <= ncg * geo.fpg
      && (forall g: nat, d: nat :: g < ncg && d < |disk[g].free| && disk[g].free[d] ==> 0 < Address(g, d) < size)
      && disk[0].iused[0]
    }

    ghost predicate Valid()
      reads this`disk, this`cstotal, csp
    {
      Groups() && Summed() && Reserved()
    }

    /** The absolute address of fragment `d` of group `g`. */
    function Address(g: nat, d: nat): nat {
      g * geo.fpg + d
    }

    method Bread(g: nat) returns (cgp: Cg)
      requires Groups() && g < ncg
      ensures fresh(cgp) && fresh(cgp.free) && fresh(cgp.frsum) && fresh(cgp.btot) && fresh(cgp.b) && fresh(cgp.iused)
      ensures cgp.geo == geo && cgp.cgx == g && cgp.Data() == disk[g] && cgp.Valid() && cgp.InodesValid()
      ensures cgp.free != cgp.iused && cgp.free[..] == disk[g].free && cgp.iused[..] == disk[g].iused
        && cgp.cs == disk[g].cs
    {
      cgp := new Cg(geo, g, disk[g]);
      assert cgp.Data().iused == cgp.iused[..] && cgp.Data().free == cgp.free[..];
      cgp.ValidIsGood();
    }

    method Bdwrite(g: nat, cgp: Cg)
      requires Groups() && g < ncg && cgp.geo == geo && cgp.Sized() && cgp.iused.Length == geo.ipg
      modifies this`disk
      ensures disk == old(disk)[g := cgp.Data()]
      ensures Groups() <==> cgp.Valid() && cgp.InodesValid()
    {
      cgp.ValidIsGood();
      disk := disk[g := cgp.Data()];
      assert disk[g] == cgp.Data();
    }

    /** The two lines beside each change of a group's nbfree. */
    method AddNbfree(g: nat, d: int)
      requires g < csp.Length
      modifies this`cstotal, csp
      ensures csp[..] == old(csp[..])[g := old(csp[g]).(nbfree := old(csp[g]).nbfree + d)]
      ensures cstotal == old(cstotal).(nbfree := old(cstotal.nbfree) + d)
    {
      cstotal := cstotal.(nbfree := cstotal.nbfree + d);
      csp[g] := csp[g].(nbfree := csp[g].nbfree + d);
    }

    /** The two lines beside each change of a group's nffree. */
    method AddNffree(g: nat, d: int)
      requires g < csp.Length
      modifies this`cstotal, csp
      ensures csp[..] == old(csp[..])[g := old(csp[g]).(nffree := old(csp[g]).nffree + d)]
      ensures cstotal == old(cstotal).(nffree := old(cstotal.nffree) + d)
    {
      cstotal := cstotal.(nffree := cstotal.nffree + d);
      csp[g] := csp[g].(nffree := csp[g].nffree + d);
    }

    /** The in-core summaries follow the group in the buffer. */
    ghost predicate Following(g: nat, cs: Csum)
      reads this, csp
    {
      && Groups() && g < ncg
      && (forall h :: 0 <= h < ncg && h != g ==> csp[h] == disk[h].cs)
      && csp[g] == cs && cstotal == Sum(csp[..])
    }

    /** alloccgblk on the buffer of a group: the address of a whole block, now taken, or 0. */
    method Alloccgblk(cgp: Cg, bpref: nat) returns (bno: int, ghost d: int)
      requires cgp.geo == geo && cgp.Valid() && cgp.InodesValid() && Following(cgp.cgx, cgp.cs)
      requires forall x: nat :: x < cgp.free.Length && cgp.free[x] ==> Address(cgp.cgx, x) > 0
      modifies this`cstotal, csp, cgp`cs, cgp`rotor, cgp`frotor, cgp.free, cgp.btot, cgp.b
      ensures cgp.Valid() && cgp.InodesValid() && Following(cgp.cgx, cgp.cs)
      ensures bno == 0 <==> old(cgp.cs.nbfree) == 0
      ensures bno == 0 ==> cgp.free[..] == old(cgp.free[..]) && cgp.cs == old(cgp.cs)
      ensures bno != 0 ==> d >= 0 && bno == Address(cgp.cgx, d) > 0
      ensures bno != 0 ==> Fragnum(geo.frag, d) == 0 && d + geo.frag <= geo.fpg <= cgp.free.Length
      ensures bno != 0 ==> forall x :: d <= x < d + geo.frag ==> old(cgp.free[x])
      ensures bno != 0 ==> cgp.free[..] == Fill(old(cgp.free[..]), d, geo.frag, false)
      ensures bpref != 0 && BlockFree(geo.frag, old(cgp.free[..]), PrefPlace(geo, bpref)) ==>
        bno != 0 && d == PrefPlace(geo, bpref)
    {
      hide Address, Sum, Total, Blocks, BlockFree, PrefPlace;
      var x := cgp.Alloccgblk(bpref);
      d := x;
      if x < 0 {
        return 0, -1;
      }
      AddNbfree(cgp.cgx, -1);
      SumUpdate(old(csp[..]), cgp.cgx, csp[cgp.cgx]);
      bno := Address(cgp.cgx, x);
    }

    lemma RoomInGroup(cg: CgData, size: nat)
      requires cg.Good(geo) && 1 <= size <= geo.frag
      ensures size == geo.frag ==> (Room(geo, cg, size) <==> cg.cs.nbfree != 0)
      ensures cg.cs.nbfree != 0 ==> Room(geo, cg, size)
    {
      hide Total, Blocks;
      TotalPositive(WholeBlocks, cg.Map(geo));
      MapSize(geo);
      forall j: nat | j < geo.MapBlocks()
        ensures BlockHasRun(cg.Map(geo), j, geo.frag) <==> Value(WholeBlocks, j, cg.Map(geo)[j]) > 0
      {
        WholeIsRun(cg.Map(geo)[j]);
      }
    }

    lemma RunsFitBlocks(cg: CgData)
      requires cg.Good(geo)
      ensures forall j: nat, k: nat :: BlockHasRun(cg.Map(geo), j, k) ==> k <= geo.frag
    {
      MapSize(geo);
    }

    /** The end of each routine: the in-core summaries follow the buffer, and the buffer goes back. */
    method Finish(g: nat, cgp: Cg)
      requires Following(g, cgp.cs) && cgp.geo == geo && cgp.Sized()
      requires Reserved() && cgp.free.Length == |disk[g].free| && cgp.iused[..] == disk[g].iused
      requires forall d :: 0 <= d < cgp.free.Length && cgp.free[d] && !disk[g].free[d] ==> 0 < Address(g, d) < size
      modifies this`disk
      ensures Valid() <==> cgp.Valid() && cgp.InodesValid()
      ensures InodeBits(disk) == old(InodeBits(disk))
      ensures Bits(disk) == old(Bits(disk))[g := cgp.free[..]]
    {
      hide Address, Sum, Total, Blocks;
      Bdwrite(g, cgp);
      assert forall h :: 0 <= h < ncg ==> InodeBits(disk)[h] == old(InodeBits(disk))[h];
    }

    /** A group whose preferred block is free counts a free block. */
    lemma FreeIsRoom(cg: CgData, bpref: nat)
      requires cg.Good(geo)
      ensures BlockFree(geo.frag, cg.free, PrefPlace(geo, bpref)) ==> Room(geo, cg, geo.frag)
    {
      hide Total, PrefPlace, Blocks;
      MapSize(geo);
      PrefWhole(geo, cg.free, bpref);
      var j := Fragstoblks(geo.frag, PrefPlace(geo, bpref));
      if BlockFree(geo.frag, cg.free, PrefPlace(geo, bpref)) {
        WholeIsRun(cg.Map(geo)[j]);
        assert BlockHasRun(cg.Map(geo), j, geo.frag);
      }
    }

    /** alloccg for a whole block. */
    method AllocWhole(g: nat, bpref: nat) returns (bno: int, ghost d: int)
      requires Valid() && g < ncg
      modifies this`cstotal, this`disk, csp
      ensures Valid()
      ensures bno == 0 <==> !old(Room(geo, disk[g], geo.frag))
      ensures bno == 0 ==> disk == old(disk) && cstotal == old(cstotal)
      ensures bno != 0 ==>
        d >= 0 && bno == Address(g, d) > 0 && Moved(geo, old(Bits(disk)), Bits(disk), g, d, geo.frag, false)
      ensures bpref != 0 && BlockFree(geo.frag, old(disk)[g].free, PrefPlace(geo, bpref)) ==>
        bno != 0 && d == PrefPlace(geo, bpref)
      ensures InodeBits(disk) == old(InodeBits(disk))
    {
      hide Address, Sum, Total, Blocks, PrefPlace, Room, Cg.Valid, Cg.InodesValid, CgData.Good, Fill, Fragnum;
      d := -1;
      MapSize(geo);
      FreeIsRoom(disk[g], bpref);
      RoomInGroup(disk[g], geo.frag);
      if csp[g].nbfree == 0 {
        return 0, -1;
      }
      var cgp := Bread(g);
      if cgp.cs.nbfree == 0 {
        return 0, -1;
      }
      bno, d := Alloccgblk(cgp, bpref);
      Finish(g, cgp);
    }

    lemma DtogdAddress(g: nat, d: nat)
      requires geo.Valid() && d < geo.fpg
      ensures geo.Dtogd(Address(g, d)) == d
    {
      DivModUnique(Address(g, d), geo.fpg, g, d);
    }

    /** A group has room exactly when it counts a long enough run, or a whole block. */
    lemma RoomBySize(cgp: Cg, cg: CgData, size: nat, allocsiz: nat)
      requires cgp.geo == geo && cgp.Valid() && cg.Good(geo) && cgp.free[..] == cg.free && cgp.cs == cg.cs
      requires 1 <= size < geo.frag && size <= allocsiz <= geo.frag
      requires allocsiz < geo.frag ==> exists j: nat :: BlockHasRun(cgp.Map(), j, allocsiz)
      requires forall k: nat, j: nat :: size <= k < allocsiz ==> !BlockHasRun(cgp.Map(), j, k)
      ensures Room(geo, cg, size) <==> allocsiz < geo.frag || cgp.cs.nbfree != 0
    {
      hide Total, Blocks, HasRun;
      RoomInGroup(cg, size);
      RunsFitBlocks(cg);
      cgp.AnyBlockFree();
      assert cg.Map(geo) == cgp.Map();
    }

    /** alloccg's use of mapsearch: take `size` fragments from a run of `allocsiz` known to exist. */
    method TakeRun(g: nat, cgp: Cg, bpref: nat, allocsiz: nat, size: nat) returns (bno: int, ghost d: int)
      requires cgp.geo == geo && cgp.Valid() && cgp.InodesValid() && Following(g, cgp.cs)
      requires 1 <= size <= allocsiz < geo.frag && exists j: nat :: BlockHasRun(cgp.Map(), j, allocsiz)
      modifies this`cstotal, csp, cgp`cs, cgp`frotor, cgp.free, cgp.frsum
      ensures cgp.Valid() && cgp.InodesValid() && Following(g, cgp.cs)
      ensures d >= 0 && bno == Address(g, d) && Fragnum(geo.frag, d) + size <= geo.frag
        && d + size <= geo.fpg <= cgp.free.Length
      ensures forall x :: d <= x < d + size ==> old(cgp.free[x])
      ensures cgp.free[..] == Fill(old(cgp.free[..]), d, size, false)
    {
      hide Address, Sum, Total, Blocks, HasRun, Fill, Fragnum;
      ghost var j: nat :| BlockHasRun(cgp.Map(), j, allocsiz);
      var x := cgp.Mapsearch(bpref, allocsiz);
      if x < 0 {
        assert false;    // mapsearch panics instead of failing, and here it does neither
      }
      d := x;
      cgp.TakeFrags(x, allocsiz, size);
      AddNffree(g, -(size as int));
      SumUpdate(old(csp[..]), g, csp[g]);
      bno := Address(g, x);
    }

    /** alloccg breaking up a whole block: its first `size` fragments are taken, the others become loose. */
    method HackBlock(g: nat, cgp: Cg, bpref: nat, size: nat) returns (bno: int, ghost d: int)
      requires cgp.geo == geo && cgp.cgx == g && cgp.Valid() && cgp.InodesValid() && Following(g, cgp.cs)
      requires forall x: nat :: x < cgp.free.Length && cgp.free[x] ==> Address(g, x) > 0
      requires 1 <= size < geo.frag && cgp.cs.nbfree != 0
      modifies this`cstotal, csp, cgp`cs, cgp`rotor, cgp`frotor, cgp.free, cgp.frsum, cgp.btot, cgp.b
      ensures cgp.Valid() && cgp.InodesValid() && Following(g, cgp.cs)
      ensures d >= 0 && bno == Address(g, d) > 0 && Fragnum(geo.frag, d) + size <= geo.frag
        && d + size <= geo.fpg <= cgp.free.Length
      ensures forall x :: d <= x < d + size ==> old(cgp.free[x])
      ensures cgp.free[..] == Fill(old(cgp.free[..]), d, size, false)
    {
      hide Address, Sum, Total, Blocks, Fill, Fragnum;
      bno, d := Alloccgblk(cgp, bpref);
      var x := geo.Dtogd(bno);
      DtogdAddress(g, d);
      FillTwice(old(cgp.free[..]), d, geo.frag, size);
      cgp.HackUp(x, size);
      ghost var before := csp[..];
      AddNffree(g, geo.frag - size);
      SumUpdate(before, g, csp[g]);
    }

    /** alloccg for less than a block: from the smallest run that is long enough, or else from a whole block. */
    method AllocPart(g: nat, bpref: nat, size: nat) returns (bno: int, ghost d: int)
      requires Valid() && g < ncg && 1 <= size < geo.frag
      modifies this`cstotal, this`disk, csp
      ensures Valid()
      ensures bno == 0 <==> !old(Room(geo, disk[g], size))
      ensures bno == 0 ==> disk == old(disk) && cstotal == old(cstotal)
      ensures bno != 0 ==>
        d >= 0 && bno == Address(g, d) > 0 && Moved(geo, old(Bits(disk)), Bits(disk), g, d, size, false)
      ensures InodeBits(disk) == old(InodeBits(disk))
    {
      hide Address, Sum, Total, Blocks, Room, Cg.Valid, Cg.InodesValid, CgData.Good, Fill, Fragnum;
      d := -1;
      MapSize(geo);
      RoomInGroup(disk[g], size);
      var cgp := Bread(g);
      var allocsiz := cgp.AllocSize(size);
      RoomBySize(cgp, disk[g], size, allocsiz);
      if allocsiz == geo.frag {
        if cgp.cs.nbfree == 0 {
          return 0, -1;
        }
        bno, d := HackBlock(g, cgp, bpref, size);
      } else {
        bno, d := TakeRun(g, cgp, bpref, allocsiz, size);
      }
      Finish(g, cgp);
    }

    /** alloccg: `size` fragments of one block of group `g`, now taken; their address, or 0. */
    method Alloccg(g: nat, bpref: nat, size: nat) returns (bno: int, ghost d: int)
      requires Valid() && g < ncg && 1 <= size <= geo.frag
      modifies this`cstotal, this`disk, csp
      ensures Valid()
      ensures bno == 0 <==> !old(Room(geo, disk[g], size))
      ensures bno == 0 ==> disk == old(disk) && cstotal == old(cstotal)
      ensures bno != 0 ==>
        d >= 0 && bno == Address(g, d) > 0 && Moved(geo, old(Bits(disk)), Bits(disk), g, d, size, false)
      ensures size == geo.frag && bpref != 0 && BlockFree(geo.frag, old(disk)[g].free, PrefPlace(geo, bpref)) ==>
        bno != 0 && d == PrefPlace(geo, bpref)
      ensures InodeBits(disk) == old(InodeBits(disk))
    {
      hide Valid, Moved, Room, Address, PrefPlace;
      if size == geo.frag {
        bno, d := AllocWhole(g, bpref);
      } else {
        bno, d := AllocPart(g, bpref, size);
      }
    }

    /** dtog: the group of an absolute address. */
    function Dtog(bno: nat): nat
      requires geo.fpg > 0
    {
      bno / geo.fpg
    }

    lemma AddressParts(bno: nat)
      requires geo.Valid()
      ensures Address(Dtog(bno), geo.Dtogd(bno)) == bno && geo.Dtogd(bno) < geo.fpg
      ensures Fragnum(geo.frag, geo.Dtogd(bno)) == Fragnum(geo.frag, bno)
      ensures bno < ncg * geo.fpg ==> Dtog(bno) < ncg
    {
      DivMod(bno, geo.fpg);
      var g, d, a := Dtog(bno), geo.Dtogd(bno), geo.fpg / geo.frag;
      DivMod(geo.fpg, geo.frag);
      DivMod(d, geo.frag);
      assert bno == (g * a + d / geo.frag) * geo.frag + d % geo.frag by {
        assert g * geo.fpg == (g * a) * geo.frag;
      }
      DivModUnique(bno, geo.frag, g * a + d / geo.frag, d % geo.frag);
      if bno < ncg * geo.fpg && ncg <= g {
        MulStepWeak(ncg, g, geo.fpg);
      }
    }

    /** The `n` fragments from `bno` on are in use. */
    ghost predicate InUse(bno: nat, n: nat)
      requires Groups()
      reads this`disk
    {
      && bno < ncg * geo.fpg && Fragnum(geo.frag, bno) + n <= geo.frag
      && (AddressParts(bno); geo.Dtogd(bno) + n <= |disk[Dtog(bno)].free|
          && forall x :: geo.Dtogd(bno) <= x < geo.Dtogd(bno) + n ==> !disk[Dtog(bno)].free[x])
    }

    /** The `n` fragments from `bno` on are free. */
    ghost predicate AllFree(bno: nat, n: nat)
      requires Groups()
      reads this`disk
    {
      && bno < ncg * geo.fpg && Fragnum(geo.frag, bno) + n <= geo.frag
      && (AddressParts(bno); geo.Dtogd(bno) + n <= |disk[Dtog(bno)].free|
          && forall x :: geo.Dtogd(bno) <= x < geo.Dtogd(bno) + n ==> disk[Dtog(bno)].free[x])
    }

    /** The fragments `osize` up to `nsize` places after `bprev` are in its block and free. */
    ghost predicate FreeBehind(bprev: nat, osize: nat, nsize: nat)
      requires Groups() && bprev < ncg * geo.fpg
      reads this`disk
    {
      && Fragnum(geo.frag, bprev) + nsize <= geo.frag
      && (AddressParts(bprev); MapSize(geo);
          forall x :: geo.Dtogd(bprev) + osize <= x < geo.Dtogd(bprev) + nsize ==>
            x < |disk[Dtog(bprev)].free| && disk[Dtog(bprev)].free[x])
    }

    lemma PieceFits(bno: nat, k: nat, n: nat)
      requires Groups() && bno < ncg * geo.fpg && Fragnum(geo.frag, bno) + n <= geo.frag && k < n
      ensures Dtog(bno) < ncg && geo.Dtogd(bno) + n <= geo.fpg <= |disk[Dtog(bno)].free|
      ensures Fragnum(geo.frag, geo.Dtogd(bno) + k) == Fragnum(geo.frag, bno) + k
    {
      AddressParts(bno);
      MapSize(geo);
      var d := geo.Dtogd(bno);
      FragSplit(geo.frag, d);
      var j := Fragstoblks(geo.frag, d);
      FragJoin(geo.frag, j, Fragnum(geo.frag, d) + k);
      BlksOrder(geo.frag, geo.fpg / geo.frag, j);
      BlksOrder(geo.frag, j, geo.fpg / geo.frag);
    }

    lemma BlockEdge(bprev: nat, nsize: nat)
      requires geo.Valid() && 1 <= nsize <= geo.frag
      ensures Fragnum(geo.frag, bprev) > Fragnum(geo.frag, bprev + nsize - 1) <==>
        Fragnum(geo.frag, bprev) + nsize > geo.frag
    {
      FragSplit(geo.frag, bprev);
      var j, o := Fragstoblks(geo.frag, bprev), Fragnum(geo.frag, bprev);
      BlksOrder(geo.frag, j, j);
      if o + nsize <= geo.frag {
        FragJoin(geo.frag, j, o + nsize - 1);
      } else {
        FragJoin(geo.frag, j + 1, o + nsize - 1 - geo.frag);
      }
    }

    static lemma LooseRun(j: nat, b: seq<bool>, o: nat, i: nat, n: nat)
      requires o < |b| && !b[o] && i + n <= |b| && forall x :: i <= x < i + n ==> b[x]
      ensures n <= Value(LooseFrags, j, b)
    {
      assert Interval(i, n) <= FreeSet(b);
      SubsetSize(Interval(i, n), FreeSet(b));
    }

    /** Free fragments in a block that is partly in use are in the count of loose fragments. */
    lemma SummaryVouches(cg: CgData, d: nat, osize: nat, nsize: nat)
      requires cg.Good(geo) && d < geo.fpg && 1 <= osize < nsize && Fragnum(geo.frag, d) + nsize <= geo.frag
      requires d + nsize <= |cg.free| && !cg.free[d] && forall x :: d + osize <= x < d + nsize ==> cg.free[x]
      ensures nsize - osize <= cg.cs.nffree
    {
      hide Total, Geometry.MapBlocks, Geometry.MapBytes;
      MapSize(geo);
      FragSplit(geo.frag, d);
      var j, o := Fragstoblks(geo.frag, d), Fragnum(geo.frag, d);
      BlksOrder(geo.frag, geo.MapBlocks(), j);
      BlksOrder(geo.frag, j, geo.MapBlocks());
      var b := cg.Map(geo)[j];
      assert forall x :: 0 <= x < geo.frag ==> b[x] == cg.free[Blkstofrags(geo.frag, j) + x];
      assert |b| == geo.frag;
      assert !b[o] && forall x :: o + osize <= x < o + nsize ==> b[x];
      LooseRun(j, b, o, o + osize, nsize - osize);
      TotalAtLeast(LooseFrags, cg.Map(geo), j);
    }

    /**
     fragextend: grow the piece of `osize` fragments at `bprev` to `nsize` in place; `bprev` or 0.  It succeeds
     exactly when the block reaches that far and the fragments behind the piece are free.
     */
    method Fragextend(bprev: nat, osize: nat, nsize: nat) returns (bno: int)
      requires Valid() && 1 <= osize < nsize <= geo.frag && InUse(bprev, osize) && 0 < bprev
      modifies this`cstotal, this`disk, csp
      ensures Valid()
      ensures bno == 0 || bno == bprev
      ensures bno != 0 <==> old(FreeBehind(bprev, osize, nsize))
      ensures bno == 0 ==> disk == old(disk) && cstotal == old(cstotal)
      ensures bno != 0 ==> Moved(geo, old(Bits(disk)), Bits(disk), Dtog(bprev), geo.Dtogd(bprev) + osize, nsize - osize,
        false)
      ensures InodeBits(disk) == old(InodeBits(disk))
    {
      hide Address, Sum, Total, Blocks, Cg.Valid, CgData.Good, Fill, Dtog, Geometry.Dtogd, Fragnum;
      AddressParts(bprev);
      BlockEdge(bprev, nsize);
      PieceFits(bprev, 0, osize);
      var g := Dtog(bprev);
      if Fragnum(geo.frag, bprev) + nsize <= geo.frag {
        PieceFits(bprev, osize, nsize);
        if FreeBehind(bprev, osize, nsize) {
          SummaryVouches(disk[g], geo.Dtogd(bprev), osize, nsize);
        }
      }
      if csp[g].nffree < nsize - osize {
        return 0;
      }
      var bbase := Fragnum(geo.frag, bprev);
      if bbase > Fragnum(geo.frag, bprev + nsize - 1) {
        return 0;
      }
      var ok := ExtendInGroup(g, geo.Dtogd(bprev), osize, nsize);
      bno := if ok then bprev else 0;
    }

    /** The part of fragextend between bread and bdwrite. */
    method ExtendInGroup(g: nat, d: nat, osize: nat, nsize: nat) returns (ok: bool)
      requires Valid() && g < ncg && 1 <= osize < nsize && Fragnum(geo.frag, d) + nsize <= geo.frag && d < geo.fpg
      requires d + nsize <= geo.fpg <= |disk[g].free| && !disk[g].free[d + osize - 1]
      requires Fragnum(geo.frag, d + osize) == Fragnum(geo.frag, d) + osize
      modifies this`cstotal, this`disk, csp
      ensures Valid()
      ensures ok <==> forall x :: d + osize <= x < d + nsize ==> old(disk)[g].free[x]
      ensures !ok ==> disk == old(disk) && cstotal == old(cstotal)
      ensures ok ==> Moved(geo, old(Bits(disk)), Bits(disk), g, d + osize, nsize - osize, false)
      ensures InodeBits(disk) == old(InodeBits(disk))
    {
      hide Address, Sum, Total, Blocks, Cg.Valid, CgData.Good, Fill, Fragnum;
      var cgp := Bread(g);
      ok := cgp.ExtendFrags(d, osize, nsize);
      if ok {
        AddNffree(g, -(nsize - osize));
        SumUpdate(old(csp[..]), g, csp[g]);
        Finish(g, cgp);
      }
    }

    /** free of a whole block of group `g`. */
    method FreeWhole(g: nat, d: nat) returns (out: Outcome)
      requires Valid() && g < ncg && d < geo.fpg && Fragnum(geo.frag, d) == 0
        && d + geo.frag <= geo.fpg <= |disk[g].free|
      requires 0 < Address(g, d) && Address(g, d) + geo.frag <= size
      modifies this`cstotal, this`disk, csp
      ensures out == Panic <==> forall x :: d <= x < d + geo.frag ==> old(disk)[g].free[x]
      ensures out != Done ==> out == Panic && Valid() && disk == old(disk)
      ensures out == Done ==> Bits(disk) == old(Bits(disk))[g := Fill(old(disk)[g].free, d, geo.frag, true)]
      ensures out == Done ==> (Valid() <==> forall x :: d <= x < d + geo.frag ==> !old(disk)[g].free[x])
      ensures InodeBits(disk) == old(InodeBits(disk))
    {
      hide Address, Sum, Total, Blocks, Cg.Valid, CgData.Good, Fill, Fragnum, Reserved;
      AddressesInPiece(g, d);
      var cgp := Bread(g);
      var ok := cgp.FreeBlock(d);
      if !ok {
        return Panic;
      }
      AddNbfree(g, 1);
      SumUpdate(old(csp[..]), g, csp[g]);
      Finish(g, cgp);
      out := Done;
    }

    lemma AddressesInPiece(g: nat, d: nat)
      ensures forall x: nat :: d <= x ==> Address(g, x) == Address(g, d) + (x - d)
    {
    }

    /** free of `n` fragments, fewer than a block, of group `g`. */
    method FreePart(g: nat, d: nat, n: nat) returns (out: Outcome)
      requires Valid() && g < ncg && d < geo.fpg && 1 <= n < geo.frag && Fragnum(geo.frag, d) + n <= geo.frag
      requires d + n <= geo.fpg <= |disk[g].free| && 0 < Address(g, d) && Address(g, d) + n <= size
      modifies this`cstotal, this`disk, csp
      ensures out == Done <==> forall x :: d <= x < d + n ==> !old(disk)[g].free[x]
      ensures out != Done ==> out == Panic
      ensures out == Done ==> Valid() && Bits(disk) == old(Bits(disk))[g := Fill(old(disk)[g].free, d, n, true)]
      ensures InodeBits(disk) == old(InodeBits(disk))
    {
      hide Address, Sum, Total, Blocks, Cg.Valid, CgData.Good, Fill, Fragnum, Reserved;
      AddressesInPiece(g, d);
      var cgp := Bread(g);
      var ok, whole := cgp.FreeFrags(d, n);
      if !ok {
        return Panic;
      }
      CountFreed(g, n, whole);
      SumUpdate(old(csp[..]), g, csp[g]);
      Finish(g, cgp);
      out := Done;
    }

    /** The lines of free beside the change of a group's counts. */
    method CountFreed(g: nat, n: nat, whole: bool)
      requires g < csp.Length
      modifies this`cstotal, csp
      ensures var x, y := if whole then 1 else 0, if whole then n - geo.frag else n;
        && csp[..] == old(csp[..])[g := old(csp[g]).(nbfree := old(csp[g]).nbfree + x, nffree :=
            old(csp[g]).nffree + y)]
        && cstotal == old(cstotal).(nbfree := old(cstotal.nbfree) + x, nffree := old(cstotal.nffree) + y)
    {
      AddNffree(g, n);
      if whole {
        AddNffree(g, -(geo.frag as int));
        AddNbfree(g, 1);
      }
    }

    /**
     free: put `n` fragments back.  Freeing what is in use always succeeds.  Freeing part of a block that is free
     already is caught; freeing a whole block is caught only if all of it was free, and otherwise leaves the
     summaries wrong.
     */
    method Free(bno: nat, n: nat) returns (out: Outcome)
      requires Valid() && 1 <= n <= geo.frag && Fragnum(geo.frag, bno) + n <= geo.frag && 0 < bno
        && (bno < size ==> bno + n <= size)
      modifies this`cstotal, this`disk, csp
      ensures out == BadBlock <==> bno >= size
      ensures out == BadBlock ==> Valid() && disk == old(disk) && cstotal == old(cstotal)
      ensures bno < size ==> bno < ncg * geo.fpg
      ensures bno < size && old(InUse(bno, n)) ==> out == Done
      ensures bno < size ==> (out == Done <==> if n == geo.frag then !old(AllFree(bno, n)) else old(InUse(bno, n)))
      ensures out == Done ==> (Valid() <==> old(InUse(bno, n)))
      ensures out == Done && old(InUse(bno, n)) ==>
        Moved(geo, old(Bits(disk)), Bits(disk), Dtog(bno), geo.Dtogd(bno), n, true)
      ensures InodeBits(disk) == old(InodeBits(disk))
    {
      hide Sum, Total, Blocks, Fill, Address, Dtog, Geometry.Dtogd, Fragnum, CgData.Good;
      AddressParts(bno);
      if bno >= size {
        return BadBlock;
      }
      PieceFits(bno, 0, n);
      var g, d := Dtog(bno), geo.Dtogd(bno);
      assert InUse(bno, n) ==> !disk[g].free[d];
      if n == geo.frag {
        out := FreeWhole(g, d);
      } else {
        out := FreePart(g, d, n);
      }
    }

    // -------------------------------------------------------------------------------------------------
    // Inodes
    // -------------------------------------------------------------------------------------------------

    ghost predicate InodeLeft(cg: CgData) {
      exists i :: 0 <= i < |cg.iused| && !cg.iused[i]
    }

    /** The lines of ialloccg and ifree beside each change of a group's inode counts. */
    method AddInode(g: nat, d: int, dir: bool)
      requires g < csp.Length
      modifies this`cstotal, csp
      ensures csp[..] == old(csp[..])[g := old(csp[g]).(nifree := old(csp[g]).nifree + d, ndir :=
        old(csp[g]).ndir - if dir then d else 0)]
      ensures cstotal == old(cstotal).(nifree := old(cstotal.nifree) + d, ndir := old(cstotal.ndir) - if dir then d
        else 0)
    {
      cstotal := cstotal.(nifree := cstotal.nifree + d);
      csp[g] := csp[g].(nifree := csp[g].nifree + d);
      if dir {
        cstotal := cstotal.(ndir := cstotal.ndir - d);
        csp[g] := csp[g].(ndir := csp[g].ndir - d);
      }
    }

    /** Writing back a group of which only the inode side changed. */
    method FinishInode(g: nat, cgp: Cg)
      requires Following(g, cgp.cs) && cgp.geo == geo && cgp.Valid() && cgp.InodesValid() && Reserved()
      requires cgp.free[..] == disk[g].free && (g == 0 ==> cgp.iused[0])
      modifies this`disk
      ensures Valid() && Bits(disk) == old(Bits(disk))
      ensures InodeBits(disk) == old(InodeBits(disk))[g := cgp.iused[..]]
    {
      hide Address, Sum, Total, Blocks;
      Bdwrite(g, cgp);
      assert forall h :: 0 <= h < ncg ==> Bits(disk)[h] == old(Bits(disk))[h];
    }

    /** The inode counts after `d` more inodes are free, of a directory or not. */
    predicate Counted(was: Csum, now: Csum, d: int, dir: bool) {
      && now.nifree == was.nifree + d && now.ndir == was.ndir - (if dir then d else 0)
      && now.nbfree == was.nbfree && now.nffree == was.nffree
    }

    /** ialloccg: an inode of group `g`, now in use; its number, or 0. */
    method Ialloccg(g: nat, ipref: nat, dir: bool) returns (ino: int, ghost i: int)
      requires Valid() && g < ncg
      modifies this`cstotal, this`disk, csp
      ensures Valid()
      ensures ino == 0 <==> !InodeLeft(old(disk)[g])
      ensures ino == 0 ==> disk == old(disk) && cstotal == old(cstotal)
      ensures ino != 0 ==>
        0 <= i < geo.ipg == |old(disk)[g].iused| && ino == g * geo.ipg + i > 0 && !old(disk)[g].iused[i]
      ensures ino != 0 ==> InodeBits(disk) == old(InodeBits(disk))[g := old(disk)[g].iused[i := true]]
      ensures ino != 0 ==> Counted(old(cstotal), cstotal, -1, dir) && Counted(old(csp[g]), csp[g], -1, dir)
      ensures ino != 0 ==> forall h :: 0 <= h < ncg && h != g ==> csp[h] == old(csp[h])
      ensures InodeFree(geo, old(disk)[g].iused, ipref) ==> ino != 0 && i == InodePlace(geo, ipref)
      ensures Bits(disk) == old(Bits(disk))
    {
      hide Address, Sum, Total, Blocks, Cg.Valid, Cg.InodesValid, CgData.Good, InodeLeft, InodeFree, InodePlace;
      i := -1;
      InodeCount(disk[g]);
      FreeIsLeft(disk[g], ipref);
      if csp[g].nifree == 0 {
        return 0, -1;
      }
      var cgp := Bread(g);
      if cgp.cs.nifree == 0 {
        return 0, -1;
      }
      var x := cgp.TakeInode(ipref, dir);
      i := x;
      AddInode(g, -1, dir);
      SumUpdate(old(csp[..]), g, csp[g]);
      FinishInode(g, cgp);
      ino := g * geo.ipg + x;
    }

    lemma FreeIsLeft(cg: CgData, ipref: nat)
      ensures InodeFree(geo, cg.iused, ipref) ==> InodeLeft(cg)
    {
    }

    lemma InodeCount(cg: CgData)
      requires cg.Good(geo)
      ensures cg.cs.nifree == 0 <==> !InodeLeft(cg)
      ensures |cg.iused| == geo.ipg > 0
    {
      if InodeLeft(cg) {
        var i: nat :| i < |cg.iused| && !cg.iused[i];
        assert i in CylGroup.Unused(cg.iused);
      } else {
        assert CylGroup.Unused(cg.iused) == {};
      }
    }

    /** itog: the group of an inode. */
    function Itog(ino: nat): nat
      requires 0 < geo.ipg
    {
      ino / geo.ipg
    }

    /** The place of an inode within its group. */
    function Ioff(ino: nat): nat
      requires 0 < geo.ipg
    {
      ino % geo.ipg
    }

    lemma InodeParts(ino: nat)
      requires Groups()
      ensures ino < geo.ipg * ncg ==> Itog(ino) < ncg
      ensures Ioff(ino) < geo.ipg && forall g :: 0 <= g < ncg ==> |disk[g].iused| == geo.ipg
      ensures 0 < ino && Itog(ino) == 0 ==> Ioff(ino) != 0
    {
      DivMod(ino, geo.ipg);
      if ino < geo.ipg * ncg && ncg <= ino / geo.ipg {
        MulStepWeak(ncg, ino / geo.ipg, geo.ipg);
      }
    }

    ghost predicate InodeInUse(ino: nat)
      requires Groups()
      reads this`disk
    {
      ino < geo.ipg * ncg && (InodeParts(ino); disk[Itog(ino)].iused[Ioff(ino)])
    }

    /** ifree; `ok` is false for its two panics, a number out of range and a free inode. */
    method Ifree(ino: nat, dir: bool) returns (ok: bool)
      requires Valid() && 0 < ino
      modifies this`cstotal, this`disk, csp
      ensures Valid()
      ensures ok <==> old(InodeInUse(ino))
      ensures !ok ==> disk == old(disk) && cstotal == old(cstotal)
      ensures ok ==> Itog(ino) < ncg && Ioff(ino) < |old(disk)[Itog(ino)].iused|
      ensures ok ==> InodeBits(disk) == old(InodeBits(disk))[Itog(ino) :=
        old(disk)[Itog(ino)].iused[Ioff(ino) := false]]
      ensures ok ==>
        Counted(old(cstotal), cstotal, 1, dir) && Counted(old(csp[Itog(ino)]), csp[Itog(ino)], 1, dir)
        && forall h :: 0 <= h < ncg && h != Itog(ino) ==> csp[h] == old(csp[h])
      ensures Bits(disk) == old(Bits(disk))
    {
      hide Address, Sum, Total, Blocks, Cg.Valid, Cg.InodesValid, CgData.Good, Itog, Ioff;
      InodeParts(ino);
      if ino >= geo.ipg * ncg {
        return false;
      }
      var g := Itog(ino);
      InodeCount(disk[g]);
      var cgp := Bread(g);
      ok := cgp.GiveInode(Ioff(ino), dir);
      if ok {
        AddInode(g, 1, dir);
        SumUpdate(old(csp[..]), g, csp[g]);
        FinishInode(g, cgp);
      }
    }

    // -------------------------------------------------------------------------------------------------
    // Over all groups
    // -------------------------------------------------------------------------------------------------

    ghost predicate Available(cg: CgData, rq: Request)
      requires cg.Sized(geo)
    {
      match rq
      case Fragments(n) => Room(geo, cg, n)
      case Inode(_) => InodeLeft(cg)
    }

    /** What was preferred is to be had in this group. */
    predicate Preferred(cg: CgData, rq: Request, pref: nat)
      requires geo.Valid()
    {
      match rq
      case Fragments(n) => n == geo.frag && pref != 0 && BlockFree(geo.frag, cg.free, PrefPlace(geo, pref))
      case Inode(_) => InodeFree(geo, cg.iused, pref)
    }

    /** Where in the group that is. */
    function PreferredPlace(rq: Request, pref: nat): nat
      requires geo.Valid()
    {
      match rq
      case Fragments(_) => PrefPlace(geo, pref)
      case Inode(_) => InodePlace(geo, pref)
    }

    /**
     The result `r` names what was asked for, in group `g` at `d`: it was free, now is not, and all else is as before.
     */
    ghost predicate Granted(rq: Request, before: seq<CgData>, after: seq<CgData>, g: nat, d: int, r: int) {
      match rq
      case Fragments(n) =>
        d >= 0 && r == Address(g, d) > 0 && Moved(geo, Bits(before), Bits(after), g, d, n, false)
          && InodeBits(after) == InodeBits(before)
      case Inode(_) =>
        && g < |before| && 0 <= d < |before[g].iused| && r == g * geo.ipg + d > 0 && !before[g].iused[d]
        && InodeBits(after) == InodeBits(before)[g := before[g].iused[d := true]] && Bits(after) == Bits(before)
    }

    /** A call through the function pointer hashalloc is handed. */
    method Allocator(rq: Request, g: nat, pref: nat) returns (r: int, ghost d: int)
      requires Valid() && g < ncg && (rq.Fragments? ==> 1 <= rq.size <= geo.frag)
      modifies this`cstotal, this`disk, csp
      ensures Valid()
      ensures r == 0 <==> !Available(old(disk)[g], rq)
      ensures r == 0 ==> disk == old(disk) && cstotal == old(cstotal)
      ensures r != 0 ==> Granted(rq, old(disk), disk, g, d, r)
      ensures Preferred(old(disk)[g], rq, pref) ==> r != 0 && d == PreferredPlace(rq, pref)
      ensures r != 0 && rq.Inode? ==> Counted(old(cstotal), cstotal, -1, rq.dir)
    {
      hide PrefPlace, BlockFree, InodeFree, Room, InodeLeft, Moved, Address, CgData.Good, Reserved, Summed;
      match rq
      case Fragments(n) =>
        r, d := Alloccg(g, pref, n);
      case Inode(dir) =>
        r, d := Ialloccg(g, pref, dir);
    }

    /** hashalloc: the preferred group, then a quadratic rehash, then every group; 0 only if no group can serve. */
    method Hashalloc(icg: nat, pref: nat, rq: Request) returns (r: int, ghost g: nat, ghost d: int)
      requires Valid() && icg < ncg && (rq.Fragments? ==> 1 <= rq.size <= geo.frag)
      modifies this`cstotal, this`disk, csp
      ensures Valid()
      ensures r == 0 <==> forall h: nat :: h < ncg ==> !Available(old(disk)[h], rq)
      ensures r == 0 ==> disk == old(disk) && cstotal == old(cstotal)
      ensures r != 0 ==> g < ncg && Granted(rq, old(disk), disk, g, d, r)
      ensures Available(old(disk)[icg], rq) ==> g == icg
      ensures Preferred(old(disk)[icg], rq, pref) ==> r != 0 && g == icg && d == PreferredPlace(rq, pref)
      ensures r != 0 && rq.Inode? ==> Counted(old(cstotal), cstotal, -1, rq.dir)
    {
      hide Valid, Available, Granted, Preferred, PreferredPlace, Counted;
      AllSized();
      g := icg;
      r, d := Allocator(rq, icg, pref);
      if r == 0 {
        r, g, d := Rehash(icg, rq);
      }
    }

    /** The two loops of hashalloc, when the preferred group has failed. */
    method Rehash(icg: nat, rq: Request) returns (r: int, ghost g: nat, ghost d: int)
      requires Valid() && icg < ncg && (rq.Fragments? ==> 1 <= rq.size <= geo.frag) && !Available(disk[icg], rq)
      modifies this`cstotal, this`disk, csp
      ensures Valid()
      ensures r == 0 <==> forall h: nat :: h < ncg ==> !Available(old(disk)[h], rq)
      ensures r == 0 ==> disk == old(disk) && cstotal == old(cstotal)
      ensures r != 0 ==> g < ncg && Granted(rq, old(disk), disk, g, d, r)
      ensures r != 0 && rq.Inode? ==> Counted(old(cstotal), cstotal, -1, rq.dir)
    {
      hide Valid, Available, Granted, Preferred, PreferredPlace, Counted;
      AllSized();
      ghost var tried: set<nat> := {icg};
      var cg: nat := icg;
      g, r, d := icg, 0, 0;
      var i := 1;
      while i < ncg
        invariant 1 <= i && cg < ncg && (i == 1 ==> cg == icg)
        invariant Valid() && disk == old(disk) && cstotal == old(cstotal)
        invariant icg in tried && NoLuck(old(disk), rq, tried)
        invariant i > 1 ==> forall h: nat :: h < ncg && Ahead(icg, h) == 1 ==> h in tried
        decreases ncg - i
      {
        cg := cg + i;
        if cg >= ncg {
          cg := cg - ncg;
        }
        g := cg;
        r, d := Allocator(rq, cg, 0);
        if r != 0 {
          return;
        }
        tried := tried + {cg};
        i := i * 2;
      }
      cg := (icg + 2) % ncg;
      TwoAhead(icg);
      i := 2;
      while i < ncg
        invariant 2 <= i && cg < ncg && (i < ncg ==> Ahead(icg, cg) == i)
        invariant Valid() && disk == old(disk) && cstotal == old(cstotal)
        invariant icg in tried && NoLuck(old(disk), rq, tried)
        invariant forall h: nat :: h < ncg && 1 <= Ahead(icg, h) < i ==> h in tried
      {
        g := cg;
        r, d := Allocator(rq, cg, 0);
        if r != 0 {
          return;
        }
        tried := tried + {cg};
        cg := cg + 1;
        if cg == ncg {
          cg := 0;
        }
        i := i + 1;
      }
      assert forall h: nat :: h < ncg && Ahead(icg, h) >= 0 ==> h in tried;
    }

    lemma AllSized()
      requires Valid()
      ensures |disk| == ncg && forall h: nat :: h < ncg ==> disk[h].Sized(geo)
    {
    }

    /** No group in `tried` can serve the request. */
    ghost predicate NoLuck(was: seq<CgData>, rq: Request, tried: set<nat>) {
      forall h: nat :: h in tried && h < |was| && was[h].Sized(geo) ==> !Available(was[h], rq)
    }

    /** How many groups on from `icg` group `h` is, counting round. */
    ghost function Ahead(icg: nat, h: nat): int {
      if icg <= h then h - icg else h + ncg - icg
    }

    lemma TwoAhead(icg: nat)
      requires icg < ncg
      ensures (icg + 2) % ncg < ncg && (2 < ncg ==> Ahead(icg, (icg + 2) % ncg) == 2)
    {
      if 2 < ncg {
        DivModUnique(icg + 2, ncg, if icg + 2 >= ncg then 1 else 0, if icg + 2 >= ncg then icg + 2 - ncg else icg + 2);
      }
    }

    // -------------------------------------------------------------------------------------------------
    // The allocator as its callers see it: one set of free fragments
    // -------------------------------------------------------------------------------------------------

    ghost function FreeNow(): set<nat>
      reads this`disk
    {
      if geo.fpg == 0 then {} else FreeSpace.FreeFrags(geo.fpg, Bits(disk))
    }

    function Pointers(): BlockTree.Store
      reads this`ptrs
    {
      BlockTree.Store(geo.frag, nindir, size, ptrs)
    }

    /** The fragments free in all, by the summaries. */
    function FreeTotal(): int
      reads this`cstotal
    {
      geo.frag * cstotal.nbfree + cstotal.nffree
    }

    lemma FreeTotalIsSize()
      requires Valid()
      ensures FreeTotal() == |FreeNow()|
    {
      assert forall g :: 0 <= g < ncg ==> csp[..][g] == disk[g].cs;
      FreeCount(geo, disk, csp[..]);
    }

    /** The `n` fragments from `bno` on are on the disk, within one block, and in use. */
    ghost predicate Held(bno: nat, n: nat)
      requires Groups()
      reads this`disk
    {
      && 0 < bno && 1 <= n <= geo.frag && Fragnum(geo.frag, bno) + n <= geo.frag && bno + n <= size
      && Interval(bno, n) !! FreeNow()
    }

    lemma HeldInUse(bno: nat, n: nat)
      requires Valid() && Held(bno, n)
      ensures InUse(bno, n) && Address(Dtog(bno), geo.Dtogd(bno)) == bno
    {
      hide CgData.Good, Fragnum;
      AddressParts(bno);
      PieceFits(bno, 0, n);
      var g, d := Dtog(bno), geo.Dtogd(bno);
      forall x | d <= x < d + n
        ensures !disk[g].free[x]
      {
        FreeAtPlace(g, x);
        assert Address(g, x) == bno + (x - d);
        assert Address(g, x) in Interval(bno, n);
      }
    }

    lemma FreeAtPlace(g: nat, x: nat)
      requires Groups() && g < ncg && x < geo.fpg
      ensures x < |disk[g].free| && (Address(g, x) in FreeNow() <==> disk[g].free[x])
    {
      MapSize(geo);
      var a := Address(g, x);
      InGroup(geo.fpg, g, x, 1, a);
      InRange(geo.fpg, ncg, a);
      assert FreeAt(geo.fpg, Bits(disk), a) <==> disk[g].free[x];
    }

    /** The free set and the free count after `n` fragments of one block were taken. */
    lemma Taken(before: seq<CgData>, g: nat, d: nat, n: nat, bno: nat)
      requires Valid() && bno == Address(g, d) && |before| == ncg && 1 <= n <= geo.frag
      requires Moved(geo, Bits(before), Bits(disk), g, d, n, false)
      requires forall h: nat, x: nat :: h < ncg && x < |before[h].free| && before[h].free[x] ==>
        0 < Address(h, x) < size
      ensures Held(bno, n)
      ensures var was := FreeSpace.FreeFrags(geo.fpg, Bits(before));
              && FreeNow() == was - Interval(bno, n) && Interval(bno, n) <= was && FreeTotal() == |was| - n
    {
      hide CgData.Good, Summed;
      MovedFree(geo, Bits(before), Bits(disk), g, d, n, false, bno);
      AddressParts(bno);
      InGroup(geo.fpg, g, d, n, bno);
      assert before[g].free[d] && before[g].free[d + n - 1];
      assert Address(g, d + n - 1) == bno + n - 1;
      var was := FreeSpace.FreeFrags(geo.fpg, Bits(before));
      assert was == FreeNow() + Interval(bno, n);
      FreeTotalIsSize();
    }

    lemma AllReserved()
      requires Valid()
      ensures forall h: nat, x: nat :: h < ncg && x < |disk[h].free| && disk[h].free[x] ==> 0 < Address(h, x) < size
    {
    }

    /** free, of fragments that are in use. */
    method Release(bno: nat, n: nat)
      requires Valid() && Held(bno, n)
      modifies this`cstotal, this`disk, csp
      ensures Valid() && FreeNow() == old(FreeNow()) + Interval(bno, n)
      ensures FreeTotal() == old(FreeTotal()) + n
      ensures InodeBits(disk) == old(InodeBits(disk))
    {
      hide CgData.Good, Summed, Reserved, Fragnum;
      HeldInUse(bno, n);
      FreeTotalIsSize();
      var out := Free(bno, n);
      MovedFree(geo, old(Bits(disk)), Bits(disk), Dtog(bno), geo.Dtogd(bno), n, true, bno);
      FreeTotalIsSize();
    }

    /** freespace: what is left for users other than the superuser. */
    function Freespace(): int
      reads this`cstotal
    {
      FreeTotal() - Quot(dsize * minfree, 100)
    }

    /** What is free in fact, less the part of the disk that is held back, in hundredths. */
    lemma FreespaceIs()
      requires Valid() && 0 <= dsize * minfree
      ensures Freespace() == |FreeNow()| - dsize * minfree / 100
    {
      FreeTotalIsSize();
    }

    /** There is no whole block to be had. */
    ghost predicate Exhausted(uid: nat)
      requires Groups()
      reads this`disk, this`cstotal
    {
      (uid != 0 && Freespace() <= 0) || forall g: nat :: g < ncg ==> !Room(geo, disk[g], geo.frag)
    }

    /**
     A piece of `osize` fragments cannot become one of `nsize`: the reserve is reached, or the fragments behind it are
     not free and no group has room for one. To save time the code then asks for a whole block.
     */
    ghost predicate CannotGrow(bprev: nat, osize: nat, nsize: nat, uid: nat)
      requires Groups()
      reads this`disk, this`cstotal, this`optim
    {
      || (uid != 0 && Freespace() <= 0)
      || (!(bprev < ncg * geo.fpg && FreeBehind(bprev, osize, nsize))
          && forall g: nat :: g < ncg ==> !Room(geo, disk[g], if optim == FS_OPTTIME then geo.frag else nsize))
    }

    lemma NoBlocks()
      requires Valid() && cstotal.nbfree == 0
      ensures forall g: nat :: g < ncg ==> !Room(geo, disk[g], geo.frag)
    {
      hide Room, Total, Blocks, Sum;
      forall g: nat | g < ncg
        ensures csp[..][g].nbfree >= 0 && (csp[..][g].nbfree == 0 ==> !Room(geo, disk[g], geo.frag))
      {
        MapSize(geo);
        RoomInGroup(disk[g], geo.frag);
      }
      SumZero(csp[..]);
    }

    lemma PrefGroup(pref: nat)
      requires Valid() && pref < size
      ensures Dtog(pref) < ncg
    {
      AddressParts(pref);
    }

    /** blknum: the first fragment of the block that a fragment is in. */
    function Blknum(bpref: nat): nat {
      if geo.frag == 0 then 0 else bpref - bpref % geo.frag
    }

    /** The preferred address is on the disk, and its block is free. */
    ghost predicate PreferredFree(bpref: nat)
      reads this`disk
    {
      Groups() && 0 < bpref < size && AllFree(Blknum(bpref), geo.frag)
    }

    /** The group to look in first: that of the preferred address, or if there is none on the disk, the file's. */
    function Home(icg: nat, bpref: nat): nat {
      if geo.fpg != 0 && 0 < bpref < size then bpref / geo.fpg else icg
    }

    predicate InHome(bno: int, icg: nat, bpref: nat) {
      geo.fpg != 0 && bno / geo.fpg == Home(icg, bpref)
    }

    /** Group `g` has room for a piece. */
    ghost predicate RoomIn(g: nat, n: nat)
      reads this`disk
    {
      Groups() && g < ncg && Room(geo, disk[g], n)
    }

    /** Where hashalloc starts: the group of the preferred block, if there is one on the disk, or else `icg`. */
    function StartGroup(icg: nat, pref: nat): (cg: nat)
      requires 0 < geo.fpg
    {
      if pref == 0 then icg else Dtog(pref)
    }

    /**
     alloc: `n` fragments of one block for the file whose inode is in group `icg`; their address, or 0.
     It fails exactly when the reserve is reached, for users other than the superuser, or no group has room.
     */
    method Alloc(icg: nat, bpref: nat, n: nat, uid: nat) returns (bno: int)
      requires Valid() && icg < ncg && 1 <= n <= geo.frag
      modifies this`cstotal, this`disk, csp
      ensures Valid() && InodeBits(disk) == old(InodeBits(disk))
      ensures bno == 0 <==> (uid != 0 && old(Freespace()) <= 0) || forall g: nat :: g < ncg ==>
        !Room(geo, old(disk)[g], n)
      ensures bno == 0 ==> disk == old(disk) && cstotal == old(cstotal)
      ensures bno != 0 ==> bno > 0 && Held(bno, n)
      ensures bno != 0 ==> Interval(bno, n) <= old(FreeNow()) && FreeNow() == old(FreeNow()) - Interval(bno, n)
      ensures bno != 0 ==> FreeTotal() == old(FreeTotal()) - n
      ensures bno != 0 && n == geo.frag && old(PreferredFree(bpref)) ==> bno == Blknum(bpref)
      ensures bno != 0 && old(RoomIn(Home(icg, bpref), n)) ==> InHome(bno, icg, bpref)
    {
      hide CgData.Good, Room, Summed, Reserved, Dtog, Fragnum, PreferredFree, Preferred, PreferredPlace, RoomIn, Blknum,
        Home, InHome, StartGroup;
      HomeFacts(icg, bpref, n);
      if n == geo.frag && cstotal.nbfree == 0 {
        NoBlocks();
        return 0;
      }
      if uid != 0 && Freespace() <= 0 {
        return 0;
      }
      var pref := if bpref >= size then 0 else bpref;
      if pref != 0 {
        PrefGroup(pref);
      }
      AllReserved();
      FreeTotalIsSize();
      ghost var g, d;
      bno, g, d := Hashalloc(StartGroup(icg, pref), pref, Fragments(n));
      if bno <= 0 {
        return;
      }
      Taken(old(disk), g, d, n, bno);
      InHomeIs(old(disk), icg, bpref, g, d, n);
    }

    /** A piece that was taken is in the group it was taken from. */
    lemma InHomeIs(before: seq<CgData>, icg: nat, bpref: nat, g: nat, d: nat, n: nat)
      requires geo.Valid() && 1 <= n && Moved(geo, Bits(before), Bits(disk), g, d, n, false)
      ensures InHome(Address(g, d), icg, bpref) <==> g == Home(icg, bpref)
    {
      DivModUnique(Address(g, d), geo.fpg, g, d);
    }

    lemma HomeIs(bprev: nat)
      requires 0 < geo.fpg && 0 < bprev < size
      ensures Home(0, bprev) == Dtog(bprev) && forall bno: int :: InHome(bno, Dtog(bprev), 0) == InHome(bno, 0, bprev)
    {
    }

    /** The block that a preferred address is in. */
    lemma PrefAddress(bpref: nat)
      requires Groups() && bpref < ncg * geo.fpg
      ensures Dtog(bpref) < ncg && Address(Dtog(bpref), PrefPlace(geo, bpref)) == Blknum(bpref)
      ensures AllFree(Blknum(bpref), geo.frag) ==>
        BlockFree(geo.frag, disk[Dtog(bpref)].free, PrefPlace(geo, bpref))
    {
      hide CgData.Good, Fragnum, Address, Dtog, Geometry.Dtogd, Blknum;
      AddressParts(bpref);
      PrefBlknum(bpref);
      AddressParts(Blknum(bpref));
    }

    lemma PrefBlknum(bpref: nat)
      requires geo.Valid()
      ensures PrefPlace(geo, bpref) == geo.Dtogd(Blknum(bpref)) && Dtog(Blknum(bpref)) == Dtog(bpref)
      ensures Blknum(bpref) <= bpref
    {
      AlignDown(bpref, geo.frag);
      SameGroup(geo.fpg, geo.frag, bpref - bpref % geo.frag, bpref % geo.frag);
    }

    /** A block does not lie across the end of a group. */
    static lemma SameGroup(fpg: nat, frag: nat, x: nat, k: nat)
      requires 0 < frag && 0 < fpg && fpg % frag == 0 && x % frag == 0 && k < frag
      ensures (x + k) / fpg == x / fpg
    {
      DivMod(x, fpg);
      AlignedMod(x, fpg, frag);
      var t, p := x / fpg, x % fpg;
      DivMod(p, frag);
      DivMod(fpg, frag);
      var a, b := p / frag, fpg / frag;
      if a < b {
        MulStep(a, b, frag);
      } else {
        MulStepWeak(b, a, frag);
      }
      DivModUnique(x + k, fpg, t, p + k);
    }

    /** What hashalloc is asked for. */
    lemma HomeFacts(icg: nat, bpref: nat, n: nat)
      requires Valid() && icg < ncg && 1 <= n <= geo.frag
      ensures 0 < geo.fpg && Home(icg, bpref) == StartGroup(icg, if bpref >= size then 0 else bpref) < ncg
      ensures n == geo.frag && PreferredFree(bpref) ==>
        && Preferred(disk[Home(icg, bpref)], Fragments(n), bpref) && bpref < size
        && Blknum(bpref) == Address(Home(icg, bpref), PreferredPlace(Fragments(n), bpref))
      ensures RoomIn(Home(icg, bpref), n) ==> Available(disk[Home(icg, bpref)], Fragments(n))
    {
      hide CgData.Good, Room, Summed, PrefPlace, BlockFree, Blknum, AllFree, Address;
      if 0 < bpref < size {
        PrefGroup(bpref);
        PrefAddress(bpref);
      }
    }

    /** What to optimize for after a piece could not grow in place. */
    function NextOptim(): int
      reads this`optim, this`cstotal
    {
      if || (optim == FS_OPTTIME && cstotal.nffree < Quot(dsize * (minfree - 2), 100))
         || (optim == FS_OPTSPACE && minfree >= 5 && cstotal.nffree <= Quot(dsize * minfree, 2 * 100))
      then FS_OPTTIME else FS_OPTSPACE
    }

    /**
     The choice realloccg makes by fs_optim: how much to ask for, and what to optimize for from now on.  Asking for
     time is given up once fragmentation is within 2% of the reserve, and taken up again below half of it.
     */
    method ChooseRequest(nsize: nat) returns (request: nat)
      requires 1 <= nsize <= geo.frag
      modifies this`optim
      ensures request == if old(optim) == FS_OPTTIME then geo.frag else nsize
      ensures optim == old(NextOptim()) && (optim == FS_OPTTIME || optim == FS_OPTSPACE)
      ensures optim == FS_OPTTIME <==>
                || (old(optim) == FS_OPTTIME && cstotal.nffree < Quot(dsize * (minfree - 2), 100))
                || (old(optim) == FS_OPTSPACE && minfree >= 5 && cstotal.nffree <= Quot(dsize * minfree, 2 * 100))
    {
      if optim == FS_OPTSPACE {
        request := nsize;
        if !(minfree < 5 || cstotal.nffree > Quot(dsize * minfree, 2 * 100)) {
          optim := FS_OPTTIME;
        }
      } else if optim == FS_OPTTIME {
        request := geo.frag;
        if !(cstotal.nffree < Quot(dsize * (minfree - 2), 100)) {
          optim := FS_OPTSPACE;
        }
      } else {
        optim := FS_OPTSPACE;
        request := nsize;
      }
    }

    /** hashalloc, then free of the old piece and of what is left over of the new one. */
    method Relocate(cg: nat, bprev: nat, pref: nat, osize: nat, nsize: nat, request: nat) returns (bno: int)
      requires Valid() && cg < ncg && 1 <= osize <= nsize <= request <= geo.frag && Held(bprev, osize)
      modifies this`cstotal, this`disk, csp
      ensures Valid() && InodeBits(disk) == old(InodeBits(disk))
      ensures bno == 0 <==> forall g: nat :: g < ncg ==> !Room(geo, old(disk)[g], request)
      ensures bno == 0 ==> disk == old(disk) && cstotal == old(cstotal)
      ensures bno != 0 ==> bno > 0 && Held(bno, nsize) && Interval(bno, nsize) <= old(FreeNow())
      ensures bno != 0 ==> FreeNow() == (old(FreeNow()) - Interval(bno, nsize)) + Interval(bprev, osize)
      ensures bno != 0 ==> FreeTotal() == old(FreeTotal()) - (nsize - osize)
      ensures bno != 0 && old(RoomIn(cg, request)) ==> InHome(bno, cg, 0)
    {
      hide CgData.Good, Room, Summed, Reserved, Dtog, Fragnum, FreeSpace.FreeFrags, Interval, Bits, InHome, Preferred,
        PreferredPlace;
      AllReserved();
      FreeTotalIsSize();
      ghost var g, d;
      bno, g, d := Hashalloc(cg, pref, Fragments(request));
      if bno <= 0 {
        return;
      }
      Taken(old(disk), g, d, request, bno);
      InHomeIs(old(disk), cg, 0, g, d, request);
      ghost var was, given := old(FreeNow()), Interval(bprev, osize);
      IntervalSplit(bno, nsize, request);
      Exchanged(was, Interval(bno, nsize), Interval(bno + nsize, request - nsize), Interval(bno, request), given);
      Release(bprev, osize);
      assert Held(bno, request);
      if nsize < request {
        Trim(bno, nsize, request);
      }
    }

    /** Freeing what is behind the first `k` fragments of a piece. */
    method Trim(bno: nat, k: nat, n: nat)
      requires Valid() && Held(bno, n) && k < n
      modifies this`cstotal, this`disk, csp
      ensures Valid() && InodeBits(disk) == old(InodeBits(disk))
      ensures FreeNow() == old(FreeNow()) + Interval(bno + k, n - k) && FreeTotal() == old(FreeTotal()) + (n - k)
    {
      hide CgData.Good, Summed, Reserved, Fragnum, FreeNow, Interval;
      Tail(bno, k, n);
      Release(bno + k, n - k);
    }

    /** The part of a piece in use behind its first `k` fragments. */
    lemma Tail(bno: nat, k: nat, n: nat)
      requires Groups() && Held(bno, n) && k < n
      ensures Held(bno + k, n - k) && (1 <= k ==> Held(bno, k))
    {
      hide CgData.Good, Fragnum, Fragstoblks, Blkstofrags, FreeNow, Interval;
      assert Fragnum(geo.frag, bno + k) == Fragnum(geo.frag, bno) + k by {
        FragSplit(geo.frag, bno);
        FragJoin(geo.frag, Fragstoblks(geo.frag, bno), Fragnum(geo.frag, bno) + k);
      }
      IntervalSplit(bno, k, n);
      DisjointParts(Interval(bno, n), Interval(bno, k), Interval(bno + k, n - k), FreeNow());
    }

    /** Growing a piece in place takes the fragments behind it. */
    method Extend(bprev: nat, osize: nat, nsize: nat) returns (bno: int)
      requires Valid() && 1 <= osize < nsize <= geo.frag && Held(bprev, osize) && bprev < ncg * geo.fpg
      modifies this`cstotal, this`disk, csp
      ensures Valid() && InodeBits(disk) == old(InodeBits(disk))
      ensures bno == (if old(FreeBehind(bprev, osize, nsize)) then bprev else 0)
      ensures bno == 0 ==> disk == old(disk) && cstotal == old(cstotal)
      ensures bno != 0 ==> Held(bprev, nsize) && Interval(bprev + osize, nsize - osize) <= old(FreeNow())
      ensures bno != 0 ==> FreeNow() == old(FreeNow()) - Interval(bprev + osize, nsize - osize)
      ensures bno != 0 ==> FreeTotal() == old(FreeTotal()) - (nsize - osize)
    {
      hide CgData.Good, Summed, Reserved, Dtog, Fragnum, FreeSpace.FreeFrags, InUse, Interval, Bits;
      AllReserved();
      HeldInUse(bprev, osize);
      FreeTotalIsSize();
      bno := Fragextend(bprev, osize, nsize);
      if bno == 0 {
        return;
      }
      AddressesInPiece(Dtog(bprev), geo.Dtogd(bprev));
      Taken(old(disk), Dtog(bprev), geo.Dtogd(bprev) + osize, nsize - osize, bprev + osize);
      Swapped(old(FreeNow()), Interval(bprev + osize, nsize - osize), Interval(bprev, osize));
      Join(bprev, osize, nsize);
    }

    /** A piece in use and the part in use right behind it, in the same block. */
    lemma Join(bno: nat, k: nat, n: nat)
      requires Groups() && 0 < bno && 1 <= k < n && Fragnum(geo.frag, bno) + n <= geo.frag
      requires Interval(bno, k) !! FreeNow() && Held(bno + k, n - k)
      ensures Held(bno, n)
    {
      hide CgData.Good, Fragnum, FreeNow, Interval;
      IntervalSplit(bno, k, n);
    }

    /**
     realloccg: the piece of `osize` fragments at `bprev` becomes one of `nsize`, in place if it can, or else somewhere
     else; its address, or 0.  Only the piece returned is newly taken, and the free count drops by the growth.
     */
    method Realloccg(bprev: nat, bpref: nat, osize: nat, nsize: nat, uid: nat) returns (bno: int)
      requires Valid() && 1 <= osize < nsize <= geo.frag && Held(bprev, osize)
      modifies this`cstotal, this`disk, this`optim, csp
      ensures Valid() && InodeBits(disk) == old(InodeBits(disk)) && bprev < ncg * geo.fpg
      ensures bno == 0 <==> old(CannotGrow(bprev, osize, nsize, uid))
      ensures bno == 0 ==> disk == old(disk) && cstotal == old(cstotal)
      ensures bno != 0 ==>
        bno > 0 && Held(bno, nsize) && Interval(bno, nsize) <= old(FreeNow()) + Interval(bprev, osize)
      ensures bno != 0 ==> FreeNow() == (old(FreeNow()) + Interval(bprev, osize)) - Interval(bno, nsize)
      ensures bno != 0 ==> FreeTotal() == old(FreeTotal()) - (nsize - osize)
      ensures bno != 0 ==> (bno == bprev <==> old(FreeBehind(bprev, osize, nsize)))
      ensures bno != 0 && bno != bprev ==>
        old(RoomIn(Home(0, bprev), if optim == FS_OPTTIME then geo.frag else nsize)) ==> InHome(bno, 0, bprev)
      ensures (uid != 0 && old(Freespace()) <= 0) || old(FreeBehind(bprev, osize, nsize)) ==> optim == old(optim)
      ensures !(uid != 0 && old(Freespace()) <= 0) && !old(FreeBehind(bprev, osize, nsize)) ==>
        optim == old(NextOptim())
    {
      hide CgData.Good, Room, Summed, Reserved, Dtog, Fragnum, FreeBehind, FreeSpace.FreeFrags, InHome, RoomIn;
      HeldInUse(bprev, osize);
      if uid != 0 && Freespace() <= 0 {
        return 0;
      }
      bno := Extend(bprev, osize, nsize);
      ghost var was, own := old(FreeNow()), Interval(bprev, osize);
      if bno != 0 {
        IntervalSplit(bprev, osize, nsize);
        Swapped(was, Interval(bprev + osize, nsize - osize), own);
        return;
      }
      var pref := if bpref >= size then 0 else bpref;
      var request := ChooseRequest(nsize);
      PrefGroup(bprev);
      HomeIs(bprev);
      bno := Relocate(Dtog(bprev), bprev, pref, osize, nsize, request);
      if bno != 0 {
        Swapped(was, Interval(bno, nsize), own);
        assert bprev in own && bno in Interval(bno, nsize);
      }
    }
  }

  const FS_OPTTIME := 0
  const FS_OPTSPACE := 1

  /** Division of C, toward zero. */
  function Quot(a: int, b: nat): int
    requires 0 < b
  {
    if a >= 0 then a / b else -(-a / b)
  }

  lemma {:induction false} SumZero(s: seq<Csum>)
    requires forall g :: 0 <= g < |s| ==> s[g].nbfree >= 0
    ensures Sum(s).nbfree >= 0
    ensures Sum(s).nbfree == 0 ==> forall g :: 0 <= g < |s| ==> s[g].nbfree == 0
  {
    if s != [] {
      SumZero(s[..|s| - 1]);
      assert forall g :: 0 <= g < |s| - 1 ==> s[g] == s[..|s| - 1][g];
    }
  }
}
