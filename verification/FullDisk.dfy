/**
 A small disk of which nothing is free at first: one group of four blocks, each of two fragments.
 */
module FullDisk {
  import opened FragMap
  import opened CylGroup
  import opened FreeSpace
  import opened FileSystem
  import opened BlockTree
  import opened FileMap
  import Inode

  const GEO := Geometry(2, 8, 8, 1, 1, 1, (_: nat) => 0, (_: nat) => 0, (_: nat) => 0, (_: nat, _: nat) => [0, 1, 2, 3])

  const GROUP := CgData(Csum(0, 0, 0, 0), 0, 0, 0, seq(8, _ => false), [0, 0], [0], [[0]], seq(8, _ => true))

  lemma {:induction false} NoneCounted(ms: Measure, m: seq<seq<bool>>)
    requires forall j :: 0 <= j < |m| ==> m[j] != [] && FreeSet(m[j]) == {}
    ensures Total(ms, m) == 0
    decreases |m|
  {
    if m != [] {
      NoneCounted(ms, m[..|m| - 1]);
      NothingFree(m[|m| - 1]);
    }
  }

  lemma GroupGood()
    ensures GROUP.Good(GEO)
  {
    assert GEO.Valid();
    MapSize(GEO);
    var m := GROUP.Map(GEO);
    forall j | 0 <= j < |m|
      ensures m[j] != [] && FreeSet(m[j]) == {}
    {
      assert m[j] == BlockOf(GROUP.free, 2, j);
    }
    forall ms
      ensures Total(ms, m) == 0
    {
      NoneCounted(ms, m);
    }
    assert Unused(GROUP.iused) == {};
  }

  lemma GroupIs()
    ensures |GROUP.free| == |GROUP.iused| == 8 && GROUP.cs == Csum(0, 0, 0, 0) && GROUP.iused[0]
    ensures forall d :: 0 <= d < 8 ==> !GROUP.free[d]
  {
  }

  lemma SumOne(s: seq<Csum>)
    requires |s| == 1 && s[0] == Csum(0, 0, 0, 0)
    ensures Sum(s) == Csum(0, 0, 0, 0)
  {
    var none := s[..|s| - 1];
    assert none == [] && Sum(none) == Csum(0, 0, 0, 0) && Sum(s) == Plus(Sum(none), s[0]);
  }

  lemma MountedValid(fs: Fs)
    requires fs.geo == GEO && fs.ncg == 1 && fs.size == 8 && fs.csp.Length == 1 && fs.csp[0] == Csum(0, 0, 0, 0)
    requires fs.cstotal == Csum(0, 0, 0, 0) && fs.disk == [GROUP]
    ensures fs.Valid()
  {
    GroupGood();
    GroupIs();
    hide CgData.Good, Sum;
    SumOne(fs.csp[..]);
    assert fs.disk[0] == GROUP;
  }

  method Mounted() returns (fs: Fs)
    ensures fresh(fs) && fresh(fs.csp) && fs.Valid() && fs.geo == GEO && fs.disk == [GROUP] && fs.ncg == 1
      && fs.size == 8
    ensures fs.fsize == fs.nindir == fs.nspf == 1 && fs.ptrs == map[] && fs.optim == FS_OPTTIME
  {
    hide *;
    var csp := new Csum[1](_ => Csum(0, 0, 0, 0));
    fs := new Fs(GEO, 8, 8, 0, 1, 1, 1, csp, Csum(0, 0, 0, 0), FS_OPTTIME, [GROUP], map[]);
    MountedValid(fs);
  }

  /** Block 1, in use: the places of its fragments. */
  lemma BlockOne(fs: Fs)
    requires fs.Groups() && fs.geo == GEO && fs.ncg == 1
    ensures fs.InUse(2, 1) <==> |fs.disk[0].free| >= 3 && !fs.disk[0].free[2]
    ensures fs.InUse(2, 2) <==> |fs.disk[0].free| >= 4 && !fs.disk[0].free[2] && !fs.disk[0].free[3]
    ensures fs.AllFree(2, 2) ==> |fs.disk[0].free| >= 4 && fs.disk[0].free[2] && fs.disk[0].free[3]
    ensures GEO.frag == 2 && GEO.fpg == 8 && Fragnum(2, 2) == 0 && fs.Dtog(2) == 0 && GEO.Dtogd(2) == 2
  {
    hide CgData.Good;
  }

  /** One fragment of a block is freed, and then the block: it goes through, and the counts are wrong. */
  method FreesTwice() returns (fs: Fs, out: Outcome)
    ensures fresh(fs) && out == Done && !fs.Valid()
  {
    hide *;
    fs := Mounted();
    GroupIs();
    ValidGroups(fs);
    BlockOne(fs);
    out := fs.Free(2, 1);
    ValidGroups(fs);
    BlockOne(fs);
    MovedOne(fs.disk, 2);
    out := fs.Free(2, 2);
  }

  lemma ValidGroups(fs: Fs)
    requires fs.Valid()
    ensures fs.Groups()
  {
  }

  /** One fragment of the group has become free. */
  lemma MovedOne(disk: seq<CgData>, d: nat)
    requires d < 8 && Moved(GEO, Bits([GROUP]), Bits(disk), 0, d, 1, true)
    ensures |disk| == 1 && |disk[0].free| == 8 && forall x :: 0 <= x < 8 ==> (disk[0].free[x] <==> x == d)
  {
    GroupIs();
    assert Bits(disk)[0] == disk[0].free;
  }

  /** The same in the buffer of the group. */
  method FreesBlockTwice() returns (cgp: Cg, ok: bool)
    ensures fresh(cgp) && ok && !cgp.Valid()
  {
    hide *;
    GroupGood();
    GroupIs();
    GoodIs();
    cgp := new Cg(GEO, 0, GROUP);
    DataIs(cgp);
    ghost var was := cgp.free[..];
    var done, whole := cgp.FreeFrags(2, 1);
    FillOne(was);
    assert done && cgp.free[..][2] && !cgp.free[..][3];
    ok := cgp.FreeBlock(2);
  }

  lemma FillOne(b: seq<bool>)
    requires |b| == 8
    ensures Fill(b, 2, 1, true) == b[2 := true]
  {
  }

  lemma GoodIs()
    ensures GROUP.Sized(GEO) && GEO.frag == 2 && GEO.fpg == 8 && GEO.ipg == 8 && Fragnum(2, 2) == 0
  {
    GroupGood();
  }

  lemma DataIs(cgp: Cg)
    requires cgp.geo == GEO && cgp.Sized() && cgp.Data() == GROUP
    ensures cgp.Valid() && cgp.free[..] == GROUP.free
  {
    GroupGood();
    hide CgData.Good;
    assert cgp.Data().iused == cgp.iused[..] && cgp.Data().free == cgp.free[..];
    cgp.ValidIsGood();
  }

  /** A file of one byte, in fragment 2. */
  const TAIL := File(1, 1, seq(12, i => if i == 0 then 2 else 0), seq(3, _ => 0), Store(2, 1, 8, map[]))

  lemma TailSound()
    ensures TAIL.Sound() && TAIL.Frags() == {2} && TAIL.Length(0) == 1 && Lblkno(2, 1) == 0 && TAIL.Bsize() == 2
  {
    var ps := TAIL.Pieces();
    assert ps[0] == Extent(2, 1) == Interval(2, 1) == {2};
    assert forall k :: 0 < k < NDADDR + NIADDR ==> ps[k] == {} by {
      forall k | 0 < k < NDADDR + NIADDR
        ensures ps[k] == {}
      {
        if k < NDADDR {
          assert ps[k] == Extent(TAIL.db[k], TAIL.Length(k));
        } else {
          assert ps[NDADDR + (k - NDADDR)] == TAIL.s.Frags(TAIL.ib[k - NDADDR], k - NDADDR + 1);
        }
      }
    }
    hide Union;
    forall x
      ensures x in Union(ps) <==> x == 2
    {
      InUnion(ps, x);
    }
    assert TAIL.Ended() by {
      forall bn: nat | bn < MaxBlocks(1) && 1 <= Start(2, bn)
        ensures TAIL.Lookup(bn) == 0
      {
      }
    }
  }

  /** Only fragment 3 is free. */
  lemma FreeThree(fs: Fs)
    requires fs.geo == GEO && |fs.disk| == 1 && |fs.disk[0].free| == 8
    requires forall x :: 0 <= x < 8 ==> (fs.disk[0].free[x] <==> x == 3)
    ensures fs.FreeNow() == {3}
  {
    var bits := Bits(fs.disk);
    assert bits[0] == fs.disk[0].free;
    forall a
      ensures a in FreeFrags(8, bits) <==> a == 3
    {
      assert 0 <= a < 8 ==> GroupOf(8, a) == 0 && PlaceOf(8, a) == a;
    }
  }

  lemma TailHas()
    ensures |TAIL.db| == NDADDR == 12 && |TAIL.ib| == NIADDR == 3 && TAIL.db[0] == 2 && TAIL.s.n == 1 && TAIL.size == 1
    ensures (forall i :: 0 < i < 12 ==> TAIL.db[i] == 0) && (forall i :: 0 <= i < 3 ==> TAIL.ib[i] == 0)
      && TAIL.Shaped()
  {
  }

  lemma TailIs(ip: Inode.Inode)
    requires ip.fs.geo == GEO && ip.fs.fsize == ip.fs.nindir == 1 && ip.fs.size == 8 && ip.fs.ptrs == map[]
    requires ip.db[..] == TAIL.db && ip.ib[..] == TAIL.ib
    ensures ip.FileAt(1) == TAIL
  {
  }

  lemma TailValid(ip: Inode.Inode)
    requires ip.fs.Valid() && ip.icg < ip.fs.ncg && ip.db != ip.ib && ip.FileAt(1) == TAIL && ip.fs.FreeNow() == {3}
    requires ip.blocks == 1 && ip.fs.nspf == 1 && ip.size == 1
    ensures ip.Valid()
  {
    TailSound();
    hide CgData.Good, Fs.Summed, Fs.Reserved, File.Sound;
  }

  /** The fragment behind the last block is free, so the block can grow. */
  lemma TailGrows(fs: Fs)
    requires fs.Groups() && fs.geo == GEO && fs.ncg == 1 && |fs.disk[0].free| == 8 && fs.disk[0].free[3]
    ensures !fs.CannotGrow(2, 1, 2, 0)
  {
    hide CgData.Good, Room;
    assert GEO.Dtogd(2) == 2 && fs.Dtog(2) == 0;
  }

  /**
   The file of one byte is to be written far behind its end: bmap fails, as there is no such block, and the size is that
   of a whole block.
   */
  method RoundsUpAndFails() returns (ip: Inode.Inode, was: nat, r: int)
    ensures fresh(ip) && r <= 0 && ip.Valid() && was == 1 && ip.size == 2
  {
    hide *;
    var fs := Mounted();
    GroupIs();
    ValidGroups(fs);
    PlacesAre(fs);
    var _ := fs.Free(3, 1);
    MovedOne(fs.disk, 3);
    FreeThree(fs);
    ValidGroups(fs);
    TailGrows(fs);
    var db := new nat[12](i => if i == 0 then 2 else 0);
    var ib := new nat[3](_ => 0);
    ip := new Inode.Inode(fs, 0, (_, _, _) => 0, db, ib, 1, 1);
    TailHas();
    assert db[..] == TAIL.db && ib[..] == TAIL.ib;
    TailIs(ip);
    TailValid(ip);
    TailSound();
    was := ip.size;
    ip.RoundsUpIs(MaxBlocks(1), 0);
    TwoBytes();
    r := ip.Bmap(MaxBlocks(1), true, 1, 0);
  }

  lemma TwoBytes()
    ensures Start(2, Lblkno(2, 1) + 1) == 2 && MaxBlocks(1) > 12
  {
  }

  lemma PlacesAre(fs: Fs)
    requires fs.Groups() && fs.geo == GEO && fs.ncg == 1 && fs.size == 8
    ensures fs.InUse(3, 1) <==> |fs.disk[0].free| >= 4 && !fs.disk[0].free[3]
    ensures GEO.frag == 2 && GEO.fpg == 8 && Fragnum(2, 3) == 1 && fs.Dtog(3) == 0 && GEO.Dtogd(3) == 3
  {
    hide CgData.Good;
  }
}
