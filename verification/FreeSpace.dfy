/**
 The free space of a whole file system as one set of fragment addresses.
 */
module FreeSpace {
  import opened FragTables
  import opened FragMap
  import opened CylGroup

  /** dtog: the group of an address. */
  function GroupOf(fpg: nat, a: nat): nat
    requires 0 < fpg
  {
    a / fpg
  }

  /** dtogd: the place of an address within its group. */
  function PlaceOf(fpg: nat, a: nat): nat
    requires 0 < fpg
  {
    a % fpg
  }

  /** Fragment address `a` is marked free in the maps of the groups. */
  ghost predicate FreeAt(fpg: nat, bits: seq<seq<bool>>, a: int)
    requires 0 < fpg
  {
    0 <= a && GroupOf(fpg, a) < |bits| && PlaceOf(fpg, a) < |bits[GroupOf(fpg, a)]|
      && bits[GroupOf(fpg, a)][PlaceOf(fpg, a)]
  }

  ghost function FreeBelow(fpg: nat, bits: seq<seq<bool>>, n: nat): set<nat>
    requires 0 < fpg
  {
    set a: nat | a < n && FreeAt(fpg, bits, a)
  }

  /** The addresses of the free fragments. */
  ghost function FreeFrags(fpg: nat, bits: seq<seq<bool>>): set<nat>
    requires 0 < fpg
  {
    FreeBelow(fpg, bits, |bits| * fpg)
  }

  /**
   `n` fragments of one block of group `g`, from group-relative `d` on, were `!v` and now are `v`; all else is as
   before.
   */
  ghost predicate Moved(geo: Geometry, before: seq<seq<bool>>, after: seq<seq<bool>>, g: nat, d: nat, n: nat, v: bool) {
    && 0 < geo.frag && g < |before| && d + n <= geo.fpg && d + n <= |before[g]|
    && Fragnum(geo.frag, d) + n <= geo.frag
    && (forall x :: d <= x < d + n ==> before[g][x] == !v)
    && after == before[g := Fill(before[g], d, n, v)]
  }

  lemma InGroup(fpg: nat, g: nat, d: nat, n: nat, a: nat)
    requires 0 < fpg && d + n <= fpg
    ensures g * fpg + d <= a < g * fpg + d + n <==> GroupOf(fpg, a) == g && d <= PlaceOf(fpg, a) < d + n
  {
    DivMod(a, fpg);
    if g * fpg + d <= a < g * fpg + d + n {
      DivModUnique(a, fpg, g, a - g * fpg);
    }
  }

  lemma InRange(fpg: nat, n: nat, a: nat)
    requires 0 < fpg
    ensures a < n * fpg <==> GroupOf(fpg, a) < n
  {
    DivMod(a, fpg);
    if a / fpg < n {
      MulStep(a / fpg, n, fpg);
    } else {
      MulStepWeak(n, a / fpg, fpg);
    }
  }

  lemma MovedAt(geo: Geometry, before: seq<seq<bool>>, after: seq<seq<bool>>, g: nat, d: nat, n: nat, v: bool,
        base: nat, a: nat)
    requires 0 < geo.fpg && Moved(geo, before, after, g, d, n, v) && base == g * geo.fpg + d
    ensures base <= a < base + n ==>
      FreeAt(geo.fpg, before, a) == !v && FreeAt(geo.fpg, after, a) == v && a < |before| * geo.fpg
    ensures !(base <= a < base + n) ==> FreeAt(geo.fpg, after, a) == FreeAt(geo.fpg, before, a)
  {
    hide GroupOf, PlaceOf;
    InGroup(geo.fpg, g, d, n, a);
    InRange(geo.fpg, |before|, a);
  }

  /** A move adds an interval of addresses to the free set, or takes one out of it. */
  lemma MovedFree(geo: Geometry, before: seq<seq<bool>>, after: seq<seq<bool>>, g: nat, d: nat, n: nat, v: bool,
        base: nat)
    requires 0 < geo.fpg && Moved(geo, before, after, g, d, n, v) && base == g * geo.fpg + d
    ensures var was, now, piece := FreeFrags(geo.fpg, before), FreeFrags(geo.fpg, after), Interval(base, n);
            if v then now == was + piece && piece !! was else now == was - piece && piece <= was
  {
    hide FreeAt;
    forall a: int | 0 <= a
      ensures base <= a < base + n ==>
        FreeAt(geo.fpg, before, a) == !v && FreeAt(geo.fpg, after, a) == v && a < |before| * geo.fpg
      ensures !(base <= a < base + n) ==> FreeAt(geo.fpg, after, a) == FreeAt(geo.fpg, before, a)
    {
      MovedAt(geo, before, after, g, d, n, v, base, a);
    }
    assert |after| == |before|;
  }

  // ---------------------------------------------------------------------------------------------------
  // The counts are the size of the set
  // ---------------------------------------------------------------------------------------------------

  ghost function Below(bits: seq<bool>, n: nat): set<nat> {
    set i: nat | i < |bits| && i < n && bits[i]
  }

  ghost function Count(bits: seq<bool>, n: nat): nat
    requires n <= |bits|
  {
    if n == 0 then 0 else Count(bits, n - 1) + if bits[n - 1] then 1 else 0
  }

  lemma {:induction false} CountIsSize(bits: seq<bool>, n: nat)
    requires n <= |bits|
    ensures Count(bits, n) == |Below(bits, n)|
  {
    if n == 0 {
      assert Below(bits, n) == {};
    } else {
      CountIsSize(bits, n - 1);
      assert Below(bits, n) == Below(bits, n - 1) + if bits[n - 1] then {n - 1} else {};
    }
  }

  lemma {:induction false} CountPiece(bits: seq<bool>, at: nat, b: seq<bool>, o: nat)
    requires o <= |b| && at + |b| <= |bits| && forall o :: 0 <= o < |b| ==> b[o] == bits[at + o]
    ensures Count(bits, at + o) == Count(bits, at) + Count(b, o)
  {
    if o > 0 {
      CountPiece(bits, at, b, o - 1);
      assert b[o - 1] == bits[at + (o - 1)];
    }
  }

  lemma BelowPiece(bits: seq<bool>, at: nat, b: seq<bool>)
    requires at + |b| <= |bits| && forall o :: 0 <= o < |b| ==> b[o] == bits[at + o]
    ensures |Below(bits, at + |b|)| == |Below(bits, at)| + |FreeSet(b)|
  {
    CountPiece(bits, at, b, |b|);
    CountIsSize(bits, at + |b|);
    CountIsSize(bits, at);
    CountIsSize(b, |b|);
    assert FreeSet(b) == Below(b, |b|);
  }

  /** The free bits up to the end of a block are those before it and those of the block. */
  lemma BelowBlock(bits: seq<bool>, frag: nat, n: nat)
    requires 0 < n && n * frag <= |bits|
    ensures (n - 1) * frag + frag == n * frag
    ensures |Below(bits, n * frag)| == |Below(bits, (n - 1) * frag)| + |FreeSet(Blocks(bits, frag, n)[n - 1])|
  {
    hide Blocks, Below;
    MulStep(n - 1, n, frag);
    assert (n - 1) * frag + frag == n * frag;
    var at, b := (n - 1) * frag, Blocks(bits, frag, n)[n - 1];
    forall o | 0 <= o < frag
      ensures b[o] == bits[at + o]
    {
      BlockBit(bits, frag, n, n - 1, o);
    }
    BelowPiece(bits, at, b);
  }

  lemma BlocksPrefix(bits: seq<bool>, frag: nat, n: nat)
    requires 0 < n && n * frag <= |bits|
    ensures (n - 1) * frag <= |bits| && Blocks(bits, frag, n)[..n - 1] == Blocks(bits, frag, n - 1)
  {
    MulStep(n - 1, n, frag);
  }

  /** Whole blocks and loose fragments together account for every free bit. */
  lemma {:induction false} BlockCounts(bits: seq<bool>, frag: nat, n: nat)
    requires 0 < frag && n * frag <= |bits|
    ensures frag * Total(WholeBlocks, Blocks(bits, frag, n)) + Total(LooseFrags, Blocks(bits, frag, n)) ==
      |Below(bits, n * frag)|
  {
    hide Blocks, Below;
    var m := Blocks(bits, frag, n);
    if n == 0 {
      assert Below(bits, n * frag) == {} by { BelowNone(bits, n * frag); }
    } else {
      BlocksPrefix(bits, frag, n);
      BlockCounts(bits, frag, n - 1);
      BelowBlock(bits, frag, n);
      FullSize(m[n - 1]);
      var w := Total(WholeBlocks, m[..n - 1]);
      assert Total(WholeBlocks, m) == w + Value(WholeBlocks, n - 1, m[n - 1]);
      assert frag * (w + 1) == frag * w + frag;
    }
  }

  lemma BelowNone(bits: seq<bool>, n: nat)
    requires n == 0
    ensures Below(bits, n) == {}
  {
  }

  // ---------------------------------------------------------------------------------------------------
  // Over all groups
  // ---------------------------------------------------------------------------------------------------

  ghost function Plus(a: Csum, b: Csum): Csum {
    Csum(a.ndir + b.ndir, a.nbfree + b.nbfree, a.nifree + b.nifree, a.nffree + b.nffree)
  }

  ghost function Sum(s: seq<Csum>): Csum {
    if s == [] then Csum(0, 0, 0, 0) else Plus(Sum(s[..|s| - 1]), s[|s| - 1])
  }

  lemma {:induction false} SumUpdate(s: seq<Csum>, g: nat, c: Csum)
    requires g < |s|
    ensures Plus(Sum(s[g := c]), s[g]) == Plus(Sum(s), c)
  {
    var n := |s| - 1;
    if g == n {
      assert s[g := c][..n] == s[..n];
    } else {
      assert s[g := c][..n] == s[..n][g := c];
      SumUpdate(s[..n], g, c);
    }
  }

  ghost function Bits(disk: seq<CgData>): (maps: seq<seq<bool>>)
    ensures |maps| == |disk|
  {
    seq(|disk|, g requires 0 <= g < |disk| => disk[g].free)
  }

  ghost function InodeBits(disk: seq<CgData>): (maps: seq<seq<bool>>)
    ensures |maps| == |disk|
  {
    seq(|disk|, g requires 0 <= g < |disk| => disk[g].iused)
  }

  ghost function CountFree(fpg: nat, bits: seq<seq<bool>>, n: nat): nat
    requires 0 < fpg
  {
    if n == 0 then 0 else CountFree(fpg, bits, n - 1) + if FreeAt(fpg, bits, n - 1) then 1 else 0
  }

  lemma {:induction false} CountFreeIsSize(fpg: nat, bits: seq<seq<bool>>, n: nat)
    requires 0 < fpg
    ensures CountFree(fpg, bits, n) == |FreeBelow(fpg, bits, n)|
  {
    hide FreeAt;
    if n == 0 {
      assert FreeBelow(fpg, bits, n) == {};
    } else {
      CountFreeIsSize(fpg, bits, n - 1);
      assert FreeBelow(fpg, bits, n) == FreeBelow(fpg, bits, n - 1) + if FreeAt(fpg, bits, n - 1) then {n - 1} else {};
    }
  }

  lemma {:induction false} CountGroup(fpg: nat, bits: seq<seq<bool>>, g: nat, base: nat, x: nat)
    requires 0 < fpg && g < |bits| && x <= fpg <= |bits[g]| && base == g * fpg
    ensures CountFree(fpg, bits, base + x) == CountFree(fpg, bits, base) + Count(bits[g], x)
  {
    if x > 0 {
      CountGroup(fpg, bits, g, base, x - 1);
      InGroup(fpg, g, x - 1, 1, base + (x - 1));
    }
  }

  /** A group's two counts account for the free bits below fs_fpg, as there are none above. */
  lemma GroupCounts(geo: Geometry, cg: CgData)
    requires cg.Good(geo)
    ensures geo.fpg <= |cg.free| && geo.frag * cg.cs.nbfree + cg.cs.nffree == Count(cg.free, geo.fpg)
  {
    hide Blocks, Total;
    MapSize(geo);
    BlockCounts(cg.free, geo.frag, geo.MapBlocks());
    CountIsSize(cg.free, geo.fpg);
    assert Below(cg.free, geo.MapBlocks() * geo.frag) == Below(cg.free, geo.fpg);
  }

  lemma {:induction false} GroupsCount(geo: Geometry, disk: seq<CgData>, cs: seq<Csum>, n: nat)
    requires 0 < geo.fpg && n <= |disk| == |cs| && forall g :: 0 <= g < |disk| ==>
      disk[g].Good(geo) && cs[g] == disk[g].cs
    ensures CountFree(geo.fpg, Bits(disk), n * geo.fpg) == geo.frag * Sum(cs[..n]).nbfree + Sum(cs[..n]).nffree
  {
    hide CgData.Good, Count, CountFree;
    if n == 0 {
      CountNone(geo.fpg, Bits(disk), n * geo.fpg);
    } else {
      GroupsCount(geo, disk, cs, n - 1);
      GroupCounts(geo, disk[n - 1]);
      ProductStep(n - 1, geo.fpg);
      CountGroup(geo.fpg, Bits(disk), n - 1, (n - 1) * geo.fpg, geo.fpg);
      assert cs[..n][..n - 1] == cs[..n - 1];
      ProductSum(geo.frag, Sum(cs[..n - 1]).nbfree, cs[n - 1].nbfree);
    }
  }

  lemma CountNone(fpg: nat, bits: seq<seq<bool>>, n: nat)
    requires 0 < fpg && n == 0
    ensures CountFree(fpg, bits, n) == 0
  {
  }

  lemma ProductStep(n: nat, k: nat)
    ensures n * k + k == (n + 1) * k
  {
  }

  lemma ProductSum(k: nat, a: int, b: int)
    ensures k * (a + b) == k * a + k * b
  {
  }

  /** The totals count the free fragments: each whole block is fs_frag of them, and the loose ones are the rest. */
  lemma FreeCount(geo: Geometry, disk: seq<CgData>, cs: seq<Csum>)
    requires 0 < geo.fpg && |disk| == |cs| && forall g :: 0 <= g < |disk| ==> disk[g].Good(geo) && cs[g] == disk[g].cs
    ensures geo.frag * Sum(cs).nbfree + Sum(cs).nffree == |FreeFrags(geo.fpg, Bits(disk))|
  {
    hide CgData.Good, FreeAt;
    GroupsCount(geo, disk, cs, |disk|);
    assert cs[..|disk|] == cs;
    CountFreeIsSize(geo.fpg, Bits(disk), |disk| * geo.fpg);
  }
}
