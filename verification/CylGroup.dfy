/**
 A cylinder group: its free map, the summaries kept beside the map, and the routines of bsd/ufs_alloc.c that
 search and edit one group.
 */
module CylGroup {
  import opened FragTables
  import opened FragMap

  const NBBY: nat := 8

  /** struct csum. */
  datatype Csum = Csum(ndir: int, nbfree: int, nifree: int, nffree: int)

  /**
   The constants of a file system's layout.  Which cylinder and rotational position a block lies in is left
   open: `cyl` and `rpos` are any functions of the block number.  `chain(c, p)` stands for the walk through
   fs_postbl and fs_rotbl, and must list exactly the blocks of cylinder `c` at position `p`.
   */
  datatype Geometry = Geometry(
      frag: nat, fpg: nat, ipg: nat, ncyl: nat, nrpos: nat, cpc: nat,
      cyl: nat -> nat, rpos: nat -> nat, cylstart: nat -> nat, chain: (nat, nat) -> seq<nat>)
  {
    ghost predicate Valid() {
      && ValidFrag(frag)
      && 0 < fpg && fpg % frag == 0
      && 0 < ipg && ipg % NBBY == 0
      && (forall j: nat :: j < fpg / frag ==> cyl(j) < ncyl && rpos(j) < nrpos)
      && (forall c: nat, p: nat, j: nat {:trigger j in chain(c, p)} :: c < ncyl && p < nrpos ==>
            (j in chain(c, p) <==> j < fpg / frag && cyl(j) == c && rpos(j) == p))
    }

    /** Bytes of the free map: howmany(fs_fpg, NBBY). */
    function MapBytes(): nat {
      (fpg + NBBY - 1) / NBBY
    }

    /** Blocks the map bytes have room for; those past the end of the group are never free. */
    function MapBlocks(): nat
      requires frag > 0
    {
      MapBytes() * (NBBY / frag)
    }

    ghost function InCyl(c: nat): set<nat>
      requires frag > 0
    {
      set j: nat | j < fpg / frag && cyl(j) == c
    }

    ghost function AtPos(c: nat, p: nat): set<nat>
      requires frag > 0
    {
      set j: nat | j < fpg / frag && cyl(j) == c && rpos(j) == p
    }

    /** dtogd: the position of a disk address within its group. */
    function Dtogd(d: nat): nat
      requires fpg > 0
    {
      d % fpg
    }
  }

  lemma MapSize(geo: Geometry)
    requires geo.Valid()
    ensures 1 <= geo.frag <= 8
    ensures geo.MapBlocks() * geo.frag == geo.MapBytes() * NBBY
    ensures geo.fpg <= geo.MapBytes() * NBBY
    ensures geo.fpg == (geo.fpg / geo.frag) * geo.frag && geo.fpg / geo.frag <= geo.MapBlocks()
  {
    match geo.frag
    case 1 =>
    case 2 =>
    case 4 =>
    case _ =>
  }

  lemma ChainInGroup(geo: Geometry, c: nat, p: nat)
    requires geo.Valid() && c < geo.ncyl && p < geo.nrpos
    ensures forall y :: 0 <= y < |geo.chain(c, p)| ==>
              geo.chain(c, p)[y] < geo.fpg / geo.frag && geo.cyl(geo.chain(c, p)[y]) == c
                && geo.rpos(geo.chain(c, p)[y]) == p
  {
    forall y | 0 <= y < |geo.chain(c, p)|
      ensures geo.chain(c, p)[y] < geo.fpg / geo.frag && geo.cyl(geo.chain(c, p)[y]) == c
        && geo.rpos(geo.chain(c, p)[y]) == p
    {
      var j := geo.chain(c, p)[y];
      assert j in geo.chain(c, p);
    }
  }

  // ---------------------------------------------------------------------------------------------------
  // Bytes of the map
  // ---------------------------------------------------------------------------------------------------

  ghost predicate BlockHasRun(m: seq<seq<bool>>, j: nat, k: nat) {
    j < |m| && HasRun(m[j], k)
  }

  /** blkstofrags: the first fragment of a block. */
  function Blkstofrags(frag: nat, j: nat): nat {
    j * frag
  }

  /** fragstoblks: the block a fragment lies in. */
  function Fragstoblks(frag: nat, d: nat): nat
    requires frag > 0
  {
    d / frag
  }

  /** fragnum: the place of a fragment within its block. */
  function Fragnum(frag: nat, d: nat): nat
    requires frag > 0
  {
    d % frag
  }

  ghost predicate InByte(frag: nat, y: nat, j: nat) {
    y * NBBY <= Blkstofrags(frag, j) < y * NBBY + NBBY
  }

  lemma BlksOrder(frag: nat, i: nat, j: nat)
    ensures i < j ==> Blkstofrags(frag, i) + frag <= Blkstofrags(frag, j)
    ensures i <= j ==> Blkstofrags(frag, i) <= Blkstofrags(frag, j)
    ensures Blkstofrags(frag, i + 1) == Blkstofrags(frag, i) + frag
  {
    if i < j {
      MulStep(i, j, frag);
    }
  }

  lemma BlksMonotone(frag: nat)
    requires frag > 0
    ensures forall i: nat, j: nat :: i < j ==> Blkstofrags(frag, i) < Blkstofrags(frag, j)
  {
    forall i: nat, j: nat | i < j
      ensures Blkstofrags(frag, i) < Blkstofrags(frag, j)
    {
      BlksOrder(frag, i, j);
    }
  }

  lemma FragSplit(frag: nat, d: nat)
    requires frag > 0
    ensures d == Blkstofrags(frag, Fragstoblks(frag, d)) + Fragnum(frag, d) && Fragnum(frag, d) < frag
  {
    DivMod(d, frag);
  }

  lemma FragJoin(frag: nat, j: nat, o: nat)
    requires o < frag
    ensures Fragstoblks(frag, Blkstofrags(frag, j) + o) == j && Fragnum(frag, Blkstofrags(frag, j) + o) == o
  {
    DivModUnique(Blkstofrags(frag, j) + o, frag, j, o);
  }

  lemma ByteNumbers(frag: nat, y: nat, q: nat)
    requires ValidFrag(frag) && q < NBBY / frag
    ensures Blkstofrags(frag, y * (NBBY / frag) + q) == y * NBBY + Blkstofrags(frag, q)
    ensures Blkstofrags(frag, q) == q * frag
    ensures q * frag + frag <= NBBY
  {
    match frag
    case 1 => case 2 => case 4 => case _ =>
  }

  lemma ByteNumbersBack(frag: nat, y: nat, j: nat)
    requires ValidFrag(frag) && InByte(frag, y, j)
    ensures y * (NBBY / frag) <= j && j - y * (NBBY / frag) < NBBY / frag
  {
    match frag
    case 1 => case 2 => case 4 => case _ =>
  }

  /** The `q`-th block held by byte `y` of the map. */
  lemma ByteBlock(bits: seq<bool>, frag: nat, n: nat, y: nat, q: nat, j: nat)
    requires ValidFrag(frag) && n * frag == |bits| && y * NBBY + NBBY <= |bits|
    requires q * frag + frag <= NBBY && Blkstofrags(frag, j) == y * NBBY + q * frag
    ensures j < n
    ensures bits[y * NBBY..y * NBBY + NBBY][q * frag..q * frag + frag] == Blocks(bits, frag, n)[j]
  {
    if n <= j {
      MulStepWeak(n, j, frag);
    }
    MulStep(j, n, frag);
    forall o | 0 <= o < frag
      ensures Blocks(bits, frag, n)[j][o] == bits[y * NBBY..y * NBBY + NBBY][q * frag..q * frag + frag][o]
    {
      BlockBit(bits, frag, n, j, o);
    }
  }

  lemma MulStepWeak(i: nat, j: nat, frag: nat)
    requires i <= j
    ensures i * frag <= j * frag
  {
    if i < j {
      MulStep(i, j, frag);
    }
  }

  /** A byte passes the table test exactly when one of its blocks has a run of that length. */
  lemma ByteTest(bits: seq<bool>, frag: nat, n: nat, y: nat, k: nat)
    requires ValidFrag(frag) && n * frag == |bits| && y * NBBY + NBBY <= |bits| && 1 <= k <= frag
    ensures ScanTest(frag, bits[y * NBBY..y * NBBY + NBBY], k) <==>
            exists j: nat :: InByte(frag, y, j) && BlockHasRun(Blocks(bits, frag, n), j, k)
  {
    hide ScanTest, Blocks, HasRun;
    var byte := bits[y * NBBY..y * NBBY + NBBY];
    var m := Blocks(bits, frag, n);
    ByteRuns(frag, byte, k);
    if ScanTest(frag, byte, k) {
      var q: nat :| ByteHasRun(frag, byte, q, k);
      var j := y * (NBBY / frag) + q;
      ByteNumbers(frag, y, q);
      ByteBlock(bits, frag, n, y, q, j);
      assert InByte(frag, y, j) && BlockHasRun(m, j, k);
    }
    if exists j: nat :: InByte(frag, y, j) && BlockHasRun(m, j, k) {
      var j: nat :| InByte(frag, y, j) && BlockHasRun(m, j, k);
      ByteNumbersBack(frag, y, j);
      var q := j - y * (NBBY / frag);
      ByteNumbers(frag, y, q);
      ByteBlock(bits, frag, n, y, q, j);
      assert ByteHasRun(frag, byte, q, k);
    }
  }

  ghost predicate ByteHasRun(frag: nat, byte: seq<bool>, q: nat, k: nat)
    requires frag > 0
  {
    q < NBBY / frag && q * frag + frag <= |byte| && HasRun(byte[q * frag..q * frag + frag], k)
  }

  lemma ByteRuns(frag: nat, byte: seq<bool>, k: nat)
    requires ValidFrag(frag) && |byte| == NBBY && 1 <= k <= frag
    ensures ScanTest(frag, byte, k) <==> exists q: nat :: ByteHasRun(frag, byte, q, k)
  {
    hide ScanTest;
    if frag == 8 {
      ScanTest8(byte, k);
      assert byte[0..8] == byte;
      assert ByteHasRun(8, byte, 0, k) <==> HasRun(byte, k);
    } else if frag == 4 {
      ScanTest4(byte, k);
      assert ByteHasRun(4, byte, 0, k) <==> HasRun(byte[0..4], k);
      assert ByteHasRun(4, byte, 1, k) <==> HasRun(byte[4..8], k);
    } else if frag == 2 {
      ScanTest2(byte, k);
      assert ByteHasRun(2, byte, 0, k) <==> HasRun(byte[0..2], k);
      assert ByteHasRun(2, byte, 1, k) <==> HasRun(byte[2..4], k);
      assert ByteHasRun(2, byte, 2, k) <==> HasRun(byte[4..6], k);
      assert ByteHasRun(2, byte, 3, k) <==> HasRun(byte[6..8], k);
    } else {
      ScanTest1(byte);
      forall q: nat | q < 8
        ensures ByteHasRun(1, byte, q, 1) <==> byte[q]
      {
        assert byte[q * 1..q * 1 + 1] == [byte[q]];
        assert byte[q] ==> RunAt([byte[q]], 0, 1);
      }
    }
  }

  /** Group-relative fragment `d` is the first of a maximal free run of `k` fragments of its block. */
  ghost predicate RunStart(m: seq<seq<bool>>, frag: nat, d: int, k: nat)
    requires frag > 0
  {
    0 <= d && Fragstoblks(frag, d) < |m| && RunAt(m[Fragstoblks(frag, d)], Fragnum(frag, d), k)
  }

  /** Group-relative fragment `d` begins a block all of whose fragments are free. */
  ghost predicate WholeAt(m: seq<seq<bool>>, frag: nat, d: int)
    requires frag > 0
  {
    0 <= d && Fragnum(frag, d) == 0 && Fragstoblks(frag, d) < |m| && Full(m[Fragstoblks(frag, d)])
  }

  /** Position `x` is met before position `y` by a search that starts at `hint` and goes round. */
  ghost predicate Sooner(hint: int, x: int, y: int) {
    if hint <= x then y < hint || x < y else x < y < hint
  }

  /** No block with a run of `k` is met before block `d` by the search from byte `y`. */
  ghost predicate NoneSooner(m: seq<seq<bool>>, frag: nat, y: nat, d: nat, k: nat) {
    forall j: nat :: BlockHasRun(m, j, k) ==> !Sooner(y * NBBY, Blkstofrags(frag, j), Blkstofrags(frag, d))
  }

  /** The sift of mapsearch through one block: slide the masks until they match. */
  method SiftBlock(b: Block, k: nat) returns (pos: int)
    requires 1 <= k <= |b|
    ensures pos >= 0 ==> pos + k <= |b| && RunAt(b, pos, k) && forall p :: 0 <= p < pos ==> !RunAt(b, p, k)
    ensures pos >= 0 <==> HasRun(b, k)
  {
    hide Pack, Shl, Around, Inside, Match, RunAt;
    var blk := Pack(b);
    var field, subfield := Around(k), Inside(k);
    assert field == Shl(Around(k), 0) && subfield == Shl(Inside(k), 0) by {
      ShlZero(field);
      ShlZero(subfield);
    }
    pos := 0;
    while pos <= |b| - k
      invariant 0 <= pos
      invariant pos <= |b| - k ==> field == Shl(Around(k), pos) && subfield == Shl(Inside(k), pos)
      invariant forall p :: 0 <= p < pos ==> !RunAt(b, p, k)
    {
      HitIsRun(b, k, pos);
      if Match(blk, field, subfield) {
        assert HasRun(b, k);
        return;
      }
      if pos < |b| - k {
        ShlAdd(Around(k), pos, 1);
        ShlAdd(Inside(k), pos, 1);
      }
      field := Shl(field, 1);
      subfield := Shl(subfield, 1);
      pos := pos + 1;
    }
    RunsFit(b, k, pos);
    pos := -1;
  }

  lemma RunsFit(b: seq<bool>, k: nat, end: int)
    requires end > |b| - k && forall p :: 0 <= p < end ==> !RunAt(b, p, k)
    ensures !HasRun(b, k)
  {
  }

  /** What a change inside one block does to the map and to every total over it. */
  lemma MapFilled(bits: seq<bool>, frag: nat, n: nat, j: nat, o: nat, k: nat, v: bool)
    requires n * frag == |bits| && j < n && o + k <= frag
    ensures Blkstofrags(frag, j) + o + k <= |bits|
    ensures var m, b' := Blocks(bits, frag, n), Fill(Blocks(bits, frag, n)[j], o, k, v);
            && Blocks(Fill(bits, Blkstofrags(frag, j) + o, k, v), frag, n) == m[j := b']
            && forall ms: Measure :: Total(ms, m[j := b']) == Total(ms, m) - Value(ms, j, m[j]) + Value(ms, j, b')
  {
    hide Total, Value;
    BlocksFill(bits, frag, n, j, o, k, v);
    var m, b' := Blocks(bits, frag, n), Fill(Blocks(bits, frag, n)[j], o, k, v);
    forall ms: Measure
      ensures Total(ms, m[j := b']) == Total(ms, m) - Value(ms, j, m[j]) + Value(ms, j, b')
    {
      TotalUpdate(ms, m, j, b');
    }
  }

  /** The contents of a cylinder group block on the disk. */
  datatype CgData = CgData(
      cs: Csum, rotor: nat, frotor: nat, irotor: nat, free: seq<bool>, frsum: seq<int>, btot: seq<int>,
        b: seq<seq<int>>, iused: seq<bool>)
  {
    ghost predicate Sized(geo: Geometry) {
      && geo.Valid()
      && |free| == geo.MapBytes() * NBBY && |frsum| >= geo.frag && |iused| == geo.ipg
      && |btot| == geo.ncyl && |b| == geo.ncyl && forall c :: 0 <= c < |b| ==> |b[c]| == geo.nrpos
    }

    ghost function Map(geo: Geometry): (m: seq<seq<bool>>)
      requires Sized(geo)
    {
      MapSize(geo);
      Blocks(free, geo.frag, geo.MapBlocks())
    }

    /** Every count of the group agrees with its maps. */
    ghost predicate Good(geo: Geometry) {
      && Sized(geo) && frotor < |free| && irotor < |iused|
      && (forall i :: geo.fpg <= i < |free| ==> !free[i])
      && cs.nbfree == Total(WholeBlocks, Map(geo))
      && (forall c: nat :: c < geo.ncyl ==> btot[c] == Total(BlocksIn(geo.InCyl(c)), Map(geo)))
      && (forall c: nat, p: nat :: c < geo.ncyl && p < geo.nrpos ==>
          b[c][p] == Total(BlocksIn(geo.AtPos(c, p)), Map(geo)))
      && cs.nffree == Total(LooseFrags, Map(geo))
      && (forall k: nat :: 1 <= k < geo.frag ==> frsum[k] == Total(RunsOf(k), Map(geo)))
      && cs.nifree == |Unused(iused)|
      && (forall i :: 0 <= i < irotor ==> iused[i])
    }
  }

  /** struct cg in a buffer, as far as the allocator uses it, and the map bytes that follow it. */
  class Cg {
    const geo: Geometry
    const cgx: nat              // cg_cgx
    const free: array<bool>     // cg_free
    const frsum: array<int>     // cg_frsum
    const btot: array<int>      // cg_btot
    const b: array2<int>        // cg_b
    const iused: array<bool>    // cg_iused
    var cs: Csum                // cg_cs
    var rotor: nat              // cg_rotor
    var frotor: nat             // cg_frotor
    var irotor: nat             // cg_irotor

    /** The group as bread finds it. */
    constructor (geo: Geometry, cgx: nat, data: CgData)
      requires data.Sized(geo)
      ensures fresh(free) && fresh(frsum) && fresh(btot) && fresh(b) && fresh(iused)
      ensures this.geo == geo && this.cgx == cgx && Sized() && Data() == data
    {
      this.geo, this.cgx, this.cs, this.rotor, this.frotor, this.irotor :=
        geo, cgx, data.cs, data.rotor, data.frotor, data.irotor;
      free := new bool[|data.free|](i requires 0 <= i < |data.free| => data.free[i]);
      iused := new bool[|data.iused|](i requires 0 <= i < |data.iused| => data.iused[i]);
      frsum := new int[|data.frsum|](i requires 0 <= i < |data.frsum| => data.frsum[i]);
      btot := new int[|data.btot|](i requires 0 <= i < |data.btot| => data.btot[i]);
      b := new int[geo.ncyl, geo.nrpos]((c, p) requires 0 <= c < geo.ncyl && 0 <= p < geo.nrpos => data.b[c][p]);
      new;
      assert free[..] == data.free && iused[..] == data.iused && frsum[..] == data.frsum && btot[..] == data.btot;
      forall c | 0 <= c < geo.ncyl
        ensures Grid()[c] == data.b[c]
      {
      }
      assert Grid() == data.b;
    }

    function Grid(): (g: seq<seq<int>>)
      reads b
      ensures |g| == b.Length0 && forall c :: 0 <= c < |g| ==> |g[c]| == b.Length1 && forall p :: 0 <= p < b.Length1 ==>
        g[c][p] == b[c, p]
    {
      seq(b.Length0, c requires 0 <= c < b.Length0 reads b => seq(b.Length1,
        p requires 0 <= p < b.Length1 reads b => b[c, p]))
    }

    /** What bdwrite hands to the disk. */
    function Data(): CgData
      reads this, free, frsum, btot, b, iused
    {
      CgData(cs, rotor, frotor, irotor, free[..], frsum[..], btot[..], Grid(), iused[..])
    }

    /** A buffer is consistent exactly when the block it holds is. */
    lemma ValidIsGood()
      requires Sized() && iused.Length == geo.ipg
      ensures Valid() && InodesValid() <==> Data().Good(geo)
    {
      hide Total, Blocks;
      assert Data().Map(geo) == Map();
    }

    ghost predicate Sized() {
      && geo.Valid()
      && free.Length == geo.MapBytes() * NBBY && frsum.Length >= geo.frag
      && btot.Length == geo.ncyl && b.Length0 == geo.ncyl && b.Length1 == geo.nrpos
      && free != iused && frsum != btot
    }

    ghost function Map(): (m: seq<seq<bool>>)
      requires Sized()
      reads free
      ensures |m| == geo.MapBlocks() && forall j :: 0 <= j < |m| ==> |m[j]| == geo.frag
    {
      MapSize(geo);
      Blocks(free[..], geo.frag, geo.MapBlocks())
    }

    /** Nothing past the end of the group is free. */
    ghost predicate Padded()
      requires Sized()
      reads free
    {
      forall i :: geo.fpg <= i < free.Length ==> !free[i]
    }

    /** The counts of whole blocks agree with the map. */
    ghost predicate BlocksCounted()
      requires Sized()
      reads this`cs, free, btot, b
    {
      && cs.nbfree == Total(WholeBlocks, Map())
      && (forall c: nat :: c < geo.ncyl ==> btot[c] == Total(BlocksIn(geo.InCyl(c)), Map()))
      && (forall c: nat, p: nat :: c < geo.ncyl && p < geo.nrpos ==> b[c, p] == Total(BlocksIn(geo.AtPos(c, p)), Map()))
    }

    /** The counts of loose fragments and of free runs agree with the map. */
    ghost predicate FragsCounted()
      requires Sized()
      reads this`cs, free, frsum
    {
      && cs.nffree == Total(LooseFrags, Map())
      && (forall k: nat :: 1 <= k < geo.frag ==> frsum[k] == Total(RunsOf(k), Map()))
    }

    ghost predicate Valid()
      reads this`cs, this`frotor, free, frsum, btot, b
    {
      Sized() && frotor < free.Length && Padded() && BlocksCounted() && FragsCounted()
    }

    function Byte(y: nat): seq<bool>
      requires y * NBBY + NBBY <= free.Length
      reads free
    {
      free[y * NBBY..y * NBBY + NBBY]
    }

    /** scanc over `len` bytes of the map: how many are left, counting the one that passed; 0 if none did. */
    method Scanc(start: nat, len: nat, k: nat) returns (loc: nat)
      requires Sized() && 1 <= k <= geo.frag && start + len <= geo.MapBytes()
      ensures loc <= len
      ensures loc > 0 ==> ScanTest(geo.frag, Byte(start + len - loc), k)
      ensures forall y: nat :: start <= y < start + len - loc ==> !ScanTest(geo.frag, Byte(y), k)
    {
      hide ScanTest;
      loc := len;
      while loc > 0 && !ScanTest(geo.frag, Byte(start + len - loc), k)
        invariant loc <= len
        invariant forall y: nat :: start <= y < start + len - loc ==> !ScanTest(geo.frag, Byte(y), k)
      {
        loc := loc - 1;
      }
    }

    lemma ByteTestHere(y: nat, k: nat)
      requires Sized() && 1 <= k <= geo.frag && y < geo.MapBytes()
      ensures ScanTest(geo.frag, Byte(y), k) <==> exists j: nat :: InByte(geo.frag, y, j) && BlockHasRun(Map(), j, k)
    {
      hide ScanTest, Blocks, HasRun, Blkstofrags;
      MapSize(geo);
      ByteTest(free[..], geo.frag, geo.MapBlocks(), y, k);
      assert free[..][y * NBBY..y * NBBY + NBBY] == Byte(y);
    }

    lemma NoRunInBytes(lo: nat, hi: nat, k: nat)
      requires Sized() && 1 <= k <= geo.frag && hi <= geo.MapBytes()
      requires forall y: nat :: lo <= y < hi ==> !ScanTest(geo.frag, Byte(y), k)
      ensures forall j: nat :: lo * NBBY <= Blkstofrags(geo.frag, j) < hi * NBBY ==> !BlockHasRun(Map(), j, k)
    {
      hide ScanTest, Blocks, HasRun, Blkstofrags;
      MapSize(geo);
      forall j: nat | lo * NBBY <= Blkstofrags(geo.frag, j) < hi * NBBY
        ensures !BlockHasRun(Map(), j, k)
      {
        var y := Blkstofrags(geo.frag, j) / NBBY;
        assert lo <= y < hi && InByte(geo.frag, y, j);
        ByteTestHere(y, k);
      }
    }

    /** The loop of mapsearch over the blocks of the byte it found; -1 for "block not in map". */
    method SiftByte(y: nat, k: nat) returns (bno: int)
      requires Sized() && 1 <= k <= geo.frag && y < geo.MapBytes()
      ensures bno >= 0 ==> BlockHasRun(Map(), Fragstoblks(geo.frag, bno), k)
      ensures bno >= 0 ==> RunStart(Map(), geo.frag, bno, k) && InByte(geo.frag, y, Fragstoblks(geo.frag, bno))
      ensures bno >= 0 ==> forall j: nat :: InByte(geo.frag, y, j) && BlockHasRun(Map(), j, k) ==>
        Fragstoblks(geo.frag, bno) <= j
      ensures bno < 0 <==> !ScanTest(geo.frag, Byte(y), k)
    {
      hide ScanTest, Blocks, HasRun, RunAt, Blkstofrags, Fragstoblks, Fragnum, Geometry.Valid, Geometry.MapBlocks,
        Geometry.MapBytes;
      MapSize(geo);
      ByteTestHere(y, k);
      BlksMonotone(geo.frag);
      var j := ByteStart(y);
      bno := y * NBBY;
      while bno < y * NBBY + NBBY
        invariant y * NBBY <= bno == Blkstofrags(geo.frag, j)
        invariant forall i: nat :: InByte(geo.frag, y, i) && i < j ==> !BlockHasRun(Map(), i, k)
      {
        MapBlock(j);
        var blk := BlockAt(bno);
        var pos := SiftBlock(blk, k);
        if pos >= 0 {
          bno := bno + pos;
          FragJoin(geo.frag, j, pos);
          return;
        }
        BlksOrder(geo.frag, j, j);
        j := j + 1;
        bno := bno + geo.frag;
      }
      bno := -1;
    }

    /** The number of the first block of byte `y`. */
    function ByteStart(y: nat): (j: nat)
      requires geo.Valid()
      ensures Blkstofrags(geo.frag, j) == y * NBBY
    {
      ByteNumbers(geo.frag, y, 0);
      y * (NBBY / geo.frag)
    }

    lemma MapBlock(j: nat)
      requires Sized() && Blkstofrags(geo.frag, j) < geo.MapBytes() * NBBY
      ensures j < geo.MapBlocks() && Blkstofrags(geo.frag, j) + geo.frag <= free.Length
      ensures Map()[j] == BlockAt(Blkstofrags(geo.frag, j))
    {
      MapSize(geo);
      BlksOrder(geo.frag, geo.MapBlocks(), j);
      BlksOrder(geo.frag, j, geo.MapBlocks());
      assert free[..][j * geo.frag..j * geo.frag + geo.frag] == BlockAt(Blkstofrags(geo.frag, j));
    }

    /** blkmap: the bits of the block at group-relative fragment `bno`. */
    function BlockAt(bno: nat): (blk: seq<bool>)
      requires bno + geo.frag <= free.Length
      reads free
      ensures |blk| == geo.frag
    {
      free[bno..bno + geo.frag]
    }

    /** The byte at which mapsearch starts: that of the hint, or else of the rotor. */
    function SearchByte(bpref: nat): (y: nat)
      requires Sized() && frotor < free.Length
      reads this`frotor
      ensures y < geo.MapBytes()
    {
      MapSize(geo);
      if bpref != 0 then geo.Dtogd(bpref) / NBBY else frotor / NBBY
    }

    lemma BlocksLieInMap(k: nat)
      requires Sized()
      ensures forall j: nat :: BlockHasRun(Map(), j, k) ==> Blkstofrags(geo.frag, j) < geo.MapBytes() * NBBY
    {
      MapSize(geo);
      forall j: nat | BlockHasRun(Map(), j, k)
        ensures Blkstofrags(geo.frag, j) < geo.MapBytes() * NBBY
      {
        MulStep(j, geo.MapBlocks(), geo.frag);
      }
    }

    /**
     mapsearch: the first run of exactly `allocsiz` fragments at or after the byte of the hint, going round.
     -1 stands for its two panics, "map corrupted" and "block not in map".
     */
    method Mapsearch(bpref: nat, allocsiz: nat) returns (bno: int)
      requires Valid() && 1 <= allocsiz <= geo.frag
      modifies this`frotor
      ensures Valid()
      ensures bno >= 0 ==> RunStart(Map(), geo.frag, bno, allocsiz)
      ensures bno < 0 <==> forall j: nat :: !BlockHasRun(Map(), j, allocsiz)
      ensures bno >= 0 ==> NoneSooner(Map(), geo.frag, old(SearchByte(bpref)), Fragstoblks(geo.frag, bno), allocsiz)
    {
      hide ScanTest, Blocks, HasRun, RunAt, Total, Blkstofrags, Fragstoblks, Fragnum, Geometry.Valid,
        Geometry.MapBlocks, Geometry.MapBytes;
      MapSize(geo);
      BlocksLieInMap(allocsiz);
      var start := SearchByte(bpref);
      ghost var hint := start;
      var len := geo.MapBytes() - start;
      var loc := Scanc(start, len, allocsiz);
      NoRunInBytes(start, start + len - loc, allocsiz);
      if loc == 0 {
        len := start + 1;
        start := 0;
        loc := Scanc(0, len, allocsiz);
        NoRunInBytes(0, len - loc, allocsiz);
        if loc == 0 {
          return -1;
        }
      }
      var y := start + len - loc;
      bno := SiftByte(y, allocsiz);
      BlksMonotone(geo.frag);
      frotor := y * NBBY;
    }

    // -------------------------------------------------------------------------------------------------
    // Whole blocks
    // -------------------------------------------------------------------------------------------------

    /** isblock: every fragment of block `j` is free. */
    method Isblock(j: nat) returns (all: bool)
      requires Sized() && j < geo.MapBlocks()
      ensures all <==> Full(Map()[j])
    {
      MapSize(geo);
      BlksOrder(geo.frag, j, geo.MapBlocks());
      MapBlock(j);
      var blk := BlockAt(Blkstofrags(geo.frag, j));
      all := forall i :: 0 <= i < |blk| ==> blk[i];
    }

    /** A run of clrbit or setbit calls, as in clrblock, setblock and the loops over a fragment. */
    method Fillbits(d: nat, n: nat, v: bool)
      requires d + n <= free.Length
      modifies free
      ensures free[..] == Fill(old(free[..]), d, n, v)
    {
      var i := 0;
      while i < n
        invariant i <= n
        invariant free[..] == Fill(old(free[..]), d, i, v)
      {
        free[d + i] := v;
        i := i + 1;
      }
    }

    /** A block with a free fragment lies inside the group. */
    lemma FreeInGroup(j: nat, o: nat)
      requires Sized() && Padded() && j < geo.MapBlocks() && o < geo.frag && Map()[j][o]
      ensures j < geo.fpg / geo.frag && Blkstofrags(geo.frag, j) + geo.frag <= geo.fpg
    {
      MapSize(geo);
      BlockBit(free[..], geo.frag, geo.MapBlocks(), j, o);
      BlksOrder(geo.frag, geo.fpg / geo.frag, j);
      BlksOrder(geo.frag, j, geo.fpg / geo.frag);
    }

    /** One block more (or less) in the counts of whole blocks. */
    method Tally(j: nat, d: int)
      requires Sized() && j < geo.fpg / geo.frag
      modifies this`cs, btot, b
      ensures cs == old(cs).(nbfree := old(cs.nbfree) + d)
      ensures forall c: nat :: c < geo.ncyl ==> btot[c] == old(btot[c]) + if c == geo.cyl(j) then d else 0
      ensures forall c: nat, p: nat :: c < geo.ncyl && p < geo.nrpos ==>
                b[c, p] == old(b[c, p]) + if c == geo.cyl(j) && p == geo.rpos(j) then d else 0
    {
      cs := cs.(nbfree := cs.nbfree + d);
      var cylno := geo.cyl(j);
      b[cylno, geo.rpos(j)] := b[cylno, geo.rpos(j)] + d;
      btot[cylno] := btot[cylno] + d;
    }

    /** "gotit" of alloccgblk: take a whole free block out of the map and out of the counts. */
    method TakeBlock(j: nat)
      requires Valid() && j < geo.MapBlocks() && Full(Map()[j])
      modifies this`cs, free, btot, b
      ensures Valid() && Blkstofrags(geo.frag, j) + geo.frag <= geo.fpg <= free.Length
      ensures free[..] == Fill(old(free[..]), Blkstofrags(geo.frag, j), geo.frag, false)
      ensures cs == old(cs).(nbfree := old(cs.nbfree) - 1)
    {
      hide Blocks, Total, Geometry.MapBlocks, Geometry.MapBytes, Blkstofrags;
      MapSize(geo);
      FreeInGroup(j, 0);
      MapFilled(free[..], geo.frag, geo.MapBlocks(), j, 0, geo.frag, false);
      Fillbits(Blkstofrags(geo.frag, j), geo.frag, false);
      ghost var was, now := old(Map()[j]), Map()[j];
      assert FreeSet(now) == {};
      forall k | 1 <= k < geo.frag
        ensures RunSet(was, k) == {} && RunSet(now, k) == {}
      {
        NoRuns(was, k);
        NoRuns(now, k);
      }
      Tally(j, -1);
    }

    /** The block named by an allocation preference: blknum, dtogd and fragstoblks. */
    function PrefBlock(bpref: nat): (j: nat)
      requires geo.Valid()
    {
      Fragstoblks(geo.frag, PrefPlace(geo, bpref))
    }

    lemma PrefBlockIs(bpref: nat)
      requires Valid()
      ensures PrefBlock(bpref) < geo.fpg / geo.frag && PrefBlock(bpref) < geo.MapBlocks()
      ensures Blkstofrags(geo.frag, PrefBlock(bpref)) == PrefPlace(geo, bpref)
      ensures geo.Dtogd(bpref - bpref % geo.frag) < geo.fpg
      ensures Full(Map()[PrefBlock(bpref)]) <==> BlockFree(geo.frag, free[..], PrefPlace(geo, bpref))
    {
      hide Total, Geometry.MapBlocks, Geometry.MapBytes, Blocks, Fragnum, Fragstoblks, BlockFree;
      PrefAligned(geo, bpref);
      PrefWhole(geo, free[..], bpref);
    }

    /** The position of the first free block of cylinder `c`, from `pos` on and round; -1 if there is none. */
    method PickPosition(c: nat, pos: nat) returns (i: int)
      requires Valid() && c < geo.ncyl && pos < geo.nrpos
      ensures i >= 0 ==> i < geo.nrpos && b[c, i] > 0 && forall p: nat :: p < geo.nrpos && Sooner(pos, p, i) ==>
        b[c, p] <= 0
      ensures i < 0 ==> forall p: nat :: p < geo.nrpos ==> b[c, p] <= 0
    {
      i := pos;
      while i < geo.nrpos && b[c, i] <= 0
        invariant pos <= i <= geo.nrpos
        invariant forall p: nat :: pos <= p < i ==> b[c, p] <= 0
      {
        i := i + 1;
      }
      if i == geo.nrpos {
        i := 0;
        while i < pos && b[c, i] <= 0
          invariant 0 <= i <= pos
          invariant forall p: nat :: p < i ==> b[c, p] <= 0
        {
          i := i + 1;
        }
      }
      if b[c, i] <= 0 {
        i := -1;
      }
    }

    /** A cylinder counts a free block exactly when one of its rotational positions does. */
    lemma CylinderHasFree(c: nat)
      requires Valid() && c < geo.ncyl
      ensures btot[c] >= 0 && forall p: nat :: p < geo.nrpos ==> b[c, p] >= 0
      ensures btot[c] != 0 <==> exists p: nat :: p < geo.nrpos && b[c, p] > 0
    {
      hide Blocks, Total;
      MapSize(geo);
      TotalPositive(BlocksIn(geo.InCyl(c)), Map());
      forall p: nat | p < geo.nrpos
        ensures b[c, p] > 0 ==> btot[c] > 0
      {
        TotalPositive(BlocksIn(geo.AtPos(c, p)), Map());
        if b[c, p] > 0 {
          var j: nat :| j < |Map()| && Value(BlocksIn(geo.AtPos(c, p)), j, Map()[j]) > 0;
          assert Value(BlocksIn(geo.InCyl(c)), j, Map()[j]) > 0;
        }
      }
      if btot[c] != 0 {
        var j: nat :| j < |Map()| && Value(BlocksIn(geo.InCyl(c)), j, Map()[j]) > 0;
        TotalPositive(BlocksIn(geo.AtPos(c, geo.rpos(j))), Map());
        assert Value(BlocksIn(geo.AtPos(c, geo.rpos(j))), j, Map()[j]) > 0;
      }
    }

    lemma FreeOnChain(c: nat, p: nat) returns (j: nat)
      requires Valid() && c < geo.ncyl && p < geo.nrpos && b[c, p] > 0
      ensures j in geo.chain(c, p) && j < geo.MapBlocks() && Full(Map()[j])
    {
      hide Blocks, Total;
      MapSize(geo);
      TotalPositive(BlocksIn(geo.AtPos(c, p)), Map());
      j :| j < |Map()| && Value(BlocksIn(geo.AtPos(c, p)), j, Map()[j]) > 0;
    }

    /** The rotationally optimal free block of cylinder `c`; -1 if the cylinder has none. */
    method Rotational(c: nat, pos: nat) returns (j: int)
      requires Valid() && c < geo.ncyl && pos < geo.nrpos
      ensures j >= 0 ==> j < geo.fpg / geo.frag <= geo.MapBlocks() && Full(Map()[j]) && geo.cyl(j) == c
      ensures j >= 0 ==> forall p: nat :: p < geo.nrpos && Sooner(pos, p, geo.rpos(j)) ==> b[c, p] == 0
      ensures j < 0 <==> btot[c] == 0
    {
      hide Blocks, Total, Geometry.MapBlocks, Geometry.MapBytes;
      MapSize(geo);
      CylinderHasFree(c);
      var i := PickPosition(c, pos);
      if i < 0 {
        return -1;
      }
      var chain := geo.chain(c, i);
      ghost var k := FreeOnChain(c, i);
      ChainInGroup(geo, c, i);
      var x := 0;
      while x < |chain|
        invariant x <= |chain|
        invariant forall y :: 0 <= y < x ==> !Full(Map()[chain[y]])
      {
        var all := Isblock(chain[x]);
        if all {
          return chain[x];
        }
        x := x + 1;
      }
      assert false;    // the "can't find blk in cyl" panic
    }

    /** alloccgblk: the group-relative address of a whole block, now taken; -1 if the group has none. */
    method Alloccgblk(bpref: nat) returns (bno: int)
      requires Valid()
      modifies this`cs, this`rotor, this`frotor, free, btot, b
      ensures Valid()
      ensures bno < 0 <==> old(cs.nbfree) == 0
      ensures bno < 0 ==> free[..] == old(free[..]) && cs == old(cs)
      ensures bno >= 0 ==> WholeAt(old(Map()), geo.frag, bno) && bno + geo.frag <= geo.fpg <= free.Length
      ensures bno >= 0 ==> forall i :: bno <= i < bno + geo.frag ==> old(free[i])
      ensures bno >= 0 ==>
        free[..] == Fill(old(free[..]), bno, geo.frag, false) && cs == old(cs).(nbfree := old(cs.nbfree) - 1)
      ensures bpref != 0 && BlockFree(geo.frag, old(free[..]), PrefPlace(geo, bpref)) ==>
        bno == PrefPlace(geo, bpref)
      ensures
        bpref != 0 && geo.cpc != 0 && geo.cyl(PrefBlock(bpref)) < geo.ncyl
        && old(btot[geo.cyl(PrefBlock(bpref))]) != 0 ==>
                bno >= 0 && geo.cyl(Fragstoblks(geo.frag, bno)) == geo.cyl(PrefBlock(bpref))
    {
      hide Blocks, Total, Geometry.MapBlocks, Geometry.MapBytes, Blkstofrags, Fragstoblks, Fragnum, PrefBlock,
        BlockFree, PrefPlace, Geometry.Dtogd;
      MapSize(geo);
      AnyBlockFree();
      var pref := rotor;
      var j: int := -1;
      if bpref != 0 {
        pref := geo.Dtogd(bpref - bpref % geo.frag);
        var want := PrefBlock(bpref);
        PrefBlockIs(bpref);
        var all := Isblock(want);
        if all {
          j := want;
        } else if btot[geo.cyl(want)] != 0 {
          if geo.cpc == 0 {
            pref := geo.cylstart(geo.cyl(want));
          } else {
            j := Rotational(geo.cyl(want), geo.rpos(want));
          }
        }
      }
      if j < 0 {
        bno := Mapsearch(pref, geo.frag);
        if bno < 0 {
          return;
        }
        WholeRun(Map(), geo.frag, bno);
        j := Fragstoblks(geo.frag, bno);
        rotor := bno;
      }
      bno := Blkstofrags(geo.frag, j);
      FragJoin(geo.frag, j, 0);
      FreeInGroup(j, 0);
      BlockBits(bno);
      TakeBlock(j);
    }

    lemma AnyBlockFree()
      requires Valid()
      ensures cs.nbfree >= 0
      ensures cs.nbfree == 0 <==> forall j: nat :: !BlockHasRun(Map(), j, geo.frag)
      ensures forall j: nat :: j < geo.MapBlocks() ==> (BlockHasRun(Map(), j, geo.frag) <==> Full(Map()[j]))
    {
      TotalPositive(WholeBlocks, Map());
      MapSize(geo);
      forall j: nat | j < geo.MapBlocks()
        ensures BlockHasRun(Map(), j, geo.frag) <==> Full(Map()[j])
        ensures Full(Map()[j]) <==> Value(WholeBlocks, j, Map()[j]) > 0
      {
        WholeIsRun(Map()[j]);
      }
    }

    // -------------------------------------------------------------------------------------------------
    // Fragments
    // -------------------------------------------------------------------------------------------------

    /** The loop of alloccg that settles the size to allocate from; `frag` when only a whole block will do. */
    method AllocSize(frags: nat) returns (allocsiz: nat)
      requires Valid() && 1 <= frags < geo.frag
      ensures frags <= allocsiz <= geo.frag
      ensures allocsiz < geo.frag ==> exists j: nat :: BlockHasRun(Map(), j, allocsiz)
      ensures forall k: nat, j: nat :: frags <= k < allocsiz ==> !BlockHasRun(Map(), j, k)
    {
      hide Blocks, Total, Geometry.MapBlocks, Geometry.MapBytes;
      allocsiz := frags;
      while allocsiz < geo.frag && frsum[allocsiz] == 0
        invariant frags <= allocsiz <= geo.frag
        invariant forall k: nat, j: nat :: frags <= k < allocsiz ==> !BlockHasRun(Map(), j, k)
      {
        RunsCounted(allocsiz);
        allocsiz := allocsiz + 1;
      }
      if allocsiz < geo.frag {
        RunsCounted(allocsiz);
      }
    }

    lemma RunsCounted(k: nat)
      requires Valid() && 1 <= k < geo.frag
      ensures frsum[k] != 0 <==> exists j: nat :: BlockHasRun(Map(), j, k)
    {
      hide Blocks, Total, HasRun;
      TotalPositive(RunsOf(k), Map());
      forall j: nat | j < |Map()|
        ensures Value(RunsOf(k), j, Map()[j]) > 0 <==> BlockHasRun(Map(), j, k)
      {
        RunsPositive(Map()[j], k);
      }
      if exists j: nat :: BlockHasRun(Map(), j, k) {
        var j: nat :| BlockHasRun(Map(), j, k);
        assert Value(RunsOf(k), j, Map()[j]) > 0;
      }
    }

    lemma RunBits(bno: nat, k: nat)
      requires Sized() && bno < geo.fpg && RunStart(Map(), geo.frag, bno, k)
      ensures bno + k <= free.Length && forall i :: bno <= i < bno + k ==> free[i]
    {
      hide Blocks, Geometry.MapBlocks, Geometry.MapBytes, Blkstofrags, Fragstoblks, Fragnum;
      ghost var j, o := BlockWithin(bno);
      forall i | bno <= i < bno + k
        ensures free[i]
      {
        assert Map()[j][o + (i - bno)];
      }
    }

    /** The tail of alloccg: take the first `n` fragments of a run of `k`. */
    method TakeFrags(bno: nat, k: nat, n: nat)
      requires Valid() && RunStart(Map(), geo.frag, bno, k) && 1 <= n <= k < geo.frag
      modifies this`cs, free, frsum
      ensures Valid() && bno + n <= geo.fpg <= free.Length && Fragnum(geo.frag, bno) + n <= geo.frag
      ensures forall i :: bno <= i < bno + n ==> old(free[i])
      ensures free[..] == Fill(old(free[..]), bno, n, false)
      ensures cs == old(cs).(nffree := old(cs.nffree) - n)
    {
      hide Blocks, Total, Geometry.MapBlocks, Geometry.MapBytes, Blkstofrags, Fragstoblks, Fragnum, Fill, RunAt;
      MapSize(geo);
      FragSplit(geo.frag, bno);
      ghost var j, o := Fragstoblks(geo.frag, bno), Fragnum(geo.frag, bno);
      PartialRun(Map()[j], o, k);
      FreeInGroup(j, o);
      RunBits(bno, k);
      MapFilled(free[..], geo.frag, geo.MapBlocks(), j, o, n, false);
      TakeFromRunCount(Map()[j], o, k, n);
      Fillbits(bno, n, false);
      cs := cs.(nffree := cs.nffree - n);
      frsum[k] := frsum[k] - 1;
      if n != k {
        frsum[k - n] := frsum[k - n] + 1;
      }
    }

    /** alloccg hacking up the whole block it just took: all but its first `n` fragments become free again. */
    method HackUp(bno: nat, n: nat)
      requires Valid() && Fragnum(geo.frag, bno) == 0 && bno + geo.frag <= geo.fpg && 1 <= n < geo.frag
      requires bno + geo.frag <= free.Length && forall i :: bno <= i < bno + geo.frag ==> !free[i]
      modifies this`cs, free, frsum
      ensures Valid() && bno + geo.frag <= free.Length
      ensures free[..] == Fill(old(free[..]), bno + n, geo.frag - n, true)
      ensures cs == old(cs).(nffree := old(cs.nffree) + (geo.frag - n))
    {
      hide Blocks, Total, Geometry.MapBlocks, Geometry.MapBytes, Blkstofrags, Fragstoblks, Fragnum, RunSet;
      MapSize(geo);
      BlockBits(bno);
      FragSplit(geo.frag, bno);
      ghost var j := Fragstoblks(geo.frag, bno);
      MapFilled(free[..], geo.frag, geo.MapBlocks(), j, n, geo.frag - n, true);
      HackedBlock(Map()[j], n);
      NothingFree(Map()[j]);
      Fillbits(bno + n, geo.frag - n, true);
      var i := geo.frag - n;
      cs := cs.(nffree := cs.nffree + i);
      frsum[i] := frsum[i] + 1;
    }

    /**
     fragextend, once the group is at hand: grow the fragment at `bno` from `osize` to `nsize` fragments in place,
     if the fragments behind it are free.
     */
    method ExtendFrags(bno: nat, osize: nat, nsize: nat) returns (ok: bool)
      requires Valid() && 1 <= osize < nsize && Fragnum(geo.frag, bno) + nsize <= geo.frag && bno < geo.fpg
      requires bno + nsize <= free.Length && !free[bno + osize - 1]
      modifies this`cs, free, frsum
      ensures Valid() && bno + nsize <= geo.fpg
      ensures ok <==> forall x :: bno + osize <= x < bno + nsize ==> old(free[x])
      ensures !ok ==> free[..] == old(free[..]) && cs == old(cs)
      ensures ok ==> free[..] == Fill(old(free[..]), bno + osize, nsize - osize, false)
      ensures ok ==> cs == old(cs).(nffree := old(cs.nffree) - (nsize - osize))
    {
      hide Blocks, Total, Geometry.MapBlocks, Geometry.MapBytes, Blkstofrags, Fragstoblks, Fragnum;
      ghost var j, o := BlockWithin(bno);
      var i;
      ok, i := FreeBehind(bno, osize, nsize, Fragnum(geo.frag, bno));
      if !ok {
        return;
      }
      RunBehind(j, o, bno, osize, i);
      FragJoin(geo.frag, j, o + osize);
      TakeFrags(bno + osize, i - osize, nsize - osize);
    }

    /** The loops of fragextend: whether the fragments behind are free, and where the free ones end. */
    method FreeBehind(bno: nat, osize: nat, nsize: nat, bbase: nat) returns (ok: bool, i: nat)
      requires 1 <= osize < nsize && bbase + nsize <= geo.frag && bno + (geo.frag - bbase) <= free.Length
      ensures ok <==> forall x :: bno + osize <= x < bno + nsize ==> free[x]
      ensures ok ==> nsize <= i <= geo.frag - bbase && forall x :: bno + osize <= x < bno + i ==> free[x]
      ensures ok ==> i == geo.frag - bbase || !free[bno + i]
    {
      i := osize;
      while i < nsize
        invariant osize <= i <= nsize
        invariant forall x :: bno + osize <= x < bno + i ==> free[x]
      {
        if !free[bno + i] {
          return false, i;
        }
        i := i + 1;
      }
      ok, i := true, nsize;
      while i < geo.frag - bbase && free[bno + i]
        invariant nsize <= i <= geo.frag - bbase
        invariant forall x :: bno + osize <= x < bno + i ==> free[x]
      {
        i := i + 1;
      }
    }

    /** The block and offset of a fragment of the group. */
    lemma BlockWithin(bno: nat) returns (j: nat, o: nat)
      requires Sized() && bno < geo.fpg
      ensures j == Fragstoblks(geo.frag, bno) && o == Fragnum(geo.frag, bno) && o < geo.frag
      ensures bno == Blkstofrags(geo.frag, j) + o && Blkstofrags(geo.frag, j) + geo.frag <= geo.fpg <= free.Length
      ensures j < geo.fpg / geo.frag <= geo.MapBlocks()
      ensures forall x :: 0 <= x < geo.frag ==> Map()[j][x] == free[Blkstofrags(geo.frag, j) + x]
    {
      FragSplit(geo.frag, bno);
      j, o := Fragstoblks(geo.frag, bno), Fragnum(geo.frag, bno);
      MapSize(geo);
      BlksOrder(geo.frag, geo.fpg / geo.frag, j);
      BlksOrder(geo.frag, j, geo.fpg / geo.frag);
      MapBlock(j);
    }

    /** The free fragments behind an allocated piece are a maximal run. */
    lemma RunBehind(j: nat, o: nat, bno: nat, osize: nat, i: nat)
      requires Sized() && j < geo.MapBlocks() && Blkstofrags(geo.frag, j) + geo.frag <= free.Length
      requires forall x :: 0 <= x < geo.frag ==> Map()[j][x] == free[Blkstofrags(geo.frag, j) + x]
      requires bno == Blkstofrags(geo.frag, j) + o && 1 <= osize < i <= geo.frag - o
      requires !free[bno + osize - 1] && forall x :: bno + osize <= x < bno + i ==> free[x]
      requires i < geo.frag - o ==> !free[bno + i]
      ensures RunAt(Map()[j], o + osize, i - osize)
    {
      hide Blocks, Geometry.MapBlocks, Geometry.MapBytes, Blkstofrags;
      var b := Map()[j];
      assert !b[o + osize - 1];
      forall x | o + osize <= x < o + i
        ensures b[x]
      {
        assert b[x] == free[bno + (x - o)];
      }
    }

    lemma BlockBits(bno: nat)
      requires Sized() && Fragnum(geo.frag, bno) == 0 && bno < geo.fpg
      ensures var j := Fragstoblks(geo.frag, bno);
              && j < geo.fpg / geo.frag <= geo.MapBlocks() && bno == Blkstofrags(geo.frag, j)
                  && bno + geo.frag <= geo.fpg <= free.Length
              && (Full(Map()[j]) <==> forall i :: bno <= i < bno + geo.frag ==> free[i])
              && (FreeSet(Map()[j]) == {} <==> forall i :: bno <= i < bno + geo.frag ==> !free[i])
    {
      hide Blocks, Geometry.MapBlocks, Geometry.MapBytes, Blkstofrags, Fragstoblks, Fragnum;
      ghost var j, o := BlockWithin(bno);
      ghost var was := Map()[j];
      assert forall i :: bno <= i < bno + geo.frag ==> free[i] == was[i - bno];
      assert forall x :: 0 <= x < geo.frag ==> was[x] == free[bno + x];
      assert forall x :: 0 <= x < geo.frag && was[x] ==> x in FreeSet(was);
    }

    /**
     free of a whole block.  `ok` is false for the "freeing free block" panic.  The code does not notice a block
     that is free in part: the summaries survive exactly when no fragment of the block was free.
     */
    method FreeBlock(bno: nat) returns (ok: bool)
      requires Valid() && Fragnum(geo.frag, bno) == 0 && bno < geo.fpg
      modifies this`cs, free, btot, b
      ensures bno + geo.frag <= geo.fpg <= free.Length
      ensures ok <==> !(forall i :: bno <= i < bno + geo.frag ==> old(free[i]))
      ensures !ok ==> Valid() && free[..] == old(free[..]) && cs == old(cs)
      ensures ok ==> (Valid() <==> forall i :: bno <= i < bno + geo.frag ==> !old(free[i]))
      ensures ok ==>
        free[..] == Fill(old(free[..]), bno, geo.frag, true) && cs == old(cs).(nbfree := old(cs.nbfree) + 1)
    {
      hide Blocks, Total, Geometry.MapBlocks, Geometry.MapBytes, Blkstofrags, Fragstoblks, Fragnum;
      var j := Fragstoblks(geo.frag, bno);
      BlockBits(bno);
      MapSize(geo);
      var all := Isblock(j);
      ghost var was := Map()[j];
      if all {
        return false;
      }
      MapFilled(free[..], geo.frag, geo.MapBlocks(), j, 0, geo.frag, true);
      Fillbits(bno, geo.frag, true);
      ghost var now := Map()[j];
      forall k | 1 <= k < geo.frag
        ensures RunSet(now, k) == {} && (FreeSet(was) == {} ==> RunSet(was, k) == {})
      {
        NoRuns(now, k);
        if FreeSet(was) == {} {
          NoRuns(was, k);
        }
      }
      assert FreeSet(was) != {} ==> |FreeSet(was)| > 0;
      Tally(j, 1);
      ok := true;
    }

    /** free of fewer fragments than a block; `ok` is false for the "freeing free frag" panic. */
    method FreeFrags(bno: nat, frags: nat) returns (ok: bool, whole: bool)
      requires Valid() && bno < geo.fpg && 1 <= frags < geo.frag && Fragnum(geo.frag, bno) + frags <= geo.frag
      modifies this`cs, free, frsum, btot, b
      ensures bno + frags <= geo.fpg <= free.Length
      ensures ok <==> forall i :: bno <= i < bno + frags ==> !old(free[i])
      ensures ok ==> Valid() && free[..] == Fill(old(free[..]), bno, frags, true)
      ensures ok ==> cs == if whole then old(cs).(nbfree := old(cs.nbfree) + 1, nffree :=
        old(cs.nffree) + frags - geo.frag)
                           else old(cs).(nffree := old(cs.nffree) + frags)
    {
      hide Blocks, Total, Geometry.MapBlocks, Geometry.MapBytes, Blkstofrags, Fragstoblks, Fragnum,
        RunSet, Fill;
      ghost var j, o := BlockWithin(bno);
      MapSize(geo);
      MapFilled(free[..], geo.frag, geo.MapBlocks(), j, o, frags, true);
      ghost var was := Map()[j];
      whole := false;
      ok := FreeLoose(j, o, bno, frags);
      if !ok {
        return;
      }
      assert forall x :: o <= x < o + frags ==> was[x] == old(free[bno + (x - o)]);
      FreedCount(was, o, frags);
      FragJoin(geo.frag, j, 0);
      var bbase := bno - Fragnum(geo.frag, bno);
      whole := Reassemble(Fragstoblks(geo.frag, bbase));
    }

    /** The first half of free for a fragment: recount the runs of its block around the loop that sets its bits. */
    method FreeLoose(ghost j: nat, ghost o: nat, bno: nat, frags: nat) returns (ok: bool)
      requires Sized() && FragsCounted() && bno < geo.fpg && j < geo.MapBlocks() && o + frags <= geo.frag
      requires bno == Blkstofrags(geo.frag, j) + o && o == Fragnum(geo.frag, bno) && bno + frags <= free.Length
      modifies this`cs, free, frsum
      ensures ok <==> forall i :: bno <= i < bno + frags ==> !old(free[i])
      ensures ok ==>
        free[..] == Fill(old(free[..]), bno, frags, true) && cs == old(cs).(nffree := old(cs.nffree) + frags)
      ensures ok ==> forall k: nat :: 1 <= k < geo.frag ==> frsum[k] == Total(RunsOf(k), Map())
    {
      hide Blocks, Total, Geometry.MapBlocks, Geometry.MapBytes, Blkstofrags, Fragstoblks, Fragnum, RunSet, Fill;
      var bbase := bno - Fragnum(geo.frag, bno);
      BlockPlace(j);
      MapFilled(free[..], geo.frag, geo.MapBlocks(), j, o, frags, true);
      ghost var freed := Fill(Map()[j], o, frags, true);
      var blk := BlockAt(bbase);
      FragAcct(geo.frag, blk, frsum, -1);
      ok := MarkFree(bno, frags);
      if ok {
        cs := cs.(nffree := cs.nffree + frags);
        BlockPlace(j);
        assert Map()[j] == freed;
        blk := BlockAt(bbase);
        FragAcct(geo.frag, blk, frsum, 1);
      }
    }

    lemma BlockPlace(j: nat)
      requires Sized() && j < geo.MapBlocks()
      ensures ValidFrag(geo.frag) && geo.MapBlocks() * geo.frag == free.Length
      ensures Blkstofrags(geo.frag, j) + geo.frag <= free.Length && Map()[j] == BlockAt(Blkstofrags(geo.frag, j))
    {
      MapSize(geo);
      BlksOrder(geo.frag, j, geo.MapBlocks());
      MapBlock(j);
    }

    /** The loop of free that sets the bits of a fragment, stopping at one that is set already. */
    method MarkFree(bno: nat, frags: nat) returns (ok: bool)
      requires bno + frags <= free.Length
      modifies free
      ensures ok <==> forall i :: bno <= i < bno + frags ==> !old(free[i])
      ensures ok ==> free[..] == Fill(old(free[..]), bno, frags, true)
    {
      var i := 0;
      while i < frags
        invariant i <= frags
        invariant free[..] == Fill(old(free[..]), bno, i, true)
        invariant forall x :: bno <= x < bno + i ==> !old(free[x])
      {
        if free[bno + i] {
          return false;
        }
        free[bno + i] := true;
        i := i + 1;
      }
      ok := true;
    }

    /** The second half of free for a fragment: account for a block that has become whole again. */
    method Reassemble(j: nat) returns (whole: bool)
      requires Sized() && frotor < free.Length && Padded() && j < geo.fpg / geo.frag <= geo.MapBlocks()
      requires forall k: nat :: 1 <= k < geo.frag ==> frsum[k] == Total(RunsOf(k), Map())
      requires var extra := if Full(Map()[j]) then 1 else 0;
               && cs.nffree == Total(LooseFrags, Map()) + extra * geo.frag
               && cs.nbfree == Total(WholeBlocks, Map()) - extra
               && (forall c: nat :: c < geo.ncyl ==> btot[c] == Total(BlocksIn(geo.InCyl(c)), Map()) - if c ==
                   geo.cyl(j) then extra else 0)
               && (forall c: nat, p: nat :: c < geo.ncyl && p < geo.nrpos ==>
                     b[c, p] == Total(BlocksIn(geo.AtPos(c, p)), Map()) - if c == geo.cyl(j)
                       && p == geo.rpos(j) then extra else 0)
      modifies this`cs, btot, b
      ensures Valid() && (whole <==> Full(Map()[j]))
      ensures cs == if whole then old(cs).(nbfree := old(cs.nbfree) + 1, nffree := old(cs.nffree) - geo.frag)
        else old(cs)
    {
      hide Blocks, Total, Geometry.MapBlocks, Geometry.MapBytes;
      whole := Isblock(j);
      if whole {
        cs := cs.(nffree := cs.nffree - geo.frag);
        Tally(j, 1);
      }
    }

    // -------------------------------------------------------------------------------------------------
    // Inodes
    // -------------------------------------------------------------------------------------------------

    /** The free inode count agrees with the map, and every inode below the rotor is in use. */
    ghost predicate InodesValid()
      reads this`cs, this`irotor, iused
    {
      && geo.Valid() && iused.Length == geo.ipg && irotor < geo.ipg
      && cs.nifree == |Unused(iused[..])|
      && forall i :: 0 <= i < irotor ==> iused[i]
    }

    /** skpc(0xff): skip the full bytes of the inode map; how many bytes are left. */
    method Skpc(start: nat, len: nat) returns (loc: nat)
      requires (start + len) * NBBY <= iused.Length
      ensures loc <= len
      ensures loc > 0 ==> exists x :: (start + len - loc) * NBBY <= x < (start + len - loc) * NBBY + NBBY && !iused[x]
      ensures forall i :: start * NBBY <= i < (start + len - loc) * NBBY ==> iused[i]
    {
      loc := len;
      while loc > 0
        invariant loc <= len
        invariant forall i :: start * NBBY <= i < (start + len - loc) * NBBY ==> iused[i]
      {
        var at := (start + len - loc) * NBBY;
        if !(forall x :: at <= x < at + NBBY ==> iused[x]) {
          return;
        }
        loc := loc - 1;
      }
    }

    /**
     The search of ialloccg from the rotor on: the lowest unused inode; -1 stands for the two panics.  The second
     scan, from the start of the map, never finds anything the first one missed.
     */
    method NextInode() returns (ino: int)
      requires InodesValid()
      ensures ino < 0 <==> forall i :: 0 <= i < geo.ipg ==> iused[i]
      ensures ino >= 0 ==> ino < geo.ipg && !iused[ino] && forall i :: 0 <= i < ino ==> iused[i]
    {
      var start := irotor / NBBY;
      var len := (geo.ipg - irotor + NBBY - 1) / NBBY;
      RotorBytes(geo.ipg, irotor);
      var loc := Skpc(start, len);
      if loc == 0 {
        len := start + 1;
        start := 0;
        loc := Skpc(0, len);
        if loc == 0 {
          return -1;
        }
        assert false;
      }
      ino := (start + len - loc) * NBBY;
      ghost var at := ino;
      while iused[ino]
        invariant at <= ino < at + NBBY
        invariant forall i :: at <= i < ino ==> iused[i]
        invariant exists x :: ino <= x < at + NBBY && !iused[x]
        decreases at + NBBY - ino
      {
        ino := ino + 1;
      }
    }

    /** The choice ialloccg makes and its "gotit" part. */
    method TakeInode(ipref: nat, dir: bool) returns (ino: int)
      requires InodesValid()
      modifies this`cs, this`irotor, iused
      ensures InodesValid() && (old(Valid()) ==> Valid())
      ensures ino < 0 <==> old(cs.nifree) == 0
      ensures ino < 0 ==> iused[..] == old(iused[..]) && cs == old(cs)
      ensures ino >= 0 ==> ino < geo.ipg && !old(iused[ino]) && iused[..] == old(iused[..])[ino := true]
      ensures ino >= 0 ==> cs == old(cs).(nifree := old(cs.nifree) - 1, ndir := old(cs.ndir) + if dir then 1 else 0)
      ensures InodeFree(geo, old(iused[..]), ipref) ==> ino == InodePlace(geo, ipref)
      ensures !(ipref != 0 && !old(iused[ipref % geo.ipg])) && ino >= 0 ==> forall i :: 0 <= i < ino ==> old(iused[i])
    {
      if ipref != 0 && !iused[ipref % geo.ipg] {
        ino := ipref % geo.ipg;
      } else {
        ino := NextInode();
        if ino < 0 {
          assert Unused(iused[..]) == {};
          return;
        }
        irotor := ino;
      }
      assert ino in Unused(iused[..]);
      assert Unused(iused[..][ino := true]) == Unused(iused[..]) - {ino};
      iused[ino] := true;
      cs := cs.(nifree := cs.nifree - 1);
      if dir {
        cs := cs.(ndir := cs.ndir + 1);
      }
    }

    /** ifree within the group; `ok` is false for the "freeing free inode" panic. */
    method GiveInode(ino: nat, dir: bool) returns (ok: bool)
      requires InodesValid() && ino < geo.ipg
      modifies this`cs, this`irotor, iused
      ensures InodesValid() && (old(Valid()) ==> Valid())
      ensures ok <==> old(iused[ino])
      ensures !ok ==> iused[..] == old(iused[..]) && cs == old(cs)
      ensures ok ==> iused[..] == old(iused[..])[ino := false]
      ensures ok ==> cs == old(cs).(nifree := old(cs.nifree) + 1, ndir := old(cs.ndir) - if dir then 1 else 0)
    {
      if !iused[ino] {
        return false;
      }
      assert Unused(iused[..][ino := false]) == Unused(iused[..]) + {ino};
      iused[ino] := false;
      if ino < irotor {
        irotor := ino;
      }
      cs := cs.(nifree := cs.nifree + 1);
      if dir {
        cs := cs.(ndir := cs.ndir - 1);
      }
      ok := true;
    }
  }

  ghost function Unused(bits: seq<bool>): set<nat> {
    set i: nat | i < |bits| && !bits[i]
  }

  /** The bytes from the rotor's on make up the rest of the inode map, as fs_ipg is a multiple of NBBY. */
  lemma RotorBytes(ipg: nat, rotor: nat)
    requires ipg % NBBY == 0 && rotor < ipg
    ensures (rotor / NBBY + (ipg - rotor + NBBY - 1) / NBBY) * NBBY == ipg
  {
  }

  /** A run that is shorter than its block leaves the block short of whole. */
  lemma PartialRun(b: seq<bool>, o: nat, k: nat)
    requires RunAt(b, o, k) && k < |b|
    ensures o + k <= |b| && b[o] && !Full(b)
  {
    assert o > 0 ==> !b[o - 1];
  }

  lemma NothingFree(b: seq<bool>)
    requires |b| > 0 && FreeSet(b) == {}
    ensures !Full(b) && forall k :: RunSet(b, k) == {}
  {
    assert 0 !in FreeSet(b);
    forall k
      ensures RunSet(b, k) == {}
    {
      NoRuns(b, k);
    }
  }

  lemma FreedCount(b: seq<bool>, o: nat, n: nat)
    requires o + n <= |b| && n >= 1 && forall i :: o <= i < o + n ==> !b[i]
    ensures !Full(b) && |FreeSet(Fill(b, o, n, true))| == |FreeSet(b)| + n
    ensures Full(Fill(b, o, n, true)) ==> |FreeSet(b)| == |b| - n
  {
    assert !b[o];
    FillCount(b, o, n, true);
    FullSize(Fill(b, o, n, true));
  }

  lemma WholeIsRun(b: seq<bool>)
    requires |b| > 0
    ensures HasRun(b, |b|) <==> Full(b)
    ensures RunAt(b, 0, |b|) <==> Full(b)
  {
    assert Full(b) ==> RunAt(b, 0, |b|);
    assert forall o :: RunAt(b, o, |b|) ==> o == 0;
  }

  lemma WholeRun(m: seq<seq<bool>>, frag: nat, d: int)
    requires frag > 0 && RunStart(m, frag, d, frag) && |m[Fragstoblks(frag, d)]| == frag
    ensures WholeAt(m, frag, d)
    ensures d == Blkstofrags(frag, Fragstoblks(frag, d))
  {
    FragSplit(frag, d);
  }

  /** The place in its group of an inode. */
  function InodePlace(geo: Geometry, ino: nat): nat {
    if geo.ipg == 0 then 0 else ino % geo.ipg
  }

  /** There is a preferred inode, and it is unused. */
  predicate InodeFree(geo: Geometry, iused: seq<bool>, ipref: nat) {
    ipref != 0 && InodePlace(geo, ipref) < |iused| && !iused[InodePlace(geo, ipref)]
  }

  /** The place in its group of the block that a preferred address is in. */
  function PrefPlace(geo: Geometry, bpref: nat): nat
    requires geo.Valid()
  {
    geo.Dtogd(bpref - bpref % geo.frag)
  }

  /** The block at `p` is wholly free. */
  predicate BlockFree(frag: nat, free: seq<bool>, p: nat) {
    p + frag <= |free| && forall x :: p <= x < p + frag ==> free[x]
  }

  lemma AlignDown(x: nat, frag: nat)
    requires 0 < frag
    ensures x % frag < frag && x % frag <= x && (x - x % frag) % frag == 0
  {
    DivMod(x, frag);
    DivModUnique(x - x % frag, frag, x / frag, 0);
  }

  lemma AlignedPlace(p: nat, fpg: nat, frag: nat)
    requires 0 < frag && p < fpg && p % frag == 0 && fpg % frag == 0
    ensures Fragnum(frag, p) == 0 && Fragstoblks(frag, p) < fpg / frag && p == Blkstofrags(frag, Fragstoblks(frag, p))
  {
    DivMod(p, frag);
    DivMod(fpg, frag);
    if fpg / frag <= p / frag {
      MulStepWeak(fpg / frag, p / frag, frag);
    }
  }

  lemma PrefAligned(geo: Geometry, bpref: nat)
    requires geo.Valid()
    ensures
      var p := PrefPlace(geo, bpref);
      p < geo.fpg && Fragnum(geo.frag, p) == 0 && Fragstoblks(geo.frag, p) < geo.fpg / geo.frag
      && p == Blkstofrags(geo.frag, Fragstoblks(geo.frag, p))
  {
    hide Fragnum, Fragstoblks, Blkstofrags;
    AlignDown(bpref, geo.frag);
    AlignedMod(bpref - bpref % geo.frag, geo.fpg, geo.frag);
    AlignedPlace(PrefPlace(geo, bpref), geo.fpg, geo.frag);
  }

  /** The preferred block is the one its first fragment names. */
  lemma PrefWhole(geo: Geometry, free: seq<bool>, bpref: nat)
    requires geo.Valid() && |free| == geo.MapBytes() * NBBY
    ensures
      var p := PrefPlace(geo, bpref);
      var j := Fragstoblks(geo.frag, p);
      && geo.MapBlocks() * geo.frag <= |free| && j < geo.MapBlocks() && p + geo.frag <= geo.fpg <= |free|
      && (Full(Blocks(free, geo.frag, geo.MapBlocks())[j]) <==> BlockFree(geo.frag, free, p))
      && forall d: nat :: Fragnum(geo.frag, d) == 0 && Fragstoblks(geo.frag, d) == j ==> d == p
  {
    hide Geometry.MapBlocks, Geometry.MapBytes, PrefPlace, Fragnum, Fragstoblks, Blocks;
    MapSize(geo);
    PrefAligned(geo, bpref);
    var p := PrefPlace(geo, bpref);
    var j := Fragstoblks(geo.frag, p);
    BlksOrder(geo.frag, j, geo.fpg / geo.frag);
    var b := Blocks(free, geo.frag, geo.MapBlocks())[j];
    forall i: nat | i < geo.frag
      ensures b[i] == free[p + i]
    {
      BlockBit(free, geo.frag, geo.MapBlocks(), j, i);
    }
    if Full(b) {
      forall x | p <= x < p + geo.frag
        ensures free[x]
      {
        assert b[x - p];
      }
    }
    forall d: nat | Fragnum(geo.frag, d) == 0 && Fragstoblks(geo.frag, d) == j
      ensures d == p
    {
      FragSplit(geo.frag, d);
    }
  }

  lemma AlignedMod(x: nat, fpg: nat, frag: nat)
    requires frag > 0 && fpg > 0 && x % frag == 0 && fpg % frag == 0
    ensures (x % fpg) % frag == 0
  {
    DivMod(x, frag);
    DivMod(fpg, frag);
    DivMod(x, fpg);
    var q, a, t := x / frag, fpg / frag, x / fpg;
    assert x % fpg == (q - a * t) * frag by {
      assert x == q * frag && fpg == a * frag && x % fpg == x - t * fpg;
      assert t * fpg == (a * t) * frag;
    }
    assert q - a * t >= 0 by {
      assert q - a * t < 0 ==> (q - a * t) * frag < 0;
    }
    DivModUnique(x % fpg, frag, q - a * t, 0);
  }
}
