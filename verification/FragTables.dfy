/**
 The fragment bit-pattern tables of bsd/ufs_tables.c and the pattern test used on them.

 A file system block is divided into `frag` fragments (1, 2, 4 or 8).  The free map holds one bit per
 fragment, set when the fragment is free.  The allocator never walks a block bit by bit: it looks a byte of
 the map up in a table to learn which run lengths occur in it, and then slides an "around" mask over a block
 and compares with an "inside" pattern to find a run.  This module shows that both devices mean the same
 thing: a maximal run of free fragments of an exact length.
 */
module FragTables {

  /** The free bits of one block: at most eight, as MAXFRAG is eight. */
  type Block = b: seq<bool> | |b| <= 8 witness []

  predicate ValidFrag(frag: nat) {
    frag == 1 || frag == 2 || frag == 4 || frag == 8
  }

  /** A maximal run of exactly `k` free fragments starts at offset `o` of block `b`. */
  ghost predicate RunAt(b: seq<bool>, o: int, k: int) {
    && 0 <= o && 1 <= k && o + k <= |b|
    && (forall i :: o <= i < o + k ==> b[i])
    && (o > 0 ==> !b[o - 1])
    && (o + k < |b| ==> !b[o + k])
  }

  ghost predicate HasRun(b: seq<bool>, k: int) {
    exists o :: 0 <= o < |b| && RunAt(b, o, k)
  }

  // ---------------------------------------------------------------------------------------------------
  // The tables, in the rows of eight in which the source lists them.
  // ---------------------------------------------------------------------------------------------------

  function Select8(m: bv10, a0: bv10, a1: bv10, a2: bv10, a3: bv10, a4: bv10, a5: bv10, a6: bv10, a7: bv10): bv10 {
    if m & 4 == 0
    then (if m & 2 == 0 then (if m & 1 == 0 then a0 else a1) else (if m & 1 == 0 then a2 else a3))
    else (if m & 2 == 0 then (if m & 1 == 0 then a4 else a5) else (if m & 1 == 0 then a6 else a7))
  }

  function Select4(m: bv10, a0: bv10, a1: bv10, a2: bv10, a3: bv10): bv10 {
    if m & 2 == 0 then (if m & 1 == 0 then a0 else a1) else (if m & 1 == 0 then a2 else a3)
  }

  function FragTbl124(m: bv10): bv10 {
    Select4(m >> 6,
      Select8(m >> 3,
        Select8(m, 0x00, 0x16, 0x16, 0x2a, 0x16, 0x16, 0x26, 0x4e),
        Select8(m, 0x16, 0x16, 0x16, 0x3e, 0x2a, 0x3e, 0x4e, 0x8a),
        Select8(m, 0x16, 0x16, 0x16, 0x3e, 0x16, 0x16, 0x36, 0x5e),
        Select8(m, 0x16, 0x16, 0x16, 0x3e, 0x3e, 0x3e, 0x5e, 0x9e),
        Select8(m, 0x16, 0x16, 0x16, 0x3e, 0x16, 0x16, 0x36, 0x5e),
        Select8(m, 0x16, 0x16, 0x16, 0x3e, 0x3e, 0x3e, 0x5e, 0x9e),
        Select8(m, 0x2a, 0x3e, 0x3e, 0x2a, 0x3e, 0x3e, 0x2e, 0x6e),
        Select8(m, 0x3e, 0x3e, 0x3e, 0x3e, 0x2a, 0x3e, 0x6e, 0xaa)),
      Select8(m >> 3,
        Select8(m, 0x16, 0x16, 0x16, 0x3e, 0x16, 0x16, 0x36, 0x5e),
        Select8(m, 0x16, 0x16, 0x16, 0x3e, 0x3e, 0x3e, 0x5e, 0x9e),
        Select8(m, 0x16, 0x16, 0x16, 0x3e, 0x16, 0x16, 0x36, 0x5e),
        Select8(m, 0x16, 0x16, 0x16, 0x3e, 0x3e, 0x3e, 0x5e, 0x9e),
        Select8(m, 0x26, 0x36, 0x36, 0x2e, 0x36, 0x36, 0x26, 0x6e),
        Select8(m, 0x36, 0x36, 0x36, 0x3e, 0x2e, 0x3e, 0x6e, 0xae),
        Select8(m, 0x4e, 0x5e, 0x5e, 0x6e, 0x5e, 0x5e, 0x6e, 0x4e),
        Select8(m, 0x5e, 0x5e, 0x5e, 0x7e, 0x6e, 0x7e, 0x4e, 0xce)),
      Select8(m >> 3,
        Select8(m, 0x16, 0x16, 0x16, 0x3e, 0x16, 0x16, 0x36, 0x5e),
        Select8(m, 0x16, 0x16, 0x16, 0x3e, 0x3e, 0x3e, 0x5e, 0x9e),
        Select8(m, 0x16, 0x16, 0x16, 0x3e, 0x16, 0x16, 0x36, 0x5e),
        Select8(m, 0x16, 0x16, 0x16, 0x3e, 0x3e, 0x3e, 0x5e, 0x9e),
        Select8(m, 0x16, 0x16, 0x16, 0x3e, 0x16, 0x16, 0x36, 0x5e),
        Select8(m, 0x16, 0x16, 0x16, 0x3e, 0x3e, 0x3e, 0x5e, 0x9e),
        Select8(m, 0x3e, 0x3e, 0x3e, 0x3e, 0x3e, 0x3e, 0x3e, 0x7e),
        Select8(m, 0x3e, 0x3e, 0x3e, 0x3e, 0x3e, 0x3e, 0x7e, 0xbe)),
      Select8(m >> 3,
        Select8(m, 0x2a, 0x3e, 0x3e, 0x2a, 0x3e, 0x3e, 0x2e, 0x6e),
        Select8(m, 0x3e, 0x3e, 0x3e, 0x3e, 0x2a, 0x3e, 0x6e, 0xaa),
        Select8(m, 0x3e, 0x3e, 0x3e, 0x3e, 0x3e, 0x3e, 0x3e, 0x7e),
        Select8(m, 0x3e, 0x3e, 0x3e, 0x3e, 0x3e, 0x3e, 0x7e, 0xbe),
        Select8(m, 0x4e, 0x5e, 0x5e, 0x6e, 0x5e, 0x5e, 0x6e, 0x4e),
        Select8(m, 0x5e, 0x5e, 0x5e, 0x7e, 0x6e, 0x7e, 0x4e, 0xce),
        Select8(m, 0x8a, 0x9e, 0x9e, 0xaa, 0x9e, 0x9e, 0xae, 0xce),
        Select8(m, 0x9e, 0x9e, 0x9e, 0xbe, 0xaa, 0xbe, 0xce, 0x8a)))
  }

  function FragTbl8(m: bv10): bv10 {
    Select4(m >> 6,
      Select8(m >> 3,
        Select8(m, 0x00, 0x01, 0x01, 0x02, 0x01, 0x01, 0x02, 0x04),
        Select8(m, 0x01, 0x01, 0x01, 0x03, 0x02, 0x03, 0x04, 0x08),
        Select8(m, 0x01, 0x01, 0x01, 0x03, 0x01, 0x01, 0x03, 0x05),
        Select8(m, 0x02, 0x03, 0x03, 0x02, 0x04, 0x05, 0x08, 0x10),
        Select8(m, 0x01, 0x01, 0x01, 0x03, 0x01, 0x01, 0x03, 0x05),
        Select8(m, 0x01, 0x01, 0x01, 0x03, 0x03, 0x03, 0x05, 0x09),
        Select8(m, 0x02, 0x03, 0x03, 0x02, 0x03, 0x03, 0x02, 0x06),
        Select8(m, 0x04, 0x05, 0x05, 0x06, 0x08, 0x09, 0x10, 0x20)),
      Select8(m >> 3,
        Select8(m, 0x01, 0x01, 0x01, 0x03, 0x01, 0x01, 0x03, 0x05),
        Select8(m, 0x01, 0x01, 0x01, 0x03, 0x03, 0x03, 0x05, 0x09),
        Select8(m, 0x01, 0x01, 0x01, 0x03, 0x01, 0x01, 0x03, 0x05),
        Select8(m, 0x03, 0x03, 0x03, 0x03, 0x05, 0x05, 0x09, 0x11),
        Select8(m, 0x02, 0x03, 0x03, 0x02, 0x03, 0x03, 0x02, 0x06),
        Select8(m, 0x03, 0x03, 0x03, 0x03, 0x02, 0x03, 0x06, 0x0a),
        Select8(m, 0x04, 0x05, 0x05, 0x06, 0x05, 0x05, 0x06, 0x04),
        Select8(m, 0x08, 0x09, 0x09, 0x0a, 0x10, 0x11, 0x20, 0x40)),
      Select8(m >> 3,
        Select8(m, 0x01, 0x01, 0x01, 0x03, 0x01, 0x01, 0x03, 0x05),
        Select8(m, 0x01, 0x01, 0x01, 0x03, 0x03, 0x03, 0x05, 0x09),
        Select8(m, 0x01, 0x01, 0x01, 0x03, 0x01, 0x01, 0x03, 0x05),
        Select8(m, 0x03, 0x03, 0x03, 0x03, 0x05, 0x05, 0x09, 0x11),
        Select8(m, 0x01, 0x01, 0x01, 0x03, 0x01, 0x01, 0x03, 0x05),
        Select8(m, 0x01, 0x01, 0x01, 0x03, 0x03, 0x03, 0x05, 0x09),
        Select8(m, 0x03, 0x03, 0x03, 0x03, 0x03, 0x03, 0x03, 0x07),
        Select8(m, 0x05, 0x05, 0x05, 0x07, 0x09, 0x09, 0x11, 0x21)),
      Select8(m >> 3,
        Select8(m, 0x02, 0x03, 0x03, 0x02, 0x03, 0x03, 0x02, 0x06),
        Select8(m, 0x03, 0x03, 0x03, 0x03, 0x02, 0x03, 0x06, 0x0a),
        Select8(m, 0x03, 0x03, 0x03, 0x03, 0x03, 0x03, 0x03, 0x07),
        Select8(m, 0x02, 0x03, 0x03, 0x02, 0x06, 0x07, 0x0a, 0x12),
        Select8(m, 0x04, 0x05, 0x05, 0x06, 0x05, 0x05, 0x06, 0x04),
        Select8(m, 0x05, 0x05, 0x05, 0x07, 0x06, 0x07, 0x04, 0x0c),
        Select8(m, 0x08, 0x09, 0x09, 0x0a, 0x09, 0x09, 0x0a, 0x0c),
        Select8(m, 0x10, 0x11, 0x11, 0x12, 0x20, 0x21, 0x40, 0x80)))
  }

  function FragTbl(frag: nat, m: bv10): bv10 {
    if frag == 8 then FragTbl8(m) else FragTbl124(m)
  }

  function Around(k: nat): bv10 {
    match k
    case 0 => 0x3 case 1 => 0x7 case 2 => 0xf case 3 => 0x1f case 4 => 0x3f
    case 5 => 0x7f case 6 => 0xff case 7 => 0x1ff case _ => 0x3ff
  }

  function Inside(k: nat): bv10 {
    match k
    case 0 => 0x0 case 1 => 0x2 case 2 => 0x6 case 3 => 0xe case 4 => 0x1e
    case 5 => 0x3e case 6 => 0x7e case 7 => 0xfe case _ => 0x1fe
  }

  // ---------------------------------------------------------------------------------------------------
  // From bits to words
  // ---------------------------------------------------------------------------------------------------

  /** Bit i of b; false outside it. */
  predicate On(b: seq<bool>, i: int) {
    0 <= i < |b| && b[i]
  }

  function Weight(bit: bool, w: bv10): bv10 {
    if bit then w else 0
  }

  function PackBits(b0: bool, b1: bool, b2: bool, b3: bool, b4: bool, b5: bool, b6: bool, b7: bool): bv10 {
    Weight(b0, 0x01) | Weight(b1, 0x02) | Weight(b2, 0x04) | Weight(b3, 0x08) |
    Weight(b4, 0x10) | Weight(b5, 0x20) | Weight(b6, 0x40) | Weight(b7, 0x80)
  }

  /** The word whose bit i is b[i]: a byte of the map, or what the blkmap macro extracts for one block. */
  function Pack(b: seq<bool>): bv10 {
    PackBits(On(b, 0), On(b, 1), On(b, 2), On(b, 3), On(b, 4), On(b, 5), On(b, 6), On(b, 7))
  }

  /** A shift by a small amount, written so that every shift distance is a literal. */
  function Shl(x: bv10, n: nat): bv10 {
    match n
    case 0 => x case 1 => x << 1 case 2 => x << 2 case 3 => x << 3 case 4 => x << 4
    case 5 => x << 5 case 6 => x << 6 case 7 => x << 7 case _ => x << 8
  }

  /** The test `(blk & field) == subfield` of mapsearch and fragacct; both shift the block once beforehand. */
  predicate Match(blk: bv10, field: bv10, subfield: bv10) {
    (blk << 1) & field == subfield
  }

  /** The test with the masks for length `k`, after `pos` shifts. */
  predicate Hit(blk: bv10, k: nat, pos: nat)
    requires k <= 8 && pos <= 8
  {
    Match(blk, Shl(Around(k), pos), Shl(Inside(k), pos))
  }

  predicate AnyHit(blk: bv10, k: nat, n: nat)
    requires k <= 8 && n <= 8
  {
    || (n > 0 && Hit(blk, k, 0)) || (n > 1 && Hit(blk, k, 1)) || (n > 2 && Hit(blk, k, 2)) || (n > 3 && Hit(blk, k, 3))
    || (n > 4 && Hit(blk, k, 4)) || (n > 5 && Hit(blk, k, 5)) || (n > 6 && Hit(blk, k, 6)) || (n > 7 && Hit(blk, k, 7))
  }

  lemma HitLength1(b: Block, pos: nat)
    requires pos + 1 <= |b|
    ensures Hit(Pack(b), 1, pos) <==> RunAt(b, pos, 1)
  {
    match pos
    case 0 => assert Hit(Pack(b), 1, 0) <==> RunAt(b, 0, 1);
    case 1 => assert Hit(Pack(b), 1, 1) <==> RunAt(b, 1, 1);
    case 2 => assert Hit(Pack(b), 1, 2) <==> RunAt(b, 2, 1);
    case 3 => assert Hit(Pack(b), 1, 3) <==> RunAt(b, 3, 1);
    case 4 => assert Hit(Pack(b), 1, 4) <==> RunAt(b, 4, 1);
    case 5 => assert Hit(Pack(b), 1, 5) <==> RunAt(b, 5, 1);
    case 6 => assert Hit(Pack(b), 1, 6) <==> RunAt(b, 6, 1);
    case _ => assert Hit(Pack(b), 1, 7) <==> RunAt(b, 7, 1);
  }

  lemma HitLength2(b: Block, pos: nat)
    requires pos + 2 <= |b|
    ensures Hit(Pack(b), 2, pos) <==> RunAt(b, pos, 2)
  {
    match pos
    case 0 => assert Hit(Pack(b), 2, 0) <==> RunAt(b, 0, 2);
    case 1 => assert Hit(Pack(b), 2, 1) <==> RunAt(b, 1, 2);
    case 2 => assert Hit(Pack(b), 2, 2) <==> RunAt(b, 2, 2);
    case 3 => assert Hit(Pack(b), 2, 3) <==> RunAt(b, 3, 2);
    case 4 => assert Hit(Pack(b), 2, 4) <==> RunAt(b, 4, 2);
    case 5 => assert Hit(Pack(b), 2, 5) <==> RunAt(b, 5, 2);
    case _ => assert Hit(Pack(b), 2, 6) <==> RunAt(b, 6, 2);
  }

  lemma HitLength3(b: Block, pos: nat)
    requires pos + 3 <= |b|
    ensures Hit(Pack(b), 3, pos) <==> RunAt(b, pos, 3)
  {
    match pos
    case 0 => assert Hit(Pack(b), 3, 0) <==> RunAt(b, 0, 3);
    case 1 => assert Hit(Pack(b), 3, 1) <==> RunAt(b, 1, 3);
    case 2 => assert Hit(Pack(b), 3, 2) <==> RunAt(b, 2, 3);
    case 3 => assert Hit(Pack(b), 3, 3) <==> RunAt(b, 3, 3);
    case 4 => assert Hit(Pack(b), 3, 4) <==> RunAt(b, 4, 3);
    case _ => assert Hit(Pack(b), 3, 5) <==> RunAt(b, 5, 3);
  }

  lemma HitLength4(b: Block, pos: nat)
    requires pos + 4 <= |b|
    ensures Hit(Pack(b), 4, pos) <==> RunAt(b, pos, 4)
  {
    match pos
    case 0 => assert Hit(Pack(b), 4, 0) <==> RunAt(b, 0, 4);
    case 1 => assert Hit(Pack(b), 4, 1) <==> RunAt(b, 1, 4);
    case 2 => assert Hit(Pack(b), 4, 2) <==> RunAt(b, 2, 4);
    case 3 => assert Hit(Pack(b), 4, 3) <==> RunAt(b, 3, 4);
    case _ => assert Hit(Pack(b), 4, 4) <==> RunAt(b, 4, 4);
  }

  lemma HitLength5(b: Block, pos: nat)
    requires pos + 5 <= |b|
    ensures Hit(Pack(b), 5, pos) <==> RunAt(b, pos, 5)
  {
    match pos
    case 0 => assert Hit(Pack(b), 5, 0) <==> RunAt(b, 0, 5);
    case 1 => assert Hit(Pack(b), 5, 1) <==> RunAt(b, 1, 5);
    case 2 => assert Hit(Pack(b), 5, 2) <==> RunAt(b, 2, 5);
    case _ => assert Hit(Pack(b), 5, 3) <==> RunAt(b, 3, 5);
  }

  lemma HitLength6(b: Block, pos: nat)
    requires pos + 6 <= |b|
    ensures Hit(Pack(b), 6, pos) <==> RunAt(b, pos, 6)
  {
    match pos
    case 0 => assert Hit(Pack(b), 6, 0) <==> RunAt(b, 0, 6);
    case 1 => assert Hit(Pack(b), 6, 1) <==> RunAt(b, 1, 6);
    case _ => assert Hit(Pack(b), 6, 2) <==> RunAt(b, 2, 6);
  }

  lemma HitLength7(b: Block, pos: nat)
    requires pos + 7 <= |b|
    ensures Hit(Pack(b), 7, pos) <==> RunAt(b, pos, 7)
  {
    match pos
    case 0 => assert Hit(Pack(b), 7, 0) <==> RunAt(b, 0, 7);
    case _ => assert Hit(Pack(b), 7, 1) <==> RunAt(b, 1, 7);
  }

  lemma HitLength8(b: Block, pos: nat)
    requires pos + 8 <= |b|
    ensures Hit(Pack(b), 8, pos) <==> RunAt(b, pos, 8)
  {
  }

  /** The masks find exactly the maximal runs: the neighbours just outside the run are tested too. */
  lemma HitIsRun(b: Block, k: nat, pos: nat)
    requires 1 <= k && pos + k <= |b|
    ensures Hit(Pack(b), k, pos) <==> RunAt(b, pos, k)
  {
    match k
    case 1 => HitLength1(b, pos);
    case 2 => HitLength2(b, pos);
    case 3 => HitLength3(b, pos);
    case 4 => HitLength4(b, pos);
    case 5 => HitLength5(b, pos);
    case 6 => HitLength6(b, pos);
    case 7 => HitLength7(b, pos);
    case _ => HitLength8(b, pos);
  }

  lemma AnyHitIsRun(b: Block, k: nat)
    requires 1 <= k <= |b|
    ensures AnyHit(Pack(b), k, |b| - k + 1) <==> HasRun(b, k)
  {
    forall pos: nat | pos + k <= |b|
      ensures Hit(Pack(b), k, pos) <==> RunAt(b, pos, k)
    {
      HitIsRun(b, k, pos);
    }
    if AnyHit(Pack(b), k, |b| - k + 1) {
      var pos: nat :| pos + k <= |b| && Hit(Pack(b), k, pos);
    }
  }

  // ---------------------------------------------------------------------------------------------------
  // What a table entry says
  // ---------------------------------------------------------------------------------------------------

  /** One lemma a length: the table entry has bit k-1 exactly when the masks of length k match somewhere. */
  lemma Table8Length1(m: bv10)
    requires m <= 0xff
    ensures FragTbl8(m) & 0x01 != 0 <==> AnyHit(m, 1, 8)
  {
  }

  lemma Table8Length2(m: bv10)
    requires m <= 0xff
    ensures FragTbl8(m) & 0x02 != 0 <==> AnyHit(m, 2, 7)
  {
  }

  lemma Table8Length3(m: bv10)
    requires m <= 0xff
    ensures FragTbl8(m) & 0x04 != 0 <==> AnyHit(m, 3, 6)
  {
  }

  lemma Table8Length4(m: bv10)
    requires m <= 0xff
    ensures FragTbl8(m) & 0x08 != 0 <==> AnyHit(m, 4, 5)
  {
  }

  lemma Table8Length5(m: bv10)
    requires m <= 0xff
    ensures FragTbl8(m) & 0x10 != 0 <==> AnyHit(m, 5, 4)
  {
  }

  lemma Table8Length6(m: bv10)
    requires m <= 0xff
    ensures FragTbl8(m) & 0x20 != 0 <==> AnyHit(m, 6, 3)
  {
  }

  lemma Table8Length7(m: bv10)
    requires m <= 0xff
    ensures FragTbl8(m) & 0x40 != 0 <==> AnyHit(m, 7, 2)
  {
  }

  lemma Table8Length8(m: bv10)
    requires m <= 0xff
    ensures FragTbl8(m) & 0x80 != 0 <==> AnyHit(m, 8, 1)
  {
  }

  lemma Table8(m: bv10, k: nat)
    requires m <= 0xff && 1 <= k <= 8
    ensures FragTbl8(m) & Shl(1, k - 1) != 0 <==> AnyHit(m, k, 9 - k)
  {
    hide AnyHit, FragTbl8;
    match k
    case 1 => Table8Length1(m);
    case 2 => Table8Length2(m);
    case 3 => Table8Length3(m);
    case 4 => Table8Length4(m);
    case 5 => Table8Length5(m);
    case 6 => Table8Length6(m);
    case 7 => Table8Length7(m);
    case _ => Table8Length8(m);
  }

  lemma Table4Length1(m: bv10)
    requires m <= 0xff
    ensures FragTbl124(m) & 0x10 != 0 <==> AnyHit(m & 0xf, 1, 4) || AnyHit((m >> 4) & 0xf, 1, 4)
  {
  }

  lemma Table4Length2(m: bv10)
    requires m <= 0xff
    ensures FragTbl124(m) & 0x20 != 0 <==> AnyHit(m & 0xf, 2, 3) || AnyHit((m >> 4) & 0xf, 2, 3)
  {
  }

  lemma Table4Length3(m: bv10)
    requires m <= 0xff
    ensures FragTbl124(m) & 0x40 != 0 <==> AnyHit(m & 0xf, 3, 2) || AnyHit((m >> 4) & 0xf, 3, 2)
  {
  }

  lemma Table4Length4(m: bv10)
    requires m <= 0xff
    ensures FragTbl124(m) & 0x80 != 0 <==> AnyHit(m & 0xf, 4, 1) || AnyHit((m >> 4) & 0xf, 4, 1)
  {
  }

  lemma Table4(m: bv10, k: nat)
    requires m <= 0xff && 1 <= k <= 4
    ensures FragTbl124(m) & Shl(1, k + 3) != 0 <==> AnyHit(m & 0xf, k, 5 - k) || AnyHit((m >> 4) & 0xf, k, 5 - k)
  {
    hide AnyHit, FragTbl124;
    match k
    case 1 => Table4Length1(m);
    case 2 => Table4Length2(m);
    case 3 => Table4Length3(m);
    case _ => Table4Length4(m);
  }

  lemma Table2(m: bv10, k: nat)
    requires m <= 0xff && 1 <= k <= 2
    ensures FragTbl124(m) & Shl(1, k + 1) != 0 <==>
            || AnyHit(m & 3, k, 3 - k) || AnyHit((m >> 2) & 3, k, 3 - k)
            || AnyHit((m >> 4) & 3, k, 3 - k) || AnyHit((m >> 6) & 3, k, 3 - k)
  {
    if k == 1 {} else {}
  }

  lemma Table1(m: bv10)
    requires m <= 0xff
    ensures FragTbl124(m) & 2 != 0 <==> m != 0
  {
  }

  // ---------------------------------------------------------------------------------------------------
  // The scan test of mapsearch and the guard of fragacct
  // ---------------------------------------------------------------------------------------------------

  lemma PackIsByte(b: seq<bool>)
    ensures Pack(b) <= 0xff
  {
  }

  lemma PackHalves(b: seq<bool>)
    requires |b| == 8
    ensures Pack(b[0..4]) == Pack(b) & 0xf && Pack(b[4..8]) == (Pack(b) >> 4) & 0xf
  {
  }

  lemma PackQuarters(b: seq<bool>)
    requires |b| == 8
    ensures Pack(b[0..2]) == Pack(b) & 3 && Pack(b[2..4]) == (Pack(b) >> 2) & 3
    ensures Pack(b[4..6]) == (Pack(b) >> 4) & 3 && Pack(b[6..8]) == (Pack(b) >> 6) & 3
  {
  }

  lemma PackZero(b: seq<bool>)
    requires |b| == 8
    ensures Pack(b) != 0 <==> exists i :: 0 <= i < 8 && b[i]
  {
    assert Pack(b) != 0 <==> b[0] || b[1] || b[2] || b[3] || b[4] || b[5] || b[6] || b[7];
  }

  /** The test scanc makes on a map byte: is the length bit for `k` set in the byte's table entry? */
  predicate ScanTest(frag: nat, b: seq<bool>, k: nat)
    requires ValidFrag(frag) && 1 <= k <= frag
  {
    FragTbl(frag, Pack(b)) & Shl(1, k - 1 + frag % 8) != 0
  }

  lemma ScanTest8(b: seq<bool>, k: nat)
    requires |b| == 8 && 1 <= k <= 8
    ensures ScanTest(8, b, k) <==> HasRun(b, k)
  {
    hide Pack, AnyHit, FragTbl8, Shl;
    PackIsByte(b);
    Table8(Pack(b), k);
    AnyHitIsRun(b, k);
  }

  lemma ScanTest4(b: seq<bool>, k: nat)
    requires |b| == 8 && 1 <= k <= 4
    ensures ScanTest(4, b, k) <==> HasRun(b[0..4], k) || HasRun(b[4..8], k)
  {
    hide Pack, AnyHit, FragTbl124, Shl;
    PackIsByte(b);
    PackHalves(b);
    Table4(Pack(b), k);
    AnyHitIsRun(b[0..4], k);
    AnyHitIsRun(b[4..8], k);
  }

  lemma ScanTest2(b: seq<bool>, k: nat)
    requires |b| == 8 && 1 <= k <= 2
    ensures ScanTest(2, b, k) <==> HasRun(b[0..2], k) || HasRun(b[2..4], k) || HasRun(b[4..6], k) || HasRun(b[6..8], k)
  {
    hide Pack, AnyHit, FragTbl124, Shl;
    PackIsByte(b);
    PackQuarters(b);
    Table2(Pack(b), k);
    AnyHitIsRun(b[0..2], k);
    AnyHitIsRun(b[2..4], k);
    AnyHitIsRun(b[4..6], k);
    AnyHitIsRun(b[6..8], k);
  }

  lemma ScanTest1(b: seq<bool>)
    requires |b| == 8
    ensures ScanTest(1, b, 1) <==> exists i :: 0 <= i < 8 && b[i]
  {
    PackIsByte(b);
    Table1(Pack(b));
    PackZero(b);
  }

  // ---------------------------------------------------------------------------------------------------
  // The guard of fragacct
  // ---------------------------------------------------------------------------------------------------

  lemma NoRunInClear(b: seq<bool>, k: int)
    requires forall i :: 0 <= i < |b| ==> !b[i]
    ensures !HasRun(b, k)
  {
    assert forall o :: RunAt(b, o, k) ==> On(b, o);
  }

  lemma PackPadded(b: Block, c: seq<bool>)
    requires |b| + |c| == 8 && forall i :: 0 <= i < |c| ==> !c[i]
    ensures Pack(b + c) == Pack(b)
  {
    assert forall i | 0 <= i < 8 :: On(b + c, i) == On(b, i);
  }

  /** For a single block the table entry of its own bit pattern lists exactly its run lengths. */
  lemma BlockTestIsRun(frag: nat, b: seq<bool>, k: nat)
    requires ValidFrag(frag) && |b| == frag && 1 <= k <= frag && frag > 1
    ensures ScanTest(frag, b, k) <==> HasRun(b, k)
  {
    hide Pack, FragTbl8, FragTbl124, Shl;
    var c := seq(8 - frag, _ => false);
    PackPadded(b, c);
    if frag == 8 {
      ScanTest8(b, k);
    } else if frag == 4 {
      ScanTest4(b + c, k);
      assert (b + c)[0..4] == b;
      NoRunInClear((b + c)[4..8], k);
    } else {
      ScanTest2(b + c, k);
      assert (b + c)[0..2] == b;
      NoRunInClear((b + c)[2..4], k);
      NoRunInClear((b + c)[4..6], k);
      NoRunInClear((b + c)[6..8], k);
    }
  }

  lemma ShlStep(x: bv10, i: nat)
    requires i < 8
    ensures Shl(x, i) << 1 == Shl(x, i + 1)
  {
  }

  lemma {:induction false} ShlAdd(x: bv10, i: nat, j: nat)
    requires i + j <= 8
    ensures Shl(Shl(x, i), j) == Shl(x, i + j)
  {
    if j > 0 {
      ShlAdd(x, i, j - 1);
      ShlStep(Shl(x, i), j - 1);
      ShlStep(x, i + j - 1);
    }
  }

  /** The guard as fragacct writes it, with entry and mask both shifted by one. */
  lemma ShiftedGuard(entry: bv10, i: nat)
    requires i < 8
    ensures (entry << 1) & Shl(1, i + 1) == 0 <==> entry & Shl(1, i) == 0
  {
  }
}
