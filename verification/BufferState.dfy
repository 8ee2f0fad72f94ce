/**
 The buffer cache: the blocks of the disks in memory. A process uses a buffer from getblk until it gives it up; in
 between it may sleep, for a buffer, for the disk, or for any buffer at all, and others go on. Every stretch between
 two sleeps is one step.
 */
module BufferState {
  import opened Seqs

  const BUFHSZ := 512           // hash chains; one more for the buffers of no device
  const TOP := 0x80_0000        // 1 << (sizeof (int) * NBBY - DEV_BSHIFT)
  const RND := 16               // MAXBSIZE / DEV_BSIZE

  type Block = seq<bv8>

  datatype Key = NoDev | Blk(dev: int, blkno: nat)

  /** The block getblk looks for: block numbers that do not fit are all taken for one and the same. */
  function Clip(blkno: int): nat {
    if blkno < 0 || blkno >= TOP then 2 * TOP else blkno
  }

  /** BUFHASH. */
  function Home(k: Key): (h: nat)
    ensures h <= BUFHSZ
  {
    match k
    case NoDev => BUFHSZ
    case Blk(dev, blkno) => (dev + blkno / RND) % BUFHSZ
  }

  /** struct buf.  `sized` is b_bcount not zero; the other flags are bits of b_flags. */
  datatype Buf = Buf(key: Key, sized: bool, busy: bool, done: bool, delwri: bool, async: bool, inval: bool,
        wanted: bool, read: bool, data: Block)

  /** How far a process has come with a buffer, or in getting one. */
  datatype Use =
    | Look(k: Key)                          // to search its chain
    | WaitBuf(k: Key, e: nat)               // asleep: the block's buffer is busy
    | Need(k: Key)                          // to find a buffer for it
    | WaitFree(k: Key)                      // asleep: none is free
    | Claim(k: Key, b: nat)                 // to search its chain again, for others of the same block
    | WaitClaim(k: Key, b: nat, e: nat)     // asleep: such a one is busy
    | Flushing(k: Key, b: nat, e: nat)      // asleep: such a one is being written
    | Flushed(k: Key, b: nat, e: nat)       // it is written
    | Hold(k: Key, b: nat)                  // the buffer is the process's
    | Reading(k: Key, b: nat)               // asleep in bread
    | Writing(k: Key, b: nat)               // asleep in bwrite
    | Wrote(k: Key, b: nat)                 // to leave bwrite

  /**
   The cache: the buffers, the lists of free ones, the hash chains, whether someone waits for a free one, and what the
   disks are at; the uses; what is on the disks, and what was last written to each block.
   */
  datatype State = State(buf: seq<Buf>, lru: seq<nat>, age: seq<nat>, chain: seq<seq<nat>>, short: bool,
        flight: set<nat>,
    uses: map<nat, Use>, disk: map<Key, Block>, latest: map<Key, Block>)

  function Content(d: map<Key, Block>, k: Key): Block {
    if k in d then d[k] else []
  }

  const NONE := Buf(NoDev, false, false, false, false, false, true, false, false, [])

  function At(s: State, b: nat): Buf {
    if b < |s.buf| then s.buf[b] else NONE
  }

  function With(s: State, b: nat, x: Buf): State {
    s.(buf := if b < |s.buf| then s.buf[b := x] else s.buf)
  }

  function Without(c: seq<nat>, b: nat): (d: seq<nat>)
    ensures |d| <= |c| && (b in c ==> |d| < |c|)
  {
    if c == [] then [] else if c[0] == b then c[1..] else [c[0]] + Without(c[1..], b)
  }

  /** notavail. */
  function Taken(s: State, b: nat): State {
    With(s, b, At(s, b).(busy := true)).(lru := Without(s.lru, b), age := Without(s.age, b))
  }

  /** What a sleeper does when `e` is given up (if anyone is known to wait for it), and when any buffer is. */
  function Woken(u: Use, e: nat, some: bool, free: bool): Use {
    match u
    case WaitBuf(k, f) => if some && f == e then Look(k) else u
    case WaitClaim(k, b, f) => if some && f == e then Claim(k, b) else u
    case WaitFree(k) => if free then Need(k) else u
    case _ => u
  }

  function Roused(us: map<nat, Use>, e: nat, some: bool, free: bool): map<nat, Use> {
    map a | a in us :: Woken(us[a], e, some, free)
  }

  /** brelse. */
  function Put(s: State, b: nat): State {
    var x := At(s, b);
    With(s, b, x.(wanted := false, busy := false, async := false)).(
      age := if x.inval then [b] + s.age else s.age,
      lru := if x.inval then s.lru else s.lru + [b],
      uses := Roused(s.uses, b, x.wanted, s.short),
      short := false)
  }

  /** The start of a write. */
  function Started(s: State, b: nat, async: bool): State {
    With(s, b, At(s, b).(read := false, done := false, delwri := false, async := async)).(flight := s.flight + {b})
  }

  /** The start of a read. */
  function Fetched(s: State, b: nat, async: bool): State {
    With(s, b, At(s, b).(read := true, async := async)).(flight := s.flight + {b})
  }

  /** A buffer gets a new block: what it held is forgotten. */
  function Bound(s: State, b: nat, k: Key): State {
    var x := At(s, b);
    var away := Moved(s.chain, Home(x.key), Without(ChainAt(s.chain, Home(x.key)), b));
    With(s, b, Buf(k, false, true, false, false, false, k.NoDev?, false, false, x.data)).(
      chain := Moved(away, Home(k), [b] + ChainAt(away, Home(k))))
  }

  function ChainAt(c: seq<seq<nat>>, h: nat): seq<nat> {
    if h < |c| then c[h] else []
  }

  function Moved(c: seq<seq<nat>>, h: nat, d: seq<nat>): (e: seq<seq<nat>>)
    ensures |e| == |c|
  {
    if h < |c| then c[h := d] else c
  }

  function Spoilt(s: State, b: nat): State {
    With(s, b, At(s, b).(inval := true))
  }

  function Wanted(s: State, b: nat): State {
    With(s, b, At(s, b).(wanted := true))
  }

  function Sized(s: State, b: nat): State {
    With(s, b, At(s, b).(sized := true, done := false))
  }

  function Given(s: State, a: nat, u: Use): State {
    s.(uses := s.uses[a := u])
  }

  function Dropped(s: State, a: nat): State {
    s.(uses := s.uses - {a})
  }

  /** What the process puts in its buffer: from then on what was last written to the block. */
  function Stored(s: State, b: nat, d: Block): State {
    With(s, b, At(s, b).(data := d, done := true, delwri := true)).(latest := s.latest[At(s, b).key := d])
  }

  /** The disk is done with a buffer. */
  function Finished(s: State, b: nat): State {
    var x := At(s, b);
    With(s, b, x.(done := true, data := if x.read then Content(s.disk, x.key) else x.data)).(
      flight := s.flight - {b},
      disk := if x.read then s.disk else s.disk[x.key := x.data])
  }

  /** Those who sleep for the disk, or for the buffer, when the disk is done with it. */
  function Arisen(u: Use, b: nat): Use {
    match u
    case Reading(k, c) => if c == b then Hold(k, c) else u
    case Writing(k, c) => if c == b then Wrote(k, c) else u
    case Flushing(k, c, e) => if e == b then Flushed(k, c, e) else u
    case _ => Woken(u, b, true, false)
  }

  /** biodone. */
  function Biodone(s: State, b: nat): State {
    var t := Finished(s, b);
    if At(s, b).async then Put(t, b)
    else With(t, b, At(t, b).(wanted := false)).(uses := map a | a in t.uses :: Arisen(t.uses[a], b))
  }

  /** brealloc, at another buffer of the block: it is waited for, or written and waited for, or made invalid. */
  function Displaced(s: State, a: nat, k: Key, b: nat, e: nat): State {
    if At(s, e).busy then Given(Wanted(s, e), a, WaitClaim(k, b, e))
    else if At(s, e).delwri then Given(Started(Taken(s, e), e, false), a, Flushing(k, b, e))
    else Put(Spoilt(Taken(s, e), e), e)
  }

  /**
   The rest of brealloc, from place `i` of the chain on: others of the same block are waited for, written, and made
   invalid.
   */
  function Scanned(s: State, a: nat, k: Key, b: nat, i: nat): State
    decreases |ChainAt(s.chain, Home(k))| - i
  {
    var c := ChainAt(s.chain, Home(k));
    if i >= |c| then Given(Sized(s, b), a, Hold(k, b))
    else
      var e, x := c[i], At(s, c[i]);
      if e == b || !Same(x, k) then Scanned(s, a, k, b, i + 1)
      else
        var t := Displaced(s, a, k, b, e);
        if x.busy || x.delwri then t else Scanned(t, a, k, b, i + 1)
  }

  /** A buffer of block `k` that is not itself still being claimed for it. */
  predicate Same(x: Buf, k: Key) {
    x.key == k && !x.inval && x.sized
  }

  /** brealloc. */
  function Claimed(s: State, a: nat, k: Key, b: nat): State {
    if k.NoDev? then Given(Sized(s, b), a, Hold(k, b)) else Scanned(s, a, k, b, 0)
  }

  /** The first of the free buffers: of the list of useless ones, or else of the other. */
  function Oldest(s: State): nat
    requires s.age != [] || s.lru != []
  {
    if s.age != [] then s.age[0] else s.lru[0]
  }

  /** getnewbuf, and what getblk and geteblk do after. */
  function Renewed(s: State, a: nat, k: Key): State
    decreases |s.lru| + |s.age|
  {
    if s.age == [] && s.lru == [] then Given(s.(short := true), a, WaitFree(k))
    else
      var b := Oldest(s);
      var t := Taken(s, b);
      if At(s, b).delwri then Renewed(Started(t, b, true), a, k)
      else Claimed(Bound(t, b, k), a, k, b)
  }

  /** The first buffer of a chain that is block `k`'s, or the length of the chain. */
  function Find(s: State, c: seq<nat>, k: Key, i: nat): (j: nat)
    requires i <= |c|
    ensures i <= j <= |c|
    ensures forall l :: i <= l < j ==> !(At(s, c[l]).key == k && !At(s, c[l]).inval)
    ensures j < |c| ==> At(s, c[j]).key == k && !At(s, c[j]).inval
    decreases |c| - i
  {
    if i == |c| || (At(s, c[i]).key == k && !At(s, c[i]).inval) then i else Find(s, c, k, i + 1)
  }

  /** getblk, from its search on. */
  function Sought(s: State, a: nat, k: Key): State {
    var c := ChainAt(s.chain, Home(k));
    var j := Find(s, c, k, 0);
    if j == |c| then Renewed(s, a, k)
    else if At(s, c[j]).busy then Given(Wanted(s, c[j]), a, WaitBuf(k, c[j]))
    else Given(Taken(s, c[j]), a, Hold(k, c[j]))
  }

  /** A process that was woken goes on. */
  function Gone(s: State, a: nat, u: Use): State {
    match u
    case Look(k) => Sought(s, a, k)
    case Need(k) => Renewed(s, a, k)
    case Claim(k, b) => Scanned(s, a, k, b, 0)
    case Flushed(k, b, e) => Scanned(Put(s, e), a, k, b, 0)
    case Wrote(k, b) => Put(s, b)
    case _ => Given(s, a, u)
  }

  predicate Of(k: Key, dev: int) {
    k.Blk? && (dev == -1 || dev == k.dev)
  }

  /**
   The first buffer of a list that waits to be written to a device, or the length of the list. No device is all of
   them.
   */
  function Dirty(s: State, c: seq<nat>, dev: int, i: nat): (j: nat)
    requires i <= |c|
    ensures i <= j <= |c|
    ensures forall l :: i <= l < j ==> !(At(s, c[l]).delwri && Of(At(s, c[l]).key, dev))
    ensures j < |c| ==> At(s, c[j]).delwri && Of(At(s, c[j]).key, dev)
    decreases |c| - i
  {
    if i == |c| || (At(s, c[i]).delwri && Of(At(s, c[i]).key, dev)) then i else Dirty(s, c, dev, i + 1)
  }

  /** bflush. */
  function Flush(s: State, dev: int): State
    decreases |s.lru| + |s.age|
  {
    var c := s.lru + s.age;
    var j := Dirty(s, c, dev, 0);
    if j == |c| then s else Flush(Started(Taken(s, c[j]), c[j], true), dev)
  }

  /** What a process can do with its buffer; `d` is what it put in it. */
  datatype Op = Bread | Breada | Brelse | Bwrite(d: Block) | Bawrite(d: Block) | Bdwrite(d: Block)

  datatype Event =
    | Getblk(a: nat, dev: int, blkno: int)  // a process asks for a block
    | Geteblk(a: nat)                       // or for a buffer of no block
    | Go(a: nat)                            // one that was woken goes on
    | Does(a: nat, op: Op)                  // one that has a buffer does something with it
    | Iodone(b: nat)                        // the disk is done
    | Bflush(dev: int)

  function Step(s: State, e: Event): State {
    match e
    case Getblk(a, dev, blkno) => if a in s.uses then s else Sought(s, a, Blk(dev, Clip(blkno)))
    case Geteblk(a) => if a in s.uses then s else Renewed(s, a, NoDev)
    case Go(a) => if a in s.uses then Gone(Dropped(s, a), a, s.uses[a]) else s
    case Does(a, op) => if a in s.uses && s.uses[a].Hold? then Used(Dropped(s, a), a, op, s.uses[a].k, s.uses[a].b)
      else s
    case Iodone(b) => if b in s.flight then Biodone(s, b) else s
    case Bflush(dev) => Flush(s, dev)
  }

  /** What the process that has a buffer does with it.  One of no block is neither read nor written. */
  function Used(s: State, a: nat, op: Op, k: Key, b: nat): State {
    if op.Brelse? then Put(s, b)
    else if k.NoDev? then Given(s, a, Hold(k, b))
    else match op
      case Bread => if At(s, b).done then Given(s, a, Hold(k, b)) else Given(Fetched(s, b, false), a, Reading(k, b))
      case Breada => if At(s, b).done then Put(s, b) else Fetched(s, b, true)
      case Bwrite(d) => Given(Started(Stored(s, b, d), b, false), a, Writing(k, b))
      case Bawrite(d) => Started(Stored(s, b, d), b, true)
      case Bdwrite(d) => Put(Stored(s, b, d), b)
  }

  function Run(s: State, es: seq<Event>): State
    decreases |es|
  {
    if es == [] then s else Run(Step(s, es[0]), es[1..])
  }

  /** What holds of a buffer by itself, `last` being what was last written to its block. */
  predicate BufOk(x: Buf, flying: bool, last: Block) {
    && (x.key.NoDev? ==> x.inval)
    && (!x.busy ==> (x.sized || x.inval) && !x.wanted && !flying)
    && (x.inval ==> !x.delwri && !flying)
    && (x.delwri ==> x.done && x.sized)
    && (x.done && !x.inval ==> x.data == last && x.sized)
    && (flying ==> x.busy && !x.done && !x.delwri && x.sized && !x.inval && (!x.read ==> x.data == last))
    && (x.async ==> flying)
  }

  ghost predicate BufsOk(s: State) {
    && (forall b :: b in s.flight ==> b < |s.buf|)
    && forall b :: 0 <= b < |s.buf| ==> BufOk(s.buf[b], b in s.flight, Content(s.latest, s.buf[b].key))
  }

  /** Every buffer is on one list, once, or it is busy. */
  ghost predicate Listed(s: State) {
    && Distinct(s.lru) && Distinct(s.age) && (forall b :: b in s.lru ==> b !in s.age)
    && forall b :: b in s.lru || b in s.age <==> 0 <= b < |s.buf| && !s.buf[b].busy
  }

  /** The chains hold every buffer once, each on the chain of its block. */
  ghost predicate Hashed(s: State) {
    && |s.chain| == BUFHSZ + 1
    && forall h :: 0 <= h <= BUFHSZ ==> Distinct(s.chain[h]) && forall b :: b in s.chain[h] <==>
        0 <= b < |s.buf| && Home(s.buf[b].key) == h
  }

  /** No two buffers hold one block, but for those still being claimed for it. */
  ghost predicate Unique(s: State) {
    forall b, c :: 0 <= b < c < |s.buf| && Same(s.buf[b], s.buf[c].key) ==> !Same(s.buf[c], s.buf[c].key)
  }

  /** A buffer from which what was last written to the block will go, or is on its way, to the disk. */
  predicate Unwritten(s: State, b: nat, k: Key) {
    b < |s.buf| && s.buf[b].key == k && (s.buf[b].delwri || (b in s.flight && !s.buf[b].read))
  }

  /** What was last written to a block is on the disk, or in a buffer that will be written. */
  ghost predicate Durable(s: State) {
    forall k :: Content(s.disk, k) == Content(s.latest, k) || exists b :: Unwritten(s, b, k)
  }

  function Owned(u: Use): set<nat> {
    match u
    case Claim(_, b) => {b}
    case WaitClaim(_, b, _) => {b}
    case Flushing(_, b, e) => {b, e}
    case Flushed(_, b, e) => {b, e}
    case Hold(_, b) => {b}
    case Reading(_, b) => {b}
    case Writing(_, b) => {b}
    case Wrote(_, b) => {b}
    case _ => {}
  }

  /** A buffer that is being claimed for a block. */
  predicate Claims(s: State, k: Key, b: nat) {
    b < |s.buf| && var x := s.buf[b];
      k.Blk? && x.key == k && x.busy && !x.sized && !x.inval && !x.done && !x.delwri && !x.async && b !in s.flight
  }

  /** A buffer that was just written. */
  predicate Settled(s: State, k: Key, b: nat) {
    b < |s.buf| && var x := s.buf[b];
      k.Blk? && x.key == k && x.busy && x.sized && !x.inval && x.done && !x.delwri && !x.async && b !in s.flight
  }

  predicate Flies(s: State, k: Key, b: nat, read: bool) {
    b < |s.buf| && b in s.flight && s.buf[b].key == k && s.buf[b].read == read && !s.buf[b].async
  }

  predicate Sleeps(s: State, e: nat) {
    e < |s.buf| && s.buf[e].busy && s.buf[e].wanted
  }

  /**
   A sleeper has what it sleeps for still before it, and will be woken when it is gone; and each has what it thinks it
   has.
   */
  predicate UseOk(s: State, u: Use) {
    match u
    case Look(k) => k.Blk?
    case WaitBuf(k, e) => k.Blk? && Sleeps(s, e)
    case Need(k) => true
    case WaitFree(k) => s.lru == [] && s.age == [] && s.short
    case Claim(k, b) => Claims(s, k, b)
    case WaitClaim(k, b, e) => Claims(s, k, b) && e != b && Sleeps(s, e)
    case Flushing(k, b, e) => Claims(s, k, b) && e != b && Flies(s, k, e, false)
    case Flushed(k, b, e) => Claims(s, k, b) && e != b && Settled(s, k, e)
    case Hold(k, b) => b < |s.buf| && s.buf[b].key == k && s.buf[b].busy && s.buf[b].sized && !s.buf[b].async
      && b !in s.flight && s.buf[b].inval == k.NoDev?
    case Reading(k, b) => Flies(s, k, b, true)
    case Writing(k, b) => Flies(s, k, b, false)
    case Wrote(k, b) => Settled(s, k, b)
  }

  ghost predicate UsesOk(s: State, hand: set<nat>) {
    forall a :: a in s.uses ==> UseOk(s, s.uses[a]) && Owned(s.uses[a]) !! hand
  }

  ghost predicate Apart(s: State) {
    forall a, c :: a in s.uses && c in s.uses && a != c ==> Owned(s.uses[a]) !! Owned(s.uses[c])
  }

  /** A busy buffer is some process's, or in flight with nobody waiting, or in hand in the step that is going on. */
  ghost predicate Minded(s: State, hand: set<nat>) {
    forall b :: 0 <= b < |s.buf| && s.buf[b].busy && !s.buf[b].async && b !in hand ==> exists a :: Owns(s, a, b)
  }

  predicate Owns(s: State, a: nat, b: nat) {
    a in s.uses && b in Owned(s.uses[a])
  }

  ghost predicate HandOk(s: State, hand: set<nat>) {
    forall b :: b in hand ==> b < |s.buf| && s.buf[b].busy && !s.buf[b].async
  }

  /** What holds between steps, with nothing in hand; and, with what is, inside one. */
  ghost predicate InvWith(s: State, hand: set<nat>) {
    && BufsOk(s) && Listed(s) && Hashed(s) && Unique(s) && Durable(s) && UsesOk(s, hand) && Apart(s) && Minded(s, hand)
    && HandOk(s, hand)
  }

  ghost predicate Inv(s: State) {
    InvWith(s, {})
  }
}
