/**
 Resource maps: the free part of an address space as a dense, sorted array of segments, ended by one of size 0.
 */
module ResourceMap {
  import opened Seqs

  /** struct mapent. */
  datatype Mapent = Mapent(size: int, addr: int)

  /** Address `a` lies in segment `m`. */
  predicate In(m: Mapent, a: int) {
    m.addr <= a < m.addr + m.size
  }

  /** Address `a` is free. */
  ghost predicate Free(s: seq<Mapent>, a: int) {
    exists i :: 0 <= i < |s| && In(s[i], a)
  }

  /** Segments in order, none of them empty, and with something in use between any two. */
  ghost predicate Canonical(s: seq<Mapent>) {
    && (forall i :: 0 <= i < |s| ==> s[i].size > 0)
    && (forall i, j :: 0 <= i < j < |s| ==> s[i].addr + s[i].size < s[j].addr)
  }

  /** A map of segments is told by the addresses that are free: there is no second way to write it down. */
  lemma {:induction false} OneForm(s: seq<Mapent>, t: seq<Mapent>)
    requires Canonical(s) && Canonical(t) && forall a :: Free(s, a) <==> Free(t, a)
    ensures s == t
  {
    if s == [] {
      assert t != [] ==> In(t[0], t[0].addr);
      assert t != [] ==> !Free(s, t[0].addr);
    } else {
      SameHead(s, t);
      forall a
        ensures Free(s[1..], a) <==> Free(t[1..], a)
      {
        TailFree(s, a);
        TailFree(t, a);
      }
      OneForm(s[1..], t[1..]);
    }
  }

  lemma TailFree(s: seq<Mapent>, a: int)
    requires Canonical(s) && s != []
    ensures Canonical(s[1..]) && (Free(s[1..], a) <==> Free(s, a) && !In(s[0], a))
  {
    if Free(s[1..], a) {
      var i :| 0 <= i < |s[1..]| && In(s[1..][i], a);
      assert In(s[i + 1], a);
    }
    if Free(s, a) && !In(s[0], a) {
      var i :| 0 <= i < |s| && In(s[i], a);
      assert In(s[1..][i - 1], a);
    }
  }

  lemma SameHead(s: seq<Mapent>, t: seq<Mapent>)
    requires Canonical(s) && Canonical(t) && s != [] && forall a :: Free(s, a) <==> Free(t, a)
    ensures t != [] && s[0] == t[0]
  {
    assert In(s[0], s[0].addr) && Free(s, s[0].addr) && Free(t, s[0].addr);
    assert In(t[0], t[0].addr) && Free(t, t[0].addr) && Free(s, t[0].addr);
    HeadFirst(s, t[0].addr);
    HeadFirst(t, s[0].addr);
    HeadEnds(s);
    HeadEnds(t);
  }

  lemma HeadFirst(s: seq<Mapent>, a: int)
    requires Canonical(s) && s != [] && Free(s, a)
    ensures s[0].addr <= a
  {
  }

  lemma HeadEnds(s: seq<Mapent>)
    requires Canonical(s) && s != []
    ensures !Free(s, s[0].addr + s[0].size)
  {
  }

  /** Segments `i` up to `j` give way to others that fit in their place. */
  function Spliced(s: seq<Mapent>, i: nat, j: nat, mid: seq<Mapent>): seq<Mapent>
    requires i <= j <= |s|
  {
    s[..i] + mid + s[j..]
  }

  lemma Splice(s: seq<Mapent>, i: nat, j: nat, mid: seq<Mapent>)
    requires Canonical(s) && Canonical(mid) && i <= j <= |s|
    requires forall m :: 0 <= m < |mid| ==>
      (0 < i ==> s[i - 1].addr + s[i - 1].size < mid[m].addr) && (j < |s| ==> mid[m].addr + mid[m].size < s[j].addr)
    requires 0 < i && j < |s| ==> s[i - 1].addr + s[i - 1].size < s[j].addr
    ensures Canonical(Spliced(s, i, j, mid))
    ensures forall a :: Free(Spliced(s, i, j, mid), a) <==> Free(mid, a) || (Free(s, a) && !Free(s[i..j], a))
  {
    var t := Spliced(s, i, j, mid);
    forall a
      ensures Free(t, a) <==> Free(mid, a) || (Free(s, a) && !Free(s[i..j], a))
    {
      SpliceFree(s, i, j, mid, a);
    }
    SpliceOrder(s, i, j, mid);
  }

  lemma SpliceOrder(s: seq<Mapent>, i: nat, j: nat, mid: seq<Mapent>)
    requires Canonical(s) && Canonical(mid) && i <= j <= |s|
    requires forall m :: 0 <= m < |mid| ==>
      (0 < i ==> s[i - 1].addr + s[i - 1].size < mid[m].addr) && (j < |s| ==> mid[m].addr + mid[m].size < s[j].addr)
    requires 0 < i && j < |s| ==> s[i - 1].addr + s[i - 1].size < s[j].addr
    ensures Canonical(Spliced(s, i, j, mid))
  {
    var t, d := Spliced(s, i, j, mid), i + |mid|;
    forall x, y | 0 <= x < y < |t|
      ensures t[x].addr + t[x].size < t[y].addr
    {
      assert x < i ==> t[x] == s[x] && s[x].addr + s[x].size <= s[i - 1].addr + s[i - 1].size;
      assert i <= x < d ==> t[x] == mid[x - i];
      assert d <= x ==> t[x] == s[x - d + j];
      assert y < i ==> t[y] == s[y];
      assert i <= y < d ==> t[y] == mid[y - i];
      assert d <= y ==> t[y] == s[y - d + j] && s[j].addr <= s[y - d + j].addr;
    }
  }

  lemma SpliceFree(s: seq<Mapent>, i: nat, j: nat, mid: seq<Mapent>, a: int)
    requires Canonical(s) && i <= j <= |s|
    ensures Free(Spliced(s, i, j, mid), a) <==> Free(mid, a) || (Free(s, a) && !Free(s[i..j], a))
  {
    if Free(Spliced(s, i, j, mid), a) {
      OutOfSplice(s, i, j, mid, a);
    }
    if Free(mid, a) {
      var m :| 0 <= m < |mid| && In(mid[m], a);
      assert In(Spliced(s, i, j, mid)[i + m], a);
    }
    if Free(s, a) && !Free(s[i..j], a) {
      var y :| 0 <= y < |s| && In(s[y], a);
      InSlice(s, y, i, j, a);
      assert In(Spliced(s, i, j, mid)[if y < i then y else y - j + i + |mid|], a);
    }
  }

  lemma OutOfSplice(s: seq<Mapent>, i: nat, j: nat, mid: seq<Mapent>, a: int)
    requires Canonical(s) && i <= j <= |s| && Free(Spliced(s, i, j, mid), a)
    ensures Free(mid, a) || (Free(s, a) && !Free(s[i..j], a))
  {
    var t, d := Spliced(s, i, j, mid), i + |mid|;
    var x :| 0 <= x < |t| && In(t[x], a);
    if i <= x < d {
      assert In(mid[x - i], a);
    } else {
      var y := if x < i then x else x - d + j;
      assert In(s[y], a);
      Alone(s, y, i, j, a);
    }
  }

  lemma InSlice(s: seq<Mapent>, y: nat, i: nat, j: nat, a: int)
    requires i <= j <= |s| && y < |s| && In(s[y], a)
    ensures i <= y < j ==> Free(s[i..j], a)
  {
    if i <= y < j {
      assert In(s[i..j][y - i], a);
    }
  }

  /** An address of one segment is in no other. */
  lemma Alone(s: seq<Mapent>, y: nat, i: nat, j: nat, a: int)
    requires Canonical(s) && i <= j <= |s| && y < |s| && In(s[y], a) && !(i <= y < j)
    ensures !Free(s[i..j], a)
  {
    forall x | 0 <= x < |s[i..j]|
      ensures !In(s[i..j][x], a)
    {
      assert s[i..j][x] == s[i + x];
    }
  }

  lemma OneSegment(m: Mapent)
    ensures forall a :: Free([m], a) <==> In(m, a)
  {
    forall a
      ensures Free([m], a) <==> In(m, a)
    {
      assert [m][0] == m;
    }
  }

  lemma TwoSegments(m: Mapent, n: Mapent)
    ensures forall a :: Free([m, n], a) <==> In(m, a) || In(n, a)
  {
    forall a
      ensures Free([m, n], a) <==> In(m, a) || In(n, a)
    {
      assert [m, n][0] == m && [m, n][1] == n;
    }
  }

  lemma NoSegments()
    ensures Canonical([]) && forall a :: !Free([], a)
  {
  }

  lemma OneCanonical(m: Mapent)
    ensures m.size > 0 ==> Canonical([m])
  {
  }

  lemma SegmentIsFree(s: seq<Mapent>, i: nat)
    requires i < |s|
    ensures forall a :: In(s[i], a) ==> Free(s, a)
  {
  }

  lemma Positive(s: seq<Mapent>)
    requires Canonical(s)
    ensures forall i :: 0 <= i < |s| ==> s[i].size > 0
  {
  }

  /** A segment and its neighbours. */
  lemma Around(s: seq<Mapent>, i: nat)
    requires Canonical(s) && i < |s|
    ensures s[i..i + 1] == [s[i]] && s[i].size > 0
    ensures 0 < i ==> s[i - 1].addr + s[i - 1].size < s[i].addr && s[i - 1].size > 0
    ensures i + 1 < |s| ==> s[i].addr + s[i].size < s[i + 1].addr && s[i + 1].size > 0
  {
  }

  /** One segment exchanged for what is left of it. */
  lemma Replace(s: seq<Mapent>, i: nat, mid: seq<Mapent>)
    requires Canonical(s) && i < |s| && Canonical(mid) && forall m :: 0 <= m < |mid| ==>
      s[i].addr <= mid[m].addr && mid[m].addr + mid[m].size <= s[i].addr + s[i].size
    ensures Canonical(Spliced(s, i, i + 1, mid))
    ensures forall a :: Free(Spliced(s, i, i + 1, mid), a) <==> Free(mid, a) || (Free(s, a) && !In(s[i], a))
  {
    hide Free;
    Around(s, i);
    OneSegment(s[i]);
    Splice(s, i, i + 1, mid);
  }

  /** Some address of the range is free already. */
  ghost predicate Overlaps(s: seq<Mapent>, addr: int, size: int) {
    exists a :: addr <= a < addr + size && Free(s, a)
  }

  /** Segment `b` is the first one to start after `addr`. */
  ghost predicate FirstAfter(s: seq<Mapent>, addr: int, b: nat) {
    && b <= |s|
    && (forall i :: 0 <= i < b ==> s[i].addr <= addr)
    && (b < |s| ==> addr < s[b].addr)
  }

  /** Only the two segments around the place can be in the way of a range. */
  lemma OnlyNeighbours(s: seq<Mapent>, b: nat, addr: int, size: int)
    requires Canonical(s) && FirstAfter(s, addr, b) && size > 0
    ensures Overlaps(s, addr, size) <==>
      (0 < b && s[b - 1].addr + s[b - 1].size > addr) || (b < |s| && addr + size > s[b].addr)
  {
    if 0 < b && s[b - 1].addr + s[b - 1].size > addr {
      assert In(s[b - 1], addr) && Free(s, addr);
    }
    if b < |s| && addr + size > s[b].addr {
      assert In(s[b], s[b].addr) && Free(s, s[b].addr);
    }
  }

  /** The segment that ends where the range starts, and the one that starts where it ends. */
  predicate Left(s: seq<Mapent>, b: nat, addr: int) {
    0 < b <= |s| && s[b - 1].addr + s[b - 1].size == addr
  }

  predicate Right(s: seq<Mapent>, b: nat, addr: int, size: int) {
    b < |s| && addr + size == s[b].addr
  }

  /** The segments once the range is one with the neighbours it touches. */
  function Merged(s: seq<Mapent>, b: nat, addr: int, size: int): seq<Mapent>
    requires b <= |s|
  {
    var lo := if Left(s, b, addr) then s[b - 1].addr else addr;
    var hi := if Right(s, b, addr, size) then s[b].addr + s[b].size else addr + size;
    Spliced(s, if Left(s, b, addr) then b - 1 else b, if Right(s, b, addr, size) then b + 1
      else b, [Mapent(hi - lo, lo)])
  }

  /** How the slots come to hold it: at most one is written, and one closed up or opened. */
  lemma MergedShape(s: seq<Mapent>, b: nat, addr: int, size: int)
    requires b <= |s|
    ensures Left(s, b, addr) && !Right(s, b, addr, size) ==>
      Merged(s, b, addr, size) == s[b - 1 := Mapent(s[b - 1].size + size, s[b - 1].addr)]
    ensures !Left(s, b, addr) && Right(s, b, addr, size) ==>
      Merged(s, b, addr, size) == s[b := Mapent(s[b].size + size, s[b].addr - size)]
    ensures Left(s, b, addr) && Right(s, b, addr, size) ==>
      Merged(s, b, addr, size) == Removed(s[b - 1 := Mapent(s[b - 1].size + size + s[b].size, s[b - 1].addr)], b)
    ensures !Left(s, b, addr) && !Right(s, b, addr, size) ==>
      Merged(s, b, addr, size) == Inserted(s, b, Mapent(size, addr))
  {
  }

  /** One sequence made of another by moving its tail up. */
  lemma MovedUp(s: seq<Mapent>, t: seq<Mapent>, b: nat, m: Mapent)
    requires |t| == |s| + 1 && b <= |s| && t[b] == m
    requires (forall i :: 0 <= i < b ==> t[i] == s[i]) && forall i :: b < i < |t| ==> t[i] == s[i - 1]
    ensures t == Inserted(s, b, m)
  {
  }

  lemma Cut(s: seq<Mapent>, at: nat, k: nat)
    requires at < k <= |s|
    ensures Removed(s[..k], at) == s[..at] + s[at + 1..k]
  {
  }

  lemma MergedIsFree(s: seq<Mapent>, b: nat, addr: int, size: int)
    requires Canonical(s) && FirstAfter(s, addr, b) && size > 0 && !Overlaps(s, addr, size)
    ensures Canonical(Merged(s, b, addr, size))
    ensures forall a :: Free(Merged(s, b, addr, size), a) <==> Free(s, a) || addr <= a < addr + size
  {
    hide Overlaps, FirstAfter, Free, Canonical;
    Between(s, b, addr, size);
    var l, r := Left(s, b, addr), Right(s, b, addr, size);
    var i, j := if l then b - 1 else b, if r then b + 1 else b;
    var lo := if l then s[b - 1].addr else addr;
    var hi := if r then s[b].addr + s[b].size else addr + size;
    var mid := Mapent(hi - lo, lo);
    Touched(s, b, l, r, i, j);
    OneSegment(mid);
    OneCanonical(mid);
    Splice(s, i, j, [mid]);
    if l {
      SegmentIsFree(s, b - 1);
    }
    if r {
      SegmentIsFree(s, b);
    }
    assert Merged(s, b, addr, size) == Spliced(s, i, j, [mid]);
    forall a
      ensures Free(Merged(s, b, addr, size), a) <==> Free(s, a) || addr <= a < addr + size
    {
      assert Free([mid], a) <==> In(mid, a);
      assert Free(s[i..j], a) <==> (l && In(s[b - 1], a)) || (r && In(s[b], a));
      assert In(mid, a) <==> (l && In(s[b - 1], a)) || (r && In(s[b], a)) || addr <= a < addr + size;
    }
  }

  lemma Between(s: seq<Mapent>, b: nat, addr: int, size: int)
    requires Canonical(s) && FirstAfter(s, addr, b) && size > 0 && !Overlaps(s, addr, size)
    ensures b <= |s| && (0 < b ==> s[b - 1].addr + s[b - 1].size <= addr) && (b < |s| ==> addr + size <= s[b].addr)
    ensures 0 < b ==> s[b - 1].size > 0
    ensures 1 < b ==> s[b - 2].addr + s[b - 2].size < s[b - 1].addr
    ensures b < |s| ==> s[b].size > 0
    ensures b + 1 < |s| ==> s[b].addr + s[b].size < s[b + 1].addr
  {
    OnlyNeighbours(s, b, addr, size);
  }

  lemma Touched(s: seq<Mapent>, b: nat, l: bool, r: bool, i: nat, j: nat)
    requires b <= |s| && (l ==> 0 < b) && (r ==> b < |s|) && i == (if l then b - 1 else b)
      && j == if r then b + 1 else b
    ensures forall a :: Free(s[i..j], a) <==> (l && In(s[b - 1], a)) || (r && In(s[b], a))
  {
    if l && r {
      TwoSegments(s[b - 1], s[b]);
      assert s[b - 1..b + 1] == [s[b - 1], s[b]];
    } else if l {
      OneSegment(s[b - 1]);
      assert s[b - 1..b] == [s[b - 1]];
    } else if r {
      OneSegment(s[b]);
      assert s[b..b + 1] == [s[b]];
    } else {
      NoSegments();
      assert s[b..b] == [];
    }
  }

  /** The segments a map of `slots` slots keeps of those it should hold: one of the slots has to end it. */
  function Kept(t: seq<Mapent>, slots: nat): seq<Mapent> {
    if |t| < slots || |t| < 2 then t else t[..|t| - 2] + [t[|t| - 1]]
  }

  lemma KeptCanonical(t: seq<Mapent>, slots: nat)
    requires Canonical(t)
    ensures Canonical(Kept(t, slots))
  {
  }

  lemma KeptWhole(t: seq<Mapent>, slots: nat)
    ensures |t| < slots ==> Kept(t, slots) == t
  {
  }

  /** No more than one segment is lost on a full map, and all of it. */
  lemma LostOnOverflow(t: seq<Mapent>, slots: nat)
    requires Canonical(t) && 2 <= slots == |t|
    ensures forall a :: Free(Kept(t, slots), a) <==> Free(t, a) && !In(t[|t| - 2], a)
  {
    var n := |t|;
    hide Canonical, Free;
    Around(t, n - 2);
    NoSegments();
    Replace(t, n - 2, []);
    assert Kept(t, slots) == Spliced(t, n - 2, n - 1, []);
  }

  /** What is left of segment `b` once the range is taken out of it. */
  function Parts(m: Mapent, addr: int, size: int): seq<Mapent> {
    (if m.addr == addr then [] else [Mapent(addr - m.addr, m.addr)]) + if m.addr + m.size == addr + size then []
      else [Mapent(m.addr + m.size - (addr + size), addr + size)]
  }

  /** The range lies in segment `m`. */
  predicate Inside(m: Mapent, addr: int, size: int) {
    m.addr <= addr && addr + size <= m.addr + m.size
  }

  lemma PartsAreFree(m: Mapent, addr: int, size: int)
    requires size > 0 && Inside(m, addr, size)
    ensures Canonical(Parts(m, addr, size)) && |Parts(m, addr, size)| <= 2
    ensures forall i :: 0 <= i < |Parts(m, addr, size)| ==>
      m.addr <= Parts(m, addr, size)[i].addr && Parts(m, addr, size)[i].addr + Parts(m, addr, size)[i].size <= m.addr +
      m.size
    ensures forall a :: Free(Parts(m, addr, size), a) <==> In(m, a) && !(addr <= a < addr + size)
  {
    var f, g := Mapent(addr - m.addr, m.addr), Mapent(m.addr + m.size - (addr + size), addr + size);
    OneSegment(f);
    OneSegment(g);
    TwoSegments(f, g);
    assert [f] + [g] == [f, g] && [] + [g] == [g] && [f] + [] == [f];
  }

  /** Every address of the range is free. */
  ghost predicate Whole(s: seq<Mapent>, addr: int, size: int) {
    forall a :: addr <= a < addr + size ==> Free(s, a)
  }

  /** A range that is free lies in one segment. */
  lemma WholeInside(s: seq<Mapent>, b: nat, addr: int, size: int)
    requires Canonical(s) && b < |s| && In(s[b], addr) && size > 0
    ensures Whole(s, addr, size) <==> Inside(s[b], addr, size)
    ensures !Free(s, s[b].addr - 1) && !Free(s, s[b].addr + s[b].size)
    ensures s[b].addr == addr <==> !Free(s, addr - 1)
    ensures addr + size <= s[b].addr + s[b].size ==> (addr + size == s[b].addr + s[b].size <==> !Free(s, addr + size))
  {
    assert s[b].addr < addr ==> In(s[b], addr - 1);
    assert addr + size < s[b].addr + s[b].size ==> In(s[b], addr + size);
    if Inside(s[b], addr, size) {
      forall a | addr <= a < addr + size
        ensures Free(s, a)
      {
        assert In(s[b], a);
      }
    } else {
      var end := s[b].addr + s[b].size;
      assert addr <= end < addr + size && !Free(s, end);
    }
  }

  lemma RemovedOld(s: seq<Mapent>, b: nat, v: Mapent)
    requires b < |s|
    ensures Removed(s[b := v], b) == Removed(s, b)
  {
  }

  /** The segments with the range taken out of segment `b`. */
  function Carved(s: seq<Mapent>, b: nat, addr: int, size: int): seq<Mapent>
    requires b < |s|
  {
    Spliced(s, b, b + 1, Parts(s[b], addr, size))
  }

  /** How the slots come to hold it: one written, closed up, or made two. */
  lemma CarvedShape(s: seq<Mapent>, b: nat, addr: int, size: int)
    requires b < |s|
    ensures
      var m, front, back := s[b], s[b].addr == addr, s[b].addr + s[b].size == addr + size;
      && (front && back ==> Carved(s, b, addr, size) == Removed(s, b))
      && (front && !back ==> Carved(s, b, addr, size) == s[b := Mapent(m.size - size, m.addr + size)])
      && (!front && back ==> Carved(s, b, addr, size) == s[b := Mapent(m.size - size, m.addr)])
      && (!front && !back ==>
          Carved(s, b, addr, size) ==
          Inserted(s[b := Mapent(addr - m.addr, m.addr)], b + 1, Mapent(m.addr + m.size - (addr + size), addr + size)))
  {
  }

  lemma RangeTaken(s: seq<Mapent>, b: nat, addr: int, size: int)
    requires Canonical(s) && b < |s| && Inside(s[b], addr, size) && size > 0
    ensures Canonical(Carved(s, b, addr, size))
    ensures forall a :: Free(Carved(s, b, addr, size), a) <==> Free(s, a) && !(addr <= a < addr + size)
  {
    hide Canonical, Free;
    PartsAreFree(s[b], addr, size);
    SegmentIsFree(s, b);
    Replace(s, b, Parts(s[b], addr, size));
    forall a
      ensures Free(Carved(s, b, addr, size), a) <==> Free(s, a) && !(addr <= a < addr + size)
    {
      assert addr <= a < addr + size ==> In(s[b], a);
    }
  }

  /** A range that touches no end of the free space splits a segment in two. */
  lemma SplitInTwo(s: seq<Mapent>, b: nat, addr: int, size: int)
    requires Canonical(s) && b < |s| && Inside(s[b], addr, size) && size > 0
    ensures |Carved(s, b, addr, size)| > |s| <==> Free(s, addr - 1) && Free(s, addr + size)
  {
    WholeInside(s, b, addr, size);
  }

  class Map {
    const ep: array<Mapent>        // the slots from the one after struct map to m_limit
    ghost var k: nat               // how many of them are segments

    /** The segments are canonical, and every slot behind them has size 0. */
    ghost predicate Valid()
      reads this, ep
    {
      2 <= ep.Length && k < ep.Length && Canonical(ep[..k]) && Ended()
    }

    ghost function Segs(): seq<Mapent>
      requires k <= ep.Length
      reads this, ep
    {
      ep[..k]
    }

    /** rminit, for a map of `mapsize` slots, one of which is struct map, that was zeroed. */
    constructor (mapsize: nat, size: int, addr: int)
      requires 3 <= mapsize && 0 <= size
      ensures fresh(ep) && Valid() && ep.Length == mapsize - 1
        && Segs() == if size == 0 then [] else [Mapent(size, addr)]
    {
      ep := new Mapent[mapsize - 1](_ => Mapent(0, 0));
      k := if size == 0 then 0 else 1;
      new;
      ep[0] := Mapent(size, addr);
    }

    /** Every slot behind the segments has size 0: the first ends the map, and the rest are ready to do so. */
    ghost predicate Ended()
      reads this, ep
    {
      forall i :: k <= i < ep.Length ==> ep[i].size == 0
    }

    lemma Sealed(t: seq<Mapent>)
      requires 2 <= ep.Length && k < ep.Length && Ended() && Segs() == t && Canonical(t)
      ensures Valid()
    {
    }

    /** The loops that move the slots behind slot `at` one to the left, the delimiter included. */
    method Close(at: nat)
      requires k < ep.Length && at < k && Ended() && forall i :: at < i < k ==> ep[i].size > 0
      modifies this`k, ep
      ensures k == old(k) - 1 && Segs() == Removed(old(Segs()), at) && Ended()
    {
      ghost var s := ep[..];
      var bp := at + 1;
      ep[bp - 1] := ep[bp];
      while ep[bp - 1].size != 0
        invariant k == old(k) && at < bp <= k && ep[bp - 1] == s[bp] && (bp < k ==> ep[bp - 1].size > 0)
        invariant forall i :: 0 <= i < at ==> ep[i] == s[i]
        invariant forall i :: at <= i < bp ==> ep[i] == s[i + 1]
        invariant forall i :: bp <= i < ep.Length ==> ep[i] == s[i]
        decreases k - bp
      {
        bp := bp + 1;
        ep[bp - 1] := ep[bp];
      }
      k := k - 1;
      assert ep[..k] == s[..at] + s[at + 1..k + 1];
      Cut(s, at, k + 1);
    }

    /** The lines of rmalloc that take the first `size` units of a segment. */
    method CutFront(bp: nat, size: int)
      requires Valid() && bp < k && 0 < size <= ep[bp].size
      modifies this`k, ep
      ensures Valid() && Segs() == Carved(old(Segs()), bp, old(ep[bp].addr), size)
    {
      ghost var s := Segs();
      Positive(s);
      assert forall i :: 0 <= i < k ==> ep[i] == s[i];
      RangeTaken(s, bp, s[bp].addr, size);
      CarvedShape(s, bp, s[bp].addr, size);
      hide Canonical, Free, Removed, Inserted, Carved;
      ep[bp] := Mapent(ep[bp].size - size, ep[bp].addr + size);
      assert Segs() == s[bp := ep[bp]];
      if ep[bp].size == 0 {
        RemovedOld(s, bp, ep[bp]);
        Close(bp);
      }
    }

    /**
     rmalloc: first fit.  `panic` for a size that is not positive; otherwise the address of the first segment that is
     large enough, whose first `size` units are now in use, or 0 if there is none.
     */
    method Rmalloc(size: int) returns (panic: bool, r: int, ghost i: nat)
      requires Valid()
      modifies this`k, ep
      ensures panic <==> size <= 0
      ensures panic ==> Valid() && Segs() == old(Segs())
      ensures !panic ==> Valid() && i <= |old(Segs())| && (forall j :: 0 <= j < i ==> old(Segs())[j].size < size)
      ensures !panic && i == |old(Segs())| ==> r == 0 && Segs() == old(Segs())
      ensures !panic && i < |old(Segs())| ==> old(Segs())[i].size >= size && r == old(Segs())[i].addr
      ensures !panic && i < |old(Segs())| ==> forall a :: Free(Segs(), a) <==>
        old(Free(Segs(), a)) && !(r <= a < r + size)
    {
      i := 0;
      if size <= 0 {
        return true, 0, 0;
      }
      panic := false;
      var bp := 0;
      while ep[bp].size != 0
        invariant bp <= k && forall j :: 0 <= j < bp ==> ep[j].size < size
        decreases k - bp
      {
        if ep[bp].size >= size {
          i := bp;
          r := ep[bp].addr;
          RangeTaken(Segs(), bp, r, size);
          CutFront(bp, size);
          return;
        }
        bp := bp + 1;
      }
      i, r := bp, 0;
    }

    /**
     The loop of rmfree that carries each slot from `at` on into the next one, until it has moved the end of the map.
     */
    method Carry(at: nat, size: int, addr: int) returns (bp: nat)
      requires at <= k < ep.Length && (forall i :: at <= i < k ==> ep[i].size > 0) && ep[k].size == 0
      modifies ep
      ensures bp == k + 1 && ep[at] == Mapent(size, addr)
      ensures forall i :: 0 <= i < at ==> ep[i] == old(ep[i])
      ensures forall i :: at < i < bp ==> ep[i] == old(ep[i - 1])
      ensures forall i :: bp <= i < ep.Length ==> ep[i] == old(ep[i])
    {
      ghost var was := ep[..];
      bp := at + 1;
      var carry := ep[at];
      ep[at] := Mapent(size, addr);
      while carry.size != 0
        invariant at < bp <= k + 1 && carry == was[bp - 1]
        invariant forall i :: 0 <= i < at ==> ep[i] == was[i]
        invariant ep[at] == Mapent(size, addr)
        invariant forall i :: at < i < bp ==> ep[i] == was[i - 1]
        invariant forall i :: bp <= i < ep.Length ==> ep[i] == was[i]
        decreases k + 1 - bp
      {
        carry, ep[bp] := ep[bp], carry;
        bp := bp + 1;
      }
    }

    /** A segment put in front of slot `at`, every later one moving up. */
    method Insert(at: nat, size: int, addr: int) returns (bp: nat)
      requires at <= k < ep.Length && size > 0 && (forall i :: at <= i < k ==> ep[i].size > 0) && Ended()
      modifies this`k, ep
      ensures k == old(k) + 1 == bp <= ep.Length && Segs() == Inserted(old(Segs()), at, Mapent(size, addr)) && Ended()
    {
      hide Inserted;
      ghost var s := Segs();
      bp := Carry(at, size, addr);
      k := k + 1;
      MovedUp(s, Segs(), at, Mapent(size, addr));
    }

    /** A map whose last slot is a segment gives up the one before it: the last slot has to end the map. */
    method Overflow(end: nat)
      requires 2 <= ep.Length && k == end <= ep.Length && Ended()
      modifies this`k, ep
      ensures k < ep.Length && Segs() == Kept(old(Segs()), ep.Length) && Ended()
    {
      if end + 1 > ep.Length {
        var bp := end - 1;
        ep[bp - 1] := ep[bp];
        ep[bp] := Mapent(0, 0);
        k := k - 1;
      }
    }

    /** The search of rmfree for the first segment behind the range. */
    method Locate(addr: int) returns (bp: nat)
      requires Valid()
      ensures bp <= k && FirstAfter(Segs(), addr, bp)
    {
      bp := 0;
      while ep[bp].addr <= addr && ep[bp].size != 0
        invariant bp <= k && forall j :: 0 <= j < bp ==> ep[j].addr <= addr
        decreases k - bp
      {
        bp := bp + 1;
      }
    }

    /**
     The lines of rmfree that add the range to the segment on its left, and to it the one on its right if they meet.
     */
    method AbsorbLeft(bp: nat, size: int, addr: int)
      requires Valid() && size > 0 && bp <= k && Left(Segs(), bp, addr) && (bp < k ==> addr + size <= ep[bp].addr)
      modifies this`k, ep
      ensures k < ep.Length && Segs() == Merged(old(Segs()), bp, addr, size) && Ended()
    {
      ghost var s := Segs();
      Positive(s);
      MergedShape(s, bp, addr, size);
      assert forall i :: 0 <= i < k ==> ep[i] == s[i];
      hide Canonical, Merged, Removed, Inserted;
      ep[bp - 1] := ep[bp - 1].(size := ep[bp - 1].size + size);
      if ep[bp].size != 0 && addr + size >= ep[bp].addr {
        ep[bp - 1] := ep[bp - 1].(size := ep[bp - 1].size + ep[bp].size);
        assert Segs() == s[bp - 1 := Mapent(s[bp - 1].size + size + s[bp].size, s[bp - 1].addr)];
        Close(bp);
      } else {
        assert Segs() == s[bp - 1 := Mapent(s[bp - 1].size + size, s[bp - 1].addr)];
      }
    }

    /** The lines of rmfree that put the range into the slots, where nothing overlaps it and it touches a segment. */
    method Absorb(bp: nat, size: int, addr: int)
      requires Valid() && size > 0 && FirstAfter(Segs(), addr, bp) && !Overlaps(Segs(), addr, size)
      requires Left(Segs(), bp, addr) || Right(Segs(), bp, addr, size)
      modifies this`k, ep
      ensures k < ep.Length && Segs() == Merged(old(Segs()), bp, addr, size) && Ended()
    {
      ghost var s := Segs();
      Between(s, bp, addr, size);
      MergedShape(s, bp, addr, size);
      hide Canonical, FirstAfter, Overlaps, Free, Merged, Removed, Inserted;
      if bp > 0 && ep[bp - 1].addr + ep[bp - 1].size >= addr {
        AbsorbLeft(bp, size, addr);
      } else {
        ep[bp] := Mapent(ep[bp].size + size, ep[bp].addr - size);
        assert Segs() == s[bp := Mapent(s[bp].size + size, s[bp].addr - size)];
      }
    }

    /** The rest of rmfree, for a range that overlaps nothing. */
    method Settle(at: nat, size: int, addr: int)
      requires Valid() && size > 0 && FirstAfter(Segs(), addr, at) && !Overlaps(Segs(), addr, size)
      modifies this`k, ep
      ensures Valid() && Segs() == Kept(Merged(old(Segs()), at, addr, size), ep.Length)
    {
      ghost var s := Segs();
      ghost var t := Merged(s, at, addr, size);
      Between(s, at, addr, size);
      Positive(s);
      MergedIsFree(s, at, addr, size);
      MergedShape(s, at, addr, size);
      KeptCanonical(t, ep.Length);
      KeptWhole(t, ep.Length);
      hide Canonical, FirstAfter, Overlaps, Free, Merged, Inserted, Removed, Kept;
      if (at > 0 && ep[at - 1].addr + ep[at - 1].size >= addr) || (ep[at].size != 0 && addr + size >= ep[at].addr) {
        Absorb(at, size, addr);
        Sealed(t);
      } else {
        assert forall i :: 0 <= i < k ==> ep[i] == s[i];
        var bp := Insert(at, size, addr);
        Overflow(bp);
        Sealed(Kept(t, ep.Length));
      }
    }

    /**
     rmfree.  `panic` for the address 0, for a size that is not positive and for a range of which anything is free;
     otherwise the range is free too, except that a full map keeps all segments but the last but one.
     */
    method Rmfree(size: int, addr: int) returns (panic: bool, ghost t: seq<Mapent>)
      requires Valid()
      modifies this`k, ep
      ensures panic <==> addr == 0 || size <= 0 || Overlaps(old(Segs()), addr, size)
      ensures !panic ==> Valid() && Canonical(t) && Segs() == Kept(t, ep.Length)
      ensures !panic ==> forall a :: Free(t, a) <==> Free(old(Segs()), a) || addr <= a < addr + size
    {
      hide Canonical, Free, Overlaps, FirstAfter;
      ghost var s := Segs();
      t := s;
      if addr == 0 || size <= 0 {
        return true, t;
      }
      var bp := Locate(addr);
      OnlyNeighbours(s, bp, addr, size);
      Positive(s);
      assert forall i :: 0 <= i < k ==> ep[i] == s[i];
      panic := (bp > 0 && ep[bp - 1].addr + ep[bp - 1].size > addr) || (ep[bp].size != 0 && addr + size > ep[bp].addr);
      if panic {
        return;
      }
      t := Merged(s, bp, addr, size);
      MergedIsFree(s, bp, addr, size);
      Settle(bp, size, addr);
    }

    /** The loop of rmget that moves the slots behind `bp` up by one, the delimiter first. */
    method MoveUp(bp: nat, end: nat)
      requires end + 1 < ep.Length && bp < end
      modifies ep
      ensures forall i :: 0 <= i <= bp ==> ep[i] == old(ep[i])
      ensures forall i :: bp + 1 < i <= end + 1 ==> ep[i] == old(ep[i - 1])
      ensures forall i :: end + 1 < i < ep.Length ==> ep[i] == old(ep[i])
    {
      var bp2 := end;
      while bp2 > bp
        invariant bp <= bp2 <= end
        invariant forall i :: 0 <= i <= bp2 ==> ep[i] == old(ep[i])
        invariant forall i :: bp2 + 1 < i <= end + 1 ==> ep[i] == old(ep[i - 1])
        invariant forall i :: end + 1 < i < ep.Length ==> ep[i] == old(ep[i])
      {
        ep[bp2 + 1] := ep[bp2];
        bp2 := bp2 - 1;
      }
    }

    /** The lines of rmget that take the middle of segment `bp`: what follows moves up and the back gets a slot. */
    method SplitSlot(bp: nat, end: nat, size: int, addr: int)
      requires end == k && k + 1 < ep.Length && bp < k && Ended()
      modifies this`k, ep
      ensures k == old(k) + 1 && Ended()
      ensures Segs() == Inserted(old(Segs())[bp := Mapent(addr - old(ep[bp].addr), old(ep[bp].addr))], bp + 1,
        Mapent(old(ep[bp].addr + ep[bp].size) - (addr + size), addr + size))
    {
      hide Inserted;
      ghost var s := Segs();
      MoveUp(bp, end);
      ep[bp + 1] := Mapent(ep[bp].addr + ep[bp].size - (addr + size), addr + size);
      ep[bp] := Mapent(addr - ep[bp].addr, ep[bp].addr);
      k := k + 1;
      MovedUp(s[bp := ep[bp]], Segs(), bp + 1, ep[bp + 1]);
    }

    /** The loop of rmget that looks for the slot that ends the map. */
    method End(bp: nat) returns (bp2: nat)
      requires Valid() && bp <= k
      ensures bp2 == k
    {
      bp2 := bp;
      Positive(Segs());
      assert forall i :: 0 <= i < k ==> ep[i] == Segs()[i];
      while ep[bp2].size != 0
        invariant bp2 <= k
        decreases k - bp2
      {
        bp2 := bp2 + 1;
      }
    }

    /** The search of rmget for the segment that has the address. */
    method Holder(addr: int) returns (bp: nat)
      requires Valid()
      ensures bp < k ==> In(Segs()[bp], addr)
      ensures k <= bp ==> bp == k && !Free(Segs(), addr)
    {
      bp := 0;
      while ep[bp].size != 0
        invariant bp <= k && forall j :: 0 <= j < bp ==> !In(ep[j], addr)
        decreases k - bp
      {
        if ep[bp].addr <= addr && ep[bp].addr + ep[bp].size > addr {
          break;
        }
        bp := bp + 1;
      }
    }

    /**
     The lines of rmget that take a range out of the segment that has it, unless it needs a slot that is not there.
     */
    method Carve(bp: nat, size: int, addr: int) returns (ok: bool)
      requires Valid() && bp < k && size > 0 && Inside(Segs()[bp], addr, size)
      modifies this`k, ep
      ensures ok <==> |Carved(old(Segs()), bp, addr, size)| < ep.Length
      ensures Valid() && Segs() == if ok then Carved(old(Segs()), bp, addr, size) else old(Segs())
    {
      ghost var s := Segs();
      Positive(s);
      assert forall i :: 0 <= i < k ==> ep[i] == s[i];
      RangeTaken(s, bp, addr, size);
      CarvedShape(s, bp, addr, size);
      hide Canonical, Free, Removed, Inserted, Carved;
      ok := true;
      if ep[bp].addr == addr {
        if ep[bp].addr + ep[bp].size == addr + size {
          Close(bp);
        } else {
          ep[bp] := Mapent(ep[bp].size - size, ep[bp].addr + size);
          assert Segs() == s[bp := ep[bp]];
        }
      } else if ep[bp].addr + ep[bp].size == addr + size {
        ep[bp] := ep[bp].(size := ep[bp].size - size);
        assert Segs() == s[bp := ep[bp]];
      } else {
        var bp2 := End(bp);
        if bp2 + 1 >= ep.Length {
          return false;
        }
        SplitSlot(bp, bp2, size, addr);
      }
      Sealed(Carved(s, bp, addr, size));
    }

    /**
     rmget.  `panic` for a size that is not positive; otherwise the range is taken exactly when all of it is free and
     what is left of the free space around it fits the map.
     */
    method Rmget(size: int, addr: int) returns (panic: bool, r: int, ghost taken: bool)
      requires Valid()
      modifies this`k, ep
      ensures panic <==> size <= 0
      ensures Valid()
      ensures !panic ==> (taken <==>
        Whole(old(Segs()), addr, size) && (old(k) + 1 == ep.Length ==>
        !(Free(old(Segs()), addr - 1) && Free(old(Segs()), addr + size))))
      ensures !panic ==> r == if taken then addr else 0
      ensures !panic && taken ==> forall a :: Free(Segs(), a) <==> Free(old(Segs()), a) && !(addr <= a < addr + size)
      ensures panic || !taken ==> Segs() == old(Segs())
    {
      hide Canonical, Free, Whole;
      ghost var s := Segs();
      panic, r, taken := size <= 0, 0, false;
      if panic {
        return;
      }
      var bp := Holder(addr);
      if ep[bp].size == 0 {
        NotWhole(s, addr, size);
        return;
      }
      WholeInside(s, bp, addr, size);
      if ep[bp].addr + ep[bp].size < addr + size {
        return;
      }
      RangeTaken(s, bp, addr, size);
      SplitInTwo(s, bp, addr, size);
      var ok := Carve(bp, size, addr);
      if ok {
        r, taken := addr, true;
      }
    }

    /**
     What rmalloc gave out of a map of positive addresses, rmfree takes back without panic and without loss: the very
     segments are there again.
     */
    method GiveAndTakeBack(size: int) returns (r: int)
      requires Valid() && size > 0 && forall i :: 0 <= i < k ==> ep[i].addr > 0
      modifies this`k, ep
      ensures Valid() && Segs() == old(Segs())
      ensures r != 0 <==> exists i :: 0 <= i < |old(Segs())| && old(Segs())[i].size >= size
    {
      ghost var s := Segs();
      assert forall i :: 0 <= i < k ==> s[i].addr > 0;
      hide Canonical, Free, Overlaps;
      var p, a, i := Rmalloc(size);
      r := a;
      if r != 0 {
        ghost var u := Segs();
        assert i < |s|;
        TakenAndReturned(s, u, i, r, size);
        var q, t := Rmfree(size, r);
        SameSegments(s, u, t, r, size);
        KeptWhole(t, ep.Length);
      }
    }
  }

  lemma TakenAndReturned(s: seq<Mapent>, u: seq<Mapent>, i: nat, addr: int, size: int)
    requires Canonical(s) && i < |s| && s[i].addr == addr && s[i].size >= size > 0
    requires forall a :: Free(u, a) <==> Free(s, a) && !(addr <= a < addr + size)
    ensures !Overlaps(u, addr, size) && Whole(s, addr, size)
  {
    forall a | addr <= a < addr + size
      ensures Free(s, a)
    {
      assert In(s[i], a);
    }
  }

  /** Taking a free range and giving it back leaves the same segments, not only the same addresses. */
  lemma SameSegments(s: seq<Mapent>, u: seq<Mapent>, t: seq<Mapent>, addr: int, size: int)
    requires Canonical(s) && Canonical(t) && Whole(s, addr, size)
    requires forall a :: Free(u, a) <==> Free(s, a) && !(addr <= a < addr + size)
    requires forall a :: Free(t, a) <==> Free(u, a) || addr <= a < addr + size
    ensures t == s
  {
    hide Canonical, Free;
    forall a
      ensures Free(s, a) <==> Free(t, a)
    {
    }
    OneForm(s, t);
  }

  lemma NotWhole(s: seq<Mapent>, addr: int, size: int)
    requires size > 0 && !Free(s, addr)
    ensures !Whole(s, addr, size)
  {
  }

  /** A map with room for one segment and its end loses five free addresses, and keeps the one that comes. */
  method LosesTheLarger() returns (m: Map)
    ensures fresh(m) && m.Valid() && m.Segs() == [Mapent(1, 100)]
  {
    hide *;
    m := new Map(3, 5, 10);
    FiveAndOne();
    var panic;
    ghost var t;
    panic, t := m.Rmfree(1, 100);
    OneForm(t, [Mapent(5, 10), Mapent(1, 100)]);
    KeepsTheSmaller();
  }

  lemma FiveAndOne()
    ensures !Overlaps([Mapent(5, 10)], 100, 1) && Canonical([Mapent(5, 10), Mapent(1, 100)])
    ensures forall a :: Free([Mapent(5, 10), Mapent(1, 100)], a) <==> Free([Mapent(5, 10)], a) || 100 <= a < 101
  {
    forall a
      ensures Free([Mapent(5, 10), Mapent(1, 100)], a) <==> 10 <= a < 15 || a == 100
      ensures Free([Mapent(5, 10)], a) <==> 10 <= a < 15
    {
      var s, m := [Mapent(5, 10), Mapent(1, 100)], [Mapent(5, 10)];
      assert In(s[0], a) <==> 10 <= a < 15;
      assert In(s[1], a) <==> a == 100;
      assert In(m[0], a) <==> 10 <= a < 15;
    }
  }

  lemma KeepsTheSmaller()
    ensures Kept([Mapent(5, 10), Mapent(1, 100)], 2) == [Mapent(1, 100)]
  {
  }
}
