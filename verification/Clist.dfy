/**
 Character lists: byte queues kept in blocks of a few characters that all come from one free list.
 */
module Clist {
  import opened FragMap
  import opened Seqs

  type Byte = c: int | 0 <= c < 256

  /** What is stored of an int put into a char. */
  function ToByte(c: int): Byte {
    c % 256
  }

  /** A char read back as a (signed) int. */
  function Signed(c: Byte): int {
    if c < 128 then c else c - 256
  }

  /** A pointer into the characters of a block; just past the last of them it is also a multiple of the block size. */
  datatype Ptr = Null | At(b: nat, off: nat)

  /** struct cblock; -1 is a null c_next. */
  datatype Cblock = Cblock(next: int, info: seq<Byte>)

  /** struct clist. */
  datatype Queue = Queue(cc: int, cf: Ptr, cl: Ptr)

  // ---------------------------------------------------------------------------------------------------
  // Lists of blocks
  // ---------------------------------------------------------------------------------------------------

  /** The blocks of `l` are linked in this order. */
  ghost predicate Chain(cb: seq<Cblock>, l: seq<nat>) {
    forall i: nat :: i < |l| ==> l[i] < |cb| && cb[l[i]].next == After(l, i)
  }

  function After(l: seq<nat>, i: nat): int {
    if i + 1 < |l| then l[i + 1] else -1
  }

  /** The blocks of `l` are those of list `p`, each once. */
  ghost predicate OnList(l: seq<nat>, owner: seq<nat>, p: nat) {
    Distinct(l) && forall i :: 0 <= i < |l| ==> l[i] < |owner| && owner[l[i]] == p
  }

  /** Every block is on exactly one list; list 0 is the free list, list `p + 1` that of clist `p`. */
  ghost predicate Partition(lists: seq<seq<nat>>, owner: seq<nat>) {
    && (forall p: nat :: p < |lists| ==> OnList(lists[p], owner, p))
    && (forall b: nat :: b < |owner| ==> owner[b] < |lists| && b in lists[owner[b]])
  }

  lemma StillOn(l: seq<nat>, owner: seq<nat>, p: nat, b: nat, v: nat)
    requires OnList(l, owner, p) && b < |owner| && owner[b] != p
    ensures OnList(l, owner[b := v], p)
  {
  }

  lemma EndsOff(l: seq<nat>, owner: seq<nat>, p: nat, v: nat)
    requires OnList(l, owner, p) && l != []
    ensures l[0] < |owner| && OnList(l[1..], owner[l[0] := v], p)
    ensures l[|l| - 1] < |owner| && OnList(l[..|l| - 1], owner[l[|l| - 1] := v], p)
  {
  }

  lemma PutOn(l: seq<nat>, owner: seq<nat>, p: nat, b: nat)
    requires OnList(l, owner, p) && b < |owner| && owner[b] != p
    ensures OnList([b] + l, owner[b := p], p) && OnList(l + [b], owner[b := p], p)
  {
  }

  /** A block goes from the head of one list to the head of the free list. */
  function FirstFreed(lists: seq<seq<nat>>, p: nat): seq<seq<nat>>
    requires 0 < p < |lists| && lists[p] != []
  {
    lists[p := lists[p][1..]][0 := [lists[p][0]] + lists[0]]
  }

  /** A block goes from the end of a list to the head of the free list. */
  function LastFreed(lists: seq<seq<nat>>, p: nat): seq<seq<nat>>
    requires 0 < p < |lists| && lists[p] != []
  {
    lists[p := lists[p][..|lists[p]| - 1]][0 := [lists[p][|lists[p]| - 1]] + lists[0]]
  }

  /** A block goes from the head of the free list to the end of another list. */
  function Taken(lists: seq<seq<nat>>, p: nat): seq<seq<nat>>
    requires 0 < p < |lists| && lists[0] != []
  {
    lists[p := lists[p] + [lists[0][0]]][0 := lists[0][1..]]
  }

  lemma IsOn(l: seq<nat>, owner: seq<nat>, p: nat)
    requires OnList(l, owner, p)
    ensures forall i :: 0 <= i < |l| ==> l[i] < |owner| && owner[l[i]] == p
  {
  }

  lemma FirstFreedPartition(lists: seq<seq<nat>>, owner: seq<nat>, p: nat)
    requires Partition(lists, owner) && 0 < p < |lists| && lists[p] != []
    ensures lists[p][0] < |owner| && Partition(FirstFreed(lists, p), owner[lists[p][0] := 0])
  {
    hide OnList;
    EndsOff(lists[p], owner, p, 0);
    var b, now, owned := lists[p][0], FirstFreed(lists, p), owner[lists[p][0] := 0];
    assert owner[b] == p by { IsOn(lists[p], owner, p); }
    PutOn(lists[0], owner, 0, b);
    forall r: nat | r < |lists|
      ensures OnList(now[r], owned, r)
    {
      if r != p && r != 0 {
        StillOn(lists[r], owner, r, b, 0);
      }
    }
    forall c: nat | c < |owned|
      ensures owned[c] < |now| && c in now[owned[c]]
    {
      if c != b && owner[c] == p {
        var i :| 0 <= i < |lists[p]| && lists[p][i] == c;
        assert lists[p][1..][i - 1] == c;
      }
    }
  }

  lemma LastFreedPartition(lists: seq<seq<nat>>, owner: seq<nat>, p: nat)
    requires Partition(lists, owner) && 0 < p < |lists| && lists[p] != []
    ensures lists[p][|lists[p]| - 1] < |owner| && Partition(LastFreed(lists, p), owner[lists[p][|lists[p]| - 1] := 0])
  {
    hide OnList;
    EndsOff(lists[p], owner, p, 0);
    var b, now, owned := lists[p][|lists[p]| - 1], LastFreed(lists, p), owner[lists[p][|lists[p]| - 1] := 0];
    assert owner[b] == p by { IsOn(lists[p], owner, p); }
    PutOn(lists[0], owner, 0, b);
    forall r: nat | r < |lists|
      ensures OnList(now[r], owned, r)
    {
      if r != p && r != 0 {
        StillOn(lists[r], owner, r, b, 0);
      }
    }
    forall c: nat | c < |owned|
      ensures owned[c] < |now| && c in now[owned[c]]
    {
      if c != b && owner[c] == p {
        var i :| 0 <= i < |lists[p]| && lists[p][i] == c;
        assert lists[p][..|lists[p]| - 1][i] == c;
      }
    }
  }

  lemma TakenPartition(lists: seq<seq<nat>>, owner: seq<nat>, p: nat)
    requires Partition(lists, owner) && 0 < p < |lists| && lists[0] != []
    ensures lists[0][0] < |owner| && Partition(Taken(lists, p), owner[lists[0][0] := p])
  {
    hide OnList;
    EndsOff(lists[0], owner, 0, p);
    var b, now, owned := lists[0][0], Taken(lists, p), owner[lists[0][0] := p];
    assert owner[b] == 0 by { IsOn(lists[0], owner, 0); }
    PutOn(lists[p], owner, p, b);
    forall r: nat | r < |lists|
      ensures OnList(now[r], owned, r)
    {
      if r != p && r != 0 {
        StillOn(lists[r], owner, r, b, p);
      }
    }
    forall c: nat | c < |owned|
      ensures owned[c] < |now| && c in now[owned[c]]
    {
      if c != b && owner[c] == 0 {
        var i :| 0 <= i < |lists[0]| && lists[0][i] == c;
        assert lists[0][1..][i - 1] == c;
      }
    }
  }

  // ---------------------------------------------------------------------------------------------------
  // The characters of a clist
  // ---------------------------------------------------------------------------------------------------

  ghost function Flat(cb: seq<Cblock>, l: seq<nat>): seq<Byte> {
    if l == [] then [] else Flat(cb, l[..|l| - 1]) + if l[|l| - 1] < |cb| then cb[l[|l| - 1]].info else []
  }

  /** The characters of the blocks of `l`, of the last of them only the first `e`. */
  ghost function Whole(cb: seq<Cblock>, l: seq<nat>, e: nat): seq<Byte>
    requires l != [] && l[|l| - 1] < |cb| && e <= |cb[l[|l| - 1]].info|
  {
    Flat(cb, l[..|l| - 1]) + cb[l[|l| - 1]].info[..e]
  }

  /** `q` is a clist over the blocks of `l`. */
  ghost predicate Holds(cb: seq<Cblock>, size: nat, q: Queue, l: seq<nat>) {
    if l == [] then q == Queue(0, Null, Null)
    else
      && q.cf.At? && q.cl.At? && q.cf.b == l[0] && q.cl.b == l[|l| - 1]
      && 0 <= q.cf.off < size && 1 <= q.cl.off <= size
      && l[|l| - 1] < |cb| && q.cl.off <= |cb[l[|l| - 1]].info|
      && q.cc == |Whole(cb, l, q.cl.off)| - q.cf.off && 1 <= q.cc
  }

  ghost function Text(cb: seq<Cblock>, size: nat, q: Queue, l: seq<nat>): seq<Byte>
    requires Holds(cb, size, q, l)
  {
    if l == [] then [] else Whole(cb, l, q.cl.off)[q.cf.off..]
  }

  ghost predicate Sized(cb: seq<Cblock>, size: nat) {
    0 < size && forall b :: 0 <= b < |cb| ==> |cb[b].info| == size
  }

  ghost predicate Within(cb: seq<Cblock>, l: seq<nat>) {
    forall i :: 0 <= i < |l| ==> l[i] < |cb|
  }

  lemma {:induction false} FlatSame(cb: seq<Cblock>, now: seq<Cblock>, l: seq<nat>)
    requires |cb| == |now| && Within(cb, l) && forall i :: 0 <= i < |l| ==> cb[l[i]].info == now[l[i]].info
    ensures Flat(cb, l) == Flat(now, l)
  {
    if l != [] {
      FlatSame(cb, now, l[..|l| - 1]);
    }
  }

  lemma {:induction false} FlatFirst(cb: seq<Cblock>, l: seq<nat>)
    requires Within(cb, l) && l != []
    ensures Flat(cb, l) == cb[l[0]].info + Flat(cb, l[1..])
  {
    var k := |l| - 1;
    if k == 0 {
      assert l[..0] == [] && l[1..] == [];
    } else {
      FlatFirst(cb, l[..k]);
      assert l[1..][..k - 1] == l[..k][1..];
    }
  }

  lemma {:induction false} FlatSize(cb: seq<Cblock>, size: nat, l: seq<nat>)
    requires Sized(cb, size) && Within(cb, l)
    ensures |Flat(cb, l)| == |l| * size
  {
    if l != [] {
      FlatSize(cb, size, l[..|l| - 1]);
      assert |l| * size == (|l| - 1) * size + size;
    }
  }

  /** Without its first block a list holds what it held after that block. */
  lemma WholeRest(cb: seq<Cblock>, size: nat, l: seq<nat>, e: nat)
    requires Sized(cb, size) && Within(cb, l) && 2 <= |l| && e <= size
    ensures |Whole(cb, l, e)| >= size && Whole(cb, l[1..], e) == Whole(cb, l, e)[size..]
    ensures Whole(cb, l, e)[..size] == cb[l[0]].info
  {
    var k := |l| - 1;
    FlatFirst(cb, l[..k]);
    assert l[1..][..k - 1] == l[..k][1..];
  }

  /** A new last block. */
  lemma WholeMore(cb: seq<Cblock>, size: nat, l: seq<nat>, b: nat, e: nat)
    requires Sized(cb, size) && Within(cb, l) && l != [] && b < |cb| && e <= size
    ensures Whole(cb, l + [b], e) == Whole(cb, l, size) + cb[b].info[..e]
  {
    assert (l + [b])[..|l|] == l;
    assert cb[l[|l| - 1]].info[..size] == cb[l[|l| - 1]].info;
  }

  lemma WholeOne(cb: seq<Cblock>, size: nat, b: nat, e: nat)
    requires Sized(cb, size) && b < |cb| && e <= size
    ensures Whole(cb, [b], e) == cb[b].info[..e]
  {
    assert [b][..0] == [];
  }

  lemma WholeSame(cb: seq<Cblock>, now: seq<Cblock>, l: seq<nat>, e: nat)
    requires |cb| == |now| && Within(cb, l) && l != [] && forall i :: 0 <= i < |l| ==> cb[l[i]].info == now[l[i]].info
    requires e <= |cb[l[|l| - 1]].info|
    ensures Whole(cb, l, e) == Whole(now, l, e)
  {
    FlatSame(cb, now, l[..|l| - 1]);
  }

  /** Nothing a clist depends on changed. */
  lemma TextSame(cb: seq<Cblock>, now: seq<Cblock>, size: nat, q: Queue, l: seq<nat>)
    requires Holds(cb, size, q, l) && |cb| == |now| && Within(cb, l) && forall i :: 0 <= i < |l| ==>
      cb[l[i]].info == now[l[i]].info
    ensures Holds(now, size, q, l) && Text(now, size, q, l) == Text(cb, size, q, l)
  {
    hide Whole;
    if l != [] {
      WholeSame(cb, now, l, q.cl.off);
    }
  }

  /** Between `cf` and `cl`, in the blocks of `l`, are the characters `t`. */
  ghost predicate Spans(cb: seq<Cblock>, size: nat, cf: Ptr, cl: Ptr, l: seq<nat>, t: seq<Byte>) {
    && l != [] && cf.At? && cl.At? && cf.b == l[0] && cl.b == l[|l| - 1] && cf.off < size && cl.off <= size
    && cl.b < |cb| && cl.off <= |cb[cl.b].info|
    && cf.off <= |Whole(cb, l, cl.off)| && t == Whole(cb, l, cl.off)[cf.off..]
  }

  lemma HoldsSpans(cb: seq<Cblock>, size: nat, q: Queue, l: seq<nat>, t: seq<Byte>)
    ensures l != [] && Spans(cb, size, q.cf, q.cl, l, t) && 1 <= q.cl.off && q.cc == |t| && t != [] <==>
            l != [] && Holds(cb, size, q, l) && Text(cb, size, q, l) == t
    ensures l == [] && Holds(cb, size, q, l) ==> q == Queue(0, Null, Null) && Text(cb, size, q, l) == []
  {
    hide Whole;
  }

  /** The first characters between the pointers, within the first block. */
  lemma FirstChars(cb: seq<Cblock>, size: nat, cf: Ptr, cl: Ptr, l: seq<nat>, t: seq<Byte>, n: nat)
    requires Spans(cb, size, cf, cl, l, t) && 1 <= cl.off && Sized(cb, size) && Within(cb, l) && cf.off + n <= size
      && n <= |t|
    ensures cf.b < |cb| && t[..n] == cb[cf.b].info[cf.off..cf.off + n]
  {
    var w, info := Whole(cb, l, cl.off), cb[l[0]].info;
    assert t[..n] == w[cf.off..cf.off + n];
    if |l| == 1 {
      WholeOne(cb, size, l[0], cl.off);
      assert l == [l[0]];
      hide Whole;
      assert w == info[..cl.off] && w[cf.off..cf.off + n] == info[cf.off..cf.off + n];
    } else {
      WholeRest(cb, size, l, cl.off);
      hide Whole;
      assert w[cf.off..cf.off + n] == w[..size][cf.off..cf.off + n];
    }
  }

  /** What is between the pointers once the first one moves on by `n`, within its block. */
  lemma Advance(cb: seq<Cblock>, size: nat, cf: Ptr, cl: Ptr, l: seq<nat>, t: seq<Byte>, n: nat)
    requires Spans(cb, size, cf, cl, l, t) && 1 <= cl.off && Sized(cb, size) && Within(cb, l) && cf.off + n <= size
      && n <= |t|
    ensures cf.b < |cb| && t[..n] == cb[cf.b].info[cf.off..cf.off + n]
    ensures n == |t| ==> |l| == 1
    ensures n < |t| && cf.off + n < size ==> Spans(cb, size, At(cf.b, cf.off + n), cl, l, t[n..])
    ensures n < |t| && cf.off + n == size ==> 2 <= |l| && Spans(cb, size, At(l[1], 0), cl, l[1..], t[n..])
  {
    FirstChars(cb, size, cf, cl, l, t, n);
    if |l| == 1 {
      WholeOne(cb, size, l[0], cl.off);
      assert l == [l[0]];
    } else {
      WholeRest(cb, size, l, cl.off);
      assert |Whole(cb, l, cl.off)| >= size + 1 by { WholeEnd(cb, l[1..], cl.off); }
    }
  }

  lemma WholeEnd(cb: seq<Cblock>, l: seq<nat>, e: nat)
    requires l != [] && l[|l| - 1] < |cb| && 1 <= e <= |cb[l[|l| - 1]].info|
    ensures |Whole(cb, l, e)| >= e
  {
  }

  /** `s` stored at `cl`, within its block. */
  lemma Append(cb: seq<Cblock>, now: seq<Cblock>, size: nat, cf: Ptr, cl: Ptr, l: seq<nat>, t: seq<Byte>, s: seq<Byte>)
    requires Spans(cb, size, cf, cl, l, t) && Sized(cb, size) && Within(cb, l) && Distinct(l) && cl.off + |s| <= size
    requires now == cb[cl.b := cb[cl.b].(info := cb[cl.b].info[..cl.off] + s + cb[cl.b].info[cl.off + |s|..])]
    ensures Spans(now, size, cf, At(cl.b, cl.off + |s|), l, t + s) && Sized(now, size)
  {
    var k := |l| - 1;
    FlatSame(cb, now, l[..k]);
    assert now[cl.b].info[..cl.off + |s|] == cb[cl.b].info[..cl.off] + s;
  }

  /** A new block behind a full one, or as the first. */
  lemma NewEnd(cb: seq<Cblock>, now: seq<Cblock>, size: nat, cf: Ptr, cl: Ptr, l: seq<nat>, t: seq<Byte>, b: nat)
    requires Spans(cb, size, cf, cl, l, t) && Sized(cb, size) && Within(cb, l) && b < |cb| && SameInfo(cb, now)
      && cl.off == size
    ensures Spans(now, size, cf, At(b, 0), l + [b], t)
  {
    WholeMore(cb, size, l, b, 0);
    assert Within(cb, l + [b]);
    WholeSame(cb, now, l + [b], 0);
  }

  lemma FirstEnd(cb: seq<Cblock>, size: nat, b: nat)
    requires Sized(cb, size) && b < |cb|
    ensures Spans(cb, size, At(b, 0), At(b, 0), [b], [])
  {
    WholeOne(cb, size, b, 0);
  }

  lemma SpansSame(cb: seq<Cblock>, now: seq<Cblock>, size: nat, cf: Ptr, cl: Ptr, l: seq<nat>, t: seq<Byte>)
    requires Spans(cb, size, cf, cl, l, t) && Within(cb, l) && SameInfo(cb, now)
    ensures Spans(now, size, cf, cl, l, t)
  {
    hide Whole;
    WholeSame(cb, now, l, cl.off);
  }

  /** The last character taken back, in its block. */
  lemma LastChar(cb: seq<Cblock>, size: nat, cf: Ptr, cl: Ptr, l: seq<nat>, t: seq<Byte>)
    requires Spans(cb, size, cf, cl, l, t) && 1 <= cl.off && t != []
    ensures t[|t| - 1] == cb[cl.b].info[cl.off - 1]
    ensures Spans(cb, size, cf, At(cl.b, cl.off - 1), l, t[..|t| - 1])
  {
    var k, info := |l| - 1, cb[cl.b].info;
    assert info[..cl.off][..cl.off - 1] == info[..cl.off - 1];
    assert Whole(cb, l, cl.off - 1) == Whole(cb, l, cl.off)[..|Whole(cb, l, cl.off)| - 1];
  }

  /** A last block without characters may go. */
  lemma LastGone(cb: seq<Cblock>, size: nat, cf: Ptr, cl: Ptr, l: seq<nat>, t: seq<Byte>)
    requires Spans(cb, size, cf, cl, l, t) && cl.off == 0 && Sized(cb, size) && Within(cb, l) && 2 <= |l|
    ensures Spans(cb, size, cf, At(l[|l| - 2], size), l[..|l| - 1], t)
  {
    var k := |l| - 1;
    WholeMore(cb, size, l[..k], l[k], 0);
    hide Whole;
    assert l[..k] + [l[k]] == l;
    assert cb[l[k]].info[..0] == [];
  }

  /** The last character taken back, when its block keeps others or is the only one; and when the block goes with it. */
  lemma Retreat(cb: seq<Cblock>, size: nat, cf: Ptr, cl: Ptr, l: seq<nat>, t: seq<Byte>)
    requires Spans(cb, size, cf, cl, l, t) && 1 <= cl.off && t != [] && Sized(cb, size) && Within(cb, l)
    ensures t[|t| - 1] == cb[cl.b].info[cl.off - 1]
    ensures |t| == 1 ==> |l| == 1
    ensures 2 <= |t| && cl.off == 1 ==> 2 <= |l|
    ensures Spans(cb, size, cf, At(cl.b, cl.off - 1), l, t[..|t| - 1])
    ensures 2 <= |l| && cl.off == 1 ==> Spans(cb, size, cf, At(l[|l| - 2], size), l[..|l| - 1], t[..|t| - 1])
  {
    LastChar(cb, size, cf, cl, l, t);
    if |l| == 1 {
      WholeOne(cb, size, l[0], cl.off);
      assert l == [l[0]];
    } else {
      WholeRest(cb, size, l, cl.off);
      WholeEnd(cb, l[1..], cl.off);
      hide Whole;
      if cl.off == 1 {
        LastGone(cb, size, cf, At(cl.b, 0), l, t[..|t| - 1]);
      }
    }
  }

  // ---------------------------------------------------------------------------------------------------
  // The clists and their pool
  // ---------------------------------------------------------------------------------------------------

  function Head(l: seq<nat>): int {
    if l == [] then -1 else l[0]
  }

  /** The lists of blocks are in order, and the free list is counted. */
  ghost predicate Pool(size: nat, cb: seq<Cblock>, cfreelist: int, cfreecount: int, lists: seq<seq<nat>>,
        owner: seq<nat>) {
    && Sized(cb, size) && |owner| == |cb| && lists != [] && Partition(lists, owner)
    && (forall p: nat :: p < |lists| ==> Chain(cb, lists[p]))
    && cfreelist == Head(lists[0]) && cfreecount == size * |lists[0]|
  }

  ghost predicate SameInfo(cb: seq<Cblock>, now: seq<Cblock>) {
    |cb| == |now| && forall b :: 0 <= b < |cb| ==> now[b].info == cb[b].info
  }

  /** A list none of whose links changed. */
  lemma ChainSame(cb: seq<Cblock>, now: seq<Cblock>, l: seq<nat>, where: set<nat>)
    requires Chain(cb, l) && |cb| == |now| && (forall b: nat :: b < |cb| && b !in where ==> now[b].next == cb[b].next)
    requires forall i :: 0 <= i < |l| ==> l[i] !in where
    ensures Chain(now, l)
  {
  }

  lemma NotOn(l: seq<nat>, owner: seq<nat>, p: nat, b: nat)
    requires OnList(l, owner, p) && b < |owner| && owner[b] != p
    ensures forall i :: 0 <= i < |l| ==> l[i] != b
  {
  }

  lemma ChainTail(cb: seq<Cblock>, l: seq<nat>)
    requires Chain(cb, l) && l != [] && Distinct(l)
    ensures l[0] < |cb| && cb[l[0]].next == Head(l[1..]) && Chain(cb, l[1..]) && forall i :: 0 <= i < |l| - 1 ==>
      l[1..][i] != l[0]
  {
    var t := l[1..];
    forall i: nat | i < |t|
      ensures t[i] < |cb| && cb[t[i]].next == After(t, i) && t[i] != l[0]
    {
      assert t[i] == l[i + 1] && After(t, i) == After(l, i + 1);
      assert 0 < i + 1 < |l|;
    }
  }

  lemma ChainPush(cb: seq<Cblock>, l: seq<nat>, b: nat)
    requires Chain(cb, l) && b < |cb| && cb[b].next == Head(l)
    ensures Chain(cb, [b] + l)
  {
    var m := [b] + l;
    forall i: nat | i < |m|
      ensures m[i] < |cb| && cb[m[i]].next == After(m, i)
    {
      assert i > 0 ==> m[i] == l[i - 1] && After(m, i) == After(l, i - 1);
    }
  }

  /** The links are in order after a block went from the head of list `p` to the free list. */
  lemma ChainFirstFreed(cb: seq<Cblock>, lists: seq<seq<nat>>, owner: seq<nat>, p: nat, now: seq<Cblock>)
    requires Partition(lists, owner) && |owner| == |cb| && 0 < p < |lists| && lists[p] != [] && lists[p][0] < |cb|
    requires forall r: nat :: r < |lists| ==> Chain(cb, lists[r])
    requires now == cb[lists[p][0] := cb[lists[p][0]].(next := Head(lists[0]))]
    ensures forall r: nat :: r < |lists| ==> Chain(now, FirstFreed(lists, p)[r])
  {
    hide Chain, Distinct;
    var b := lists[p][0];
    IsOn(lists[p], owner, p);
    ChainTail(cb, lists[p]);
    forall r: nat | r < |lists|
      ensures Chain(now, FirstFreed(lists, p)[r])
    {
      if r == p {
        ChainSame(cb, now, lists[p][1..], {b});
      } else {
        NotOn(lists[r], owner, r, b);
        ChainSame(cb, now, lists[r], {b});
        if r == 0 {
          ChainPush(now, lists[0], b);
        }
      }
    }
  }

  lemma PoolFirstFreed(size: nat, cb: seq<Cblock>, head: int, count: int, lists: seq<seq<nat>>, owner: seq<nat>, p: nat,
        now: seq<Cblock>)
    requires Pool(size, cb, head, count, lists, owner) && 0 < p < |lists| && lists[p] != [] && lists[p][0] < |cb|
    requires now == cb[lists[p][0] := cb[lists[p][0]].(next := head)]
    ensures Pool(size, now, lists[p][0], count + size, FirstFreed(lists, p), owner[lists[p][0] := 0])
      && SameInfo(cb, now)
  {
    hide Chain, Partition;
    FirstFreedPartition(lists, owner, p);
    ChainFirstFreed(cb, lists, owner, p, now);
    OneMore(size, |lists[0]|);
  }

  lemma ChainTrim(cb: seq<Cblock>, now: seq<Cblock>, l: seq<nat>)
    requires Chain(cb, l) && Distinct(l) && 2 <= |l| && |now| == |cb| && l[|l| - 2] < |cb|
    requires now[l[|l| - 2]].next == -1 && forall b: nat :: b < |cb| && b != l[|l| - 1] && b != l[|l| - 2] ==>
      now[b].next == cb[b].next
    ensures Chain(now, l[..|l| - 1])
  {
    var t := l[..|l| - 1];
    forall i: nat | i < |t|
      ensures t[i] < |now| && now[t[i]].next == After(t, i)
    {
      assert t[i] == l[i];
      assert i + 1 < |t| ==> After(t, i) == After(l, i);
    }
  }

  lemma ChainGrow(cb: seq<Cblock>, now: seq<Cblock>, l: seq<nat>, b: nat)
    requires Chain(cb, l) && Distinct(l) && |now| == |cb| && b < |cb| && now[b].next == -1
      && forall i :: 0 <= i < |l| ==> l[i] != b
    requires l != [] ==> l[|l| - 1] < |cb| && now[l[|l| - 1]].next == b
    requires forall c: nat :: c < |cb| && c != b && (l == [] || c != l[|l| - 1]) ==> now[c].next == cb[c].next
    ensures Chain(now, l + [b])
  {
    var t := l + [b];
    forall i: nat | i < |t|
      ensures t[i] < |now| && now[t[i]].next == After(t, i)
    {
      if i < |l| {
        assert t[i] == l[i];
        assert i + 1 < |l| ==> After(t, i) == After(l, i);
      }
    }
  }

  /** The links are in order after a block went from the end of list `p` to the free list. */
  lemma ChainLastFreed(cb: seq<Cblock>, lists: seq<seq<nat>>, owner: seq<nat>, p: nat, o: nat, b: nat, now: seq<Cblock>)
    requires Partition(lists, owner) && |owner| == |cb| && 0 < p < |lists| && 2 <= |lists[p]|
    requires o == lists[p][|lists[p]| - 2] < |cb| && b == lists[p][|lists[p]| - 1] < |cb| && o != b
    requires forall r: nat :: r < |lists| ==> Chain(cb, lists[r])
    requires now == cb[b := cb[b].(next := Head(lists[0]))][o := cb[o].(next := -1)]
    ensures forall r: nat :: r < |lists| ==> Chain(now, LastFreed(lists, p)[r])
  {
    hide Chain;
    IsOn(lists[p], owner, p);
    forall r: nat | r < |lists|
      ensures Chain(now, LastFreed(lists, p)[r])
    {
      if r == p {
        ChainTrim(cb, now, lists[p]);
      } else {
        NotOn(lists[r], owner, r, b);
        NotOn(lists[r], owner, r, o);
        ChainSame(cb, now, lists[r], {b, o});
        if r == 0 {
          ChainPush(now, lists[0], b);
        }
      }
    }
  }

  lemma PoolLastFreed(size: nat, cb: seq<Cblock>, head: int, count: int, lists: seq<seq<nat>>, owner: seq<nat>, p: nat,
        o: nat, b: nat, now: seq<Cblock>)
    requires Pool(size, cb, head, count, lists, owner) && 0 < p < |lists| && 2 <= |lists[p]|
    requires o == lists[p][|lists[p]| - 2] < |cb| && b == lists[p][|lists[p]| - 1] < |cb| && o != b
    requires now == cb[b := cb[b].(next := head)][o := cb[o].(next := -1)]
    ensures Pool(size, now, b, count + size, LastFreed(lists, p), owner[b := 0]) && SameInfo(cb, now)
  {
    hide Chain, Partition;
    LastFreedPartition(lists, owner, p);
    ChainLastFreed(cb, lists, owner, p, o, b, now);
    OneMore(size, |lists[0]|);
  }

  /** The links are in order after a block went from the free list to the end of list `p`. */
  lemma ChainTaken(cb: seq<Cblock>, lists: seq<seq<nat>>, owner: seq<nat>, p: nat, b: nat, now: seq<Cblock>)
    requires Partition(lists, owner) && |owner| == |cb| && 0 < p < |lists| && lists[0] != []
      && b == lists[0][0] < |cb| == |now|
    requires forall r: nat :: r < |lists| ==> Chain(cb, lists[r])
    requires lists[p] != [] ==> lists[p][|lists[p]| - 1] < |cb| && now[lists[p][|lists[p]| - 1]].next == b
    requires now[b].next == -1
    requires forall c: nat :: c < |cb| && c != b && (lists[p] == [] || c != lists[p][|lists[p]| - 1]) ==>
      now[c].next == cb[c].next
    ensures forall r: nat :: r < |lists| ==> Chain(now, Taken(lists, p)[r])
  {
    hide Chain;
    IsOn(lists[0], owner, 0);
    IsOn(lists[p], owner, p);
    var where := {b} + if lists[p] == [] then {} else {lists[p][|lists[p]| - 1]};
    forall r: nat | r < |lists|
      ensures Chain(now, Taken(lists, p)[r])
    {
      if r == p {
        NotOn(lists[p], owner, p, b);
        ChainGrow(cb, now, lists[p], b);
      } else {
        if lists[p] != [] {
          NotOn(lists[r], owner, r, lists[p][|lists[p]| - 1]);
        }
        if r == 0 {
          ChainTail(cb, lists[0]);
          ChainSame(cb, now, lists[0][1..], where);
        } else {
          NotOn(lists[r], owner, r, b);
          ChainSame(cb, now, lists[r], where);
        }
      }
    }
  }

  lemma PoolTaken(size: nat, cb: seq<Cblock>, head: int, count: int, lists: seq<seq<nat>>, owner: seq<nat>, p: nat,
        b: nat, now: seq<Cblock>)
    requires Pool(size, cb, head, count, lists, owner) && 0 < p < |lists| && lists[0] != [] && b == lists[0][0] < |cb|
      && SameInfo(cb, now)
    requires lists[p] != [] ==> lists[p][|lists[p]| - 1] < |cb| && now[lists[p][|lists[p]| - 1]].next == b
    requires now[b].next == -1
    requires forall c: nat :: c < |cb| && c != b && (lists[p] == [] || c != lists[p][|lists[p]| - 1]) ==>
      now[c].next == cb[c].next
    ensures Pool(size, now, cb[b].next, count - size, Taken(lists, p), owner[b := p])
  {
    hide Partition;
    TakenPartition(lists, owner, p);
    assert Chain(cb, lists[0]) && cb[b].next == After(lists[0], 0) == Head(lists[0][1..]);
    OneMore(size, |lists[0]| - 1);
    ChainTaken(cb, lists, owner, p, b, now);
  }

  /** Filling in characters leaves the lists alone. */
  lemma PoolFilled(size: nat, cb: seq<Cblock>, head: int, count: int, lists: seq<seq<nat>>, owner: seq<nat>,
        now: seq<Cblock>)
    requires Pool(size, cb, head, count, lists, owner) && |now| == |cb|
    requires forall b :: 0 <= b < |cb| ==> now[b].next == cb[b].next && |now[b].info| == size
    ensures Pool(size, now, head, count, lists, owner)
  {
    hide Partition;
    forall p: nat | p < |lists|
      ensures Chain(now, lists[p])
    {
      ChainSame(cb, now, lists[p], {});
    }
  }

  lemma PoolBlock(size: nat, cb: seq<Cblock>, head: int, count: int, lists: seq<seq<nat>>, owner: seq<nat>, p: nat,
        i: nat)
    requires Pool(size, cb, head, count, lists, owner) && p < |lists| && i < |lists[p]|
    ensures lists[p][i] < |cb| == |owner|
  {
    hide Distinct;
    assert Chain(cb, lists[p]);
  }

  lemma OneMore(size: nat, k: nat)
    ensures size * (k + 1) == size * k + size
  {
  }

  /** Everything about clist `p` but its characters stays as it is when another one changes. */
  lemma OthersSame(cb: seq<Cblock>, now: seq<Cblock>, size: nat, q: Queue, l: seq<nat>, t: seq<Byte>)
    requires Holding(cb, size, q, l, t) && Within(cb, l) && |cb| == |now| && forall i :: 0 <= i < |l| ==>
      cb[l[i]].info == now[l[i]].info
    ensures Holding(now, size, q, l, t)
  {
    hide Holds, Text;
    TextSame(cb, now, size, q, l);
  }

  /** `q` is a clist over the blocks of `l`, and its characters are `t`. */
  ghost predicate Holding(cb: seq<Cblock>, size: nat, q: Queue, l: seq<nat>, t: seq<Byte>) {
    Holds(cb, size, q, l) && Text(cb, size, q, l) == t
  }

  lemma HoldingSpans(cb: seq<Cblock>, size: nat, q: Queue, l: seq<nat>, t: seq<Byte>)
    requires Holding(cb, size, q, l, t)
    ensures |t| == q.cc && (l == [] <==> t == []) && (l == [] <==> q.cf == Null) && (l == [] <==> q.cl == Null)
    ensures l != [] ==>
      Spans(cb, size, q.cf, q.cl, l, t) && 1 <= q.cl.off <= size && q.cf.off < size && q.cf.b == l[0]
      && q.cl.b == l[|l| - 1] < |cb|
  {
    HoldsSpans(cb, size, q, l, t);
  }

  lemma SpansHolding(cb: seq<Cblock>, size: nat, q: Queue, l: seq<nat>, t: seq<Byte>)
    requires Spans(cb, size, q.cf, q.cl, l, t) && 1 <= q.cl.off && q.cc == |t| && t != []
    ensures Holding(cb, size, q, l, t)
  {
    HoldsSpans(cb, size, q, l, t);
  }

  lemma NoneHolding(cb: seq<Cblock>, size: nat)
    ensures Holding(cb, size, Queue(0, Null, Null), [], [])
  {
  }

  lemma PoolWithin(size: nat, cb: seq<Cblock>, head: int, count: int, lists: seq<seq<nat>>, owner: seq<nat>, p: nat)
    requires Pool(size, cb, head, count, lists, owner) && p < |lists|
    ensures Sized(cb, size) && 0 < size && Within(cb, lists[p]) && Distinct(lists[p]) && OnList(lists[p], owner, p)
      && |owner| == |cb|
    ensures head == Head(lists[0]) && count == size * |lists[0]|
      && (lists[p] != [] ==> lists[p][0] < |cb| && lists[p][|lists[p]| - 1] < |cb|)
  {
    assert Chain(cb, lists[p]);
  }

  lemma NextOnChain(size: nat, cb: seq<Cblock>, head: int, count: int, lists: seq<seq<nat>>, owner: seq<nat>, p: nat,
        i: nat)
    requires Pool(size, cb, head, count, lists, owner) && p < |lists| && i < |lists[p]|
    ensures lists[p][i] < |cb| && cb[lists[p][i]].next == if i + 1 < |lists[p]| then lists[p][i + 1] else -1
  {
    assert Chain(cb, lists[p]);
  }

  /** The state of all clists: `texts[p]` are the characters of clist `p`. */
  datatype State = State(cb: seq<Cblock>, q: seq<Queue>, head: int, count: int, lists: seq<seq<nat>>, owner: seq<nat>,
        texts: seq<seq<Byte>>)

  ghost predicate PoolOf(size: nat, s: State) {
    Pool(size, s.cb, s.head, s.count, s.lists, s.owner) && |s.lists| == |s.q| + 1
  }

  /** Every block is on one clist or free, cfreecount counts the free ones, and every clist holds its characters. */
  ghost predicate Good(size: nat, s: State) {
    PoolOf(size, s) && |s.texts| == |s.q| && forall p :: 0 <= p < |s.q| ==>
      Holding(s.cb, size, s.q[p], s.lists[p + 1], s.texts[p])
  }

  /** The blocks of clists other than `p` keep their characters. */
  ghost predicate Keeps(s: State, t: State, p: nat) {
    && |t.cb| == |s.cb| && |t.owner| == |t.cb| && |t.lists| == |s.lists| && |t.q| == |s.q|
    && (forall b :: 0 <= b < |t.cb| && t.owner[b] != p + 1 ==> t.cb[b].info == s.cb[b].info)
    && (forall r: nat :: 0 < r < |s.lists| && r != p + 1 ==> t.lists[r] == s.lists[r])
    && (forall r :: 0 <= r < |s.q| && r != p ==> t.q[r] == s.q[r])
  }

  /** Clist `p` changed as it should, and nothing else did. */
  lemma GoodStep(size: nat, s: State, t: State, p: nat, text: seq<Byte>)
    requires Good(size, s) && p < |s.q| && PoolOf(size, t) && Keeps(s, t, p)
    requires t.texts == s.texts[p := text] && Holding(t.cb, size, t.q[p], t.lists[p + 1], text)
    ensures Good(size, t)
  {
    hide Holding, Pool;
    forall r | 0 <= r < |t.q|
      ensures Holding(t.cb, size, t.q[r], t.lists[r + 1], t.texts[r])
    {
      if r != p {
        PoolWithin(size, t.cb, t.head, t.count, t.lists, t.owner, r + 1);
        IsOn(t.lists[r + 1], t.owner, r + 1);
        OthersSame(s.cb, t.cb, size, t.q[r], t.lists[r + 1], t.texts[r]);
      }
    }
  }

  lemma GoodOpen(size: nat, s: State, p: nat)
    requires Good(size, s) && p < |s.q|
    ensures PoolOf(size, s) && |s.texts| == |s.q| && Holding(s.cb, size, s.q[p], s.lists[p + 1], s.texts[p])
    ensures Pool(size, s.cb, s.head, s.count, s.lists, s.owner) && |s.lists| == |s.q| + 1
  {
    hide Pool, Holding;
  }

  class Clists {
    const size: nat               // CBSIZE
    const cb: array<Cblock>       // cfree
    const q: array<Queue>         // the clists
    var cfreelist: int
    var cfreecount: int
    ghost var lists: seq<seq<nat>>
    ghost var owner: seq<nat>
    ghost var texts: seq<seq<Byte>>   // what is in each clist

    ghost function Now(): State
      reads this, cb, q
    {
      State(cb[..], q[..], cfreelist, cfreecount, lists, owner, texts)
    }

    ghost predicate Valid()
      reads this, cb, q
    {
      Good(size, Now())
    }

    lemma NowIs()
      ensures Now() == State(cb[..], q[..], cfreelist, cfreecount, lists, owner, texts)
    {
    }

    lemma Opened(p: nat)
      requires Valid() && p < q.Length
      ensures Now() == State(cb[..], q[..], cfreelist, cfreecount, lists, owner, texts)
      ensures Good(size, Now()) && PoolOf(size, Now()) && |texts| == q.Length
        && Holding(cb[..], size, q[p], lists[p + 1], texts[p])
      ensures Pool(size, cb[..], cfreelist, cfreecount, lists, owner) && |lists| == q.Length + 1
    {
      hide Good, PoolOf;
      GoodOpen(size, Now(), p);
    }

    lemma StillGood(s: State)
      requires Good(size, s) && s == Now()
      ensures Valid()
    {
    }

    lemma Closed(s: State, p: nat, text: seq<Byte>)
      requires Good(size, s) && p < |s.q| && Pool(size, cb[..], cfreelist, cfreecount, lists, owner)
        && |lists| == q.Length + 1 && Keeps(s, Now(), p)
      requires texts == s.texts[p := text] && q.Length == |s.q| && Holding(cb[..], size, q[p], lists[p + 1], text)
      ensures Valid()
    {
      hide Pool, Good, Keeps, Holding;
      GoodStep(size, s, Now(), p, text);
    }

    /** The lines by which a clist gives up its first block. */
    method FreeFirst(b: nat, ghost p: nat)
      requires Pool(size, cb[..], cfreelist, cfreecount, lists, owner) && 0 < p < |lists| && lists[p] != []
        && b == lists[p][0] < cb.Length
      modifies this`cfreelist, this`cfreecount, this`lists, this`owner, cb
      ensures Pool(size, cb[..], cfreelist, cfreecount, lists, owner) && lists == FirstFreed(old(lists), p)
        && SameInfo(old(cb[..]), cb[..])
      ensures b < |old(owner)| && owner == old(owner)[b := 0] && cfreecount == old(cfreecount) + size
    {
      hide *;
      PoolBlock(size, cb[..], cfreelist, cfreecount, lists, owner, p, 0);
      ghost var was := cb[..];
      cb[b] := cb[b].(next := cfreelist);
      PoolFirstFreed(size, was, cfreelist, cfreecount, lists, owner, p, cb[..]);
      cfreelist := b;
      cfreecount := cfreecount + size;
      lists, owner := FirstFreed(lists, p), owner[b := 0];
    }

    /**
     The lines getc and q_to_b share: move `n` characters out of the first block, and give it up once it is used up.
     */
    method Take(p: nat, n: nat) returns (chunk: seq<Byte>)
      requires Valid() && p < q.Length == |texts| && 1 <= n <= |texts[p]| && q[p].cf.At? && q[p].cf.off + n <= size
      modifies this`cfreelist, this`cfreecount, this`lists, this`owner, this`texts, cb, q
      ensures Valid() && chunk == old(texts[p])[..n] && texts == old(texts)[p := old(texts[p])[n..]]
      ensures texts[p] == [] ==> cfreecount == old(cfreecount) + size
      ensures texts[p] != [] ==>
        q[p].cf.At? && q[p].cf.off < size && cfreecount + q[p].cf.off == old(cfreecount) + old(q[p]).cf.off + n
      ensures forall r :: 0 <= r < q.Length && r != p ==> q[r] == old(q[r])
    {
      hide *;
      Opened(p);
      ghost var s, text, l := Now(), texts[p], lists[p + 1];
      HoldingSpans(cb[..], size, q[p], l, text);
      PoolWithin(size, cb[..], cfreelist, cfreecount, lists, owner, p + 1);
      var cf, cl := q[p].cf, q[p].cl;
      Advance(cb[..], size, cf, cl, l, text, n);
      chunk := cb[cf.b].info[cf.off..cf.off + n];
      var cc := q[p].cc - n;
      ghost var rest := text[n..];
      SameInfoIs(cb[..]);
      if cc <= 0 {
        q[p] := Queue(0, Null, Null);
        FreeFirst(cf.b, p + 1);
        FreedIs(s.lists, p + 1);
        NoneHolding(cb[..], size);
      } else if cf.off + n == size {
        NextOnChain(size, cb[..], cfreelist, cfreecount, lists, owner, p + 1, 0);
        q[p] := Queue(cc, At(cb[cf.b].next, 0), cl);
        FreeFirst(cf.b, p + 1);
        FreedIs(s.lists, p + 1);
        WithinTail(s.cb, l);
        SpansSame(s.cb, cb[..], size, q[p].cf, cl, l[1..], rest);
        SpansHolding(cb[..], size, q[p], l[1..], rest);
      } else {
        q[p] := Queue(cc, At(cf.b, cf.off + n), cl);
        SpansHolding(cb[..], size, q[p], l, rest);
      }
      texts := texts[p := rest];
      NowIs();
      KeepsIs(s, Now(), p);
      Closed(s, p, rest);
    }

    /** getc: take the first character; -1 if there is none. */
    method Getc(p: nat) returns (c: int)
      requires Valid() && p < q.Length && p < |texts|
      modifies this`cfreelist, this`cfreecount, this`lists, this`owner, this`texts, cb, q
      ensures Valid()
      ensures old(texts[p]) == [] ==> c == -1 && texts == old(texts)
      ensures old(texts[p]) != [] ==> c == old(texts[p])[0] && texts == old(texts)[p := old(texts[p])[1..]]
    {
      hide *;
      Opened(p);
      ghost var s := Now();
      HoldingSpans(cb[..], size, q[p], lists[p + 1], texts[p]);
      if q[p].cc <= 0 {
        EmptyQueue(cb[..], size, q[p], lists[p + 1], texts[p]);
        q[p] := Queue(0, Null, Null);
        assert q[..] == s.q;
        NowIs();
        StillGood(s);
        return -1;
      }
      var chunk := Take(p, 1);
      c := chunk[0];
    }

    /** q_to_b: move up to `n` characters to a buffer. */
    method QToB(p: nat, n: int) returns (buf: seq<Byte>)
      requires Valid() && p < q.Length == |texts|
      modifies this`cfreelist, this`cfreecount, this`lists, this`owner, this`texts, cb, q
      ensures Valid() && |buf| == Least(n, |old(texts[p])|) && buf == old(texts[p])[..|buf|]
      ensures texts == old(texts)[p := old(texts[p])[|buf|..]]
      ensures buf == [] ==> cfreecount == old(cfreecount)
      ensures buf != [] ==>
        old(q[p]).cf.At? && old(q[p]).cf.off < size
        && cfreecount == old(cfreecount) + Freed(size, old(q[p]).cf.off, |buf|, texts[p] == [])
      ensures forall r :: 0 <= r < q.Length && r != p ==> q[r] == old(q[r])
    {
      hide *;
      LeastIs(n, |texts[p]|);
      buf := [];
      if n <= 0 {
        SameTexts(texts, p);
        return;
      }
      Opened(p);
      PoolCount(size, cb[..], cfreelist, cfreecount, lists, owner);
      ghost var s, text := Now(), texts[p];
      HoldingSpans(cb[..], size, q[p], lists[p + 1], texts[p]);
      if q[p].cc <= 0 {
        EmptyQueue(cb[..], size, q[p], lists[p + 1], texts[p]);
        q[p] := Queue(0, Null, Null);
        assert q[..] == s.q;
        NowIs();
        StillGood(s);
        SameTexts(texts, p);
        return;
      }
      var cc := n;
      while cc != 0 && q[p].cc > 0
        invariant 0 <= cc <= n && |buf| == n - cc <= |text| && buf == text[..|buf|]
        invariant Valid() && |texts| == q.Length && texts == s.texts[p := text[|buf|..]]
        invariant s.q[p].cf.At?
        invariant texts[p] == [] ==> 0 <= cfreecount - (s.count + s.q[p].cf.off + |buf|) < size
        invariant texts[p] != [] ==>
          q[p].cf.At? && q[p].cf.off < size
          && cfreecount + q[p].cf.off == s.count + s.q[p].cf.off + |buf|
        invariant s.q[p].cf.At? && s.q[p].cf.off < size
        invariant forall r :: 0 <= r < q.Length && r != p ==> q[r] == s.q[r]
        decreases cc
      {
        Opened(p);
        HoldingSpans(cb[..], size, q[p], lists[p + 1], texts[p]);
        var nc := size - q[p].cf.off;
        nc := if cc < nc then cc else nc;
        nc := if q[p].cc < nc then q[p].cc else nc;
        var chunk := Take(p, nc);
        buf := buf + chunk;
        cc := cc - nc;
      }
      Opened(p);
      HoldingSpans(cb[..], size, q[p], lists[p + 1], texts[p]);
      PoolCount(size, cb[..], cfreelist, cfreecount, lists, owner);
      FreedExactly(size, |s.lists[0]|, |lists[0]|, s.q[p].cf.off, |buf|, if texts[p] == [] then 0 else q[p].cf.off,
        texts[p] == []);
    }

    /** ndflush: drop the first `n` characters. */
    method Ndflush(p: nat, n: int)
      requires Valid() && p < q.Length == |texts|
      modifies this`cfreelist, this`cfreecount, this`lists, this`owner, this`texts, cb, q
      ensures Valid() && texts == old(texts)[p := old(texts[p])[Least(n, |old(texts[p])|)..]]
    {
      hide *;
      LeastIs(n, |texts[p]|);
      SameTexts(texts, p);
      Opened(p);
      ghost var s, text, done := Now(), texts[p], 0;
      HoldingSpans(cb[..], size, q[p], lists[p + 1], texts[p]);
      if q[p].cc <= 0 {
        return;
      }
      var cc := n;
      while cc > 0 && q[p].cc != 0
        invariant 0 <= done <= |text| && (n <= 0 ==> done == 0) && (0 < n ==> 0 <= cc == n - done)
        invariant Valid() && |texts| == q.Length && texts == s.texts[p := text[done..]]
        decreases cc
      {
        Opened(p);
        HoldingSpans(cb[..], size, q[p], lists[p + 1], texts[p]);
        LastBlockEnds(cb[..], size, cfreelist, cfreecount, lists, owner, q[p], p + 1, texts[p]);
        var end := if q[p].cf.b == q[p].cl.b then q[p].cl.off else size;
        var rem := end - q[p].cf.off;
        if cc >= rem {
          cc := cc - rem;
          done := done + rem;
          var _ := Take(p, rem);
        } else {
          done := done + cc;
          var _ := Take(p, cc);
          break;
        }
      }
      Opened(p);
      HoldingSpans(cb[..], size, q[p], lists[p + 1], texts[p]);
      if q[p].cc <= 0 {
        EmptyQueue(cb[..], size, q[p], lists[p + 1], texts[p]);
        ghost var t := Now();
        q[p] := Queue(0, Null, Null);
        assert q[..] == t.q;
        NowIs();
        StillGood(t);
      }
    }


    /** The lines by which putc and b_to_q get a block for the end of a clist; -1 if none is free. */
    method AddBlock(tail: int, ghost p: nat) returns (bp: int)
      requires Pool(size, cb[..], cfreelist, cfreecount, lists, owner) && 0 < p < |lists|
      requires if lists[p] == [] then tail == -1 else tail == lists[p][|lists[p]| - 1]
      modifies this`cfreelist, this`cfreecount, this`lists, this`owner, cb
      ensures Pool(size, cb[..], cfreelist, cfreecount, lists, owner) && SameInfo(old(cb[..]), cb[..])
      ensures bp == -1 <==> old(lists[0]) == []
      ensures bp == -1 ==> lists == old(lists) && owner == old(owner) && cfreecount == old(cfreecount) == 0
      ensures bp == -1 ==> cb[..] == old(cb[..]) && cfreelist == old(cfreelist)
      ensures bp != -1 ==>
        bp >= 0 && old(lists[0]) != [] && bp == old(lists[0])[0] < cb.Length && lists == Taken(old(lists), p)
      ensures bp != -1 ==> bp < |old(owner)| && owner == old(owner)[bp := p] && cfreecount == old(cfreecount) - size
    {
      hide *;
      PoolWithin(size, cb[..], cfreelist, cfreecount, lists, owner, p);
      PoolWithin(size, cb[..], cfreelist, cfreecount, lists, owner, 0);
      HeadIs(lists[0]);
      SameInfoIs(cb[..]);
      ghost var was := cb[..];
      if tail != -1 {
        LastLink(size, cb[..], cfreelist, cfreecount, lists, owner, p);
        cb[tail] := cb[tail].(next := cfreelist);
      }
      if cfreelist == -1 {
        assert cb[..] == was;
        return -1;
      }
      bp := cfreelist;
      FreeIsNotTail(size, was, cfreelist, cfreecount, lists, owner, p);
      cfreelist := cb[bp].next;
      ghost var count := cfreecount;
      cfreecount := cfreecount - size;
      cb[bp] := cb[bp].(next := -1);
      SameInfoMade(was, cb[..]);
      PoolTaken(size, was, bp, count, lists, owner, p, bp, cb[..]);
      lists, owner := Taken(lists, p), owner[bp := p];
    }


    /** What still fits behind the last character of clist `p`. */
    function Room(p: nat): int
      requires p < q.Length
      reads q
    {
      if q[p].cl.Null? then 0 else size - q[p].cl.off
    }

    /**
     Where the next character of a clist goes that now ends at `cq`: a new block at its end if need be, and if one is
     free.  `t` is what the clist holds up to `cq`, and `s` the state everything started from.
     */
    method NextPlace(p: nat, cq: Ptr, ghost t: seq<Byte>, ghost s: State) returns (ok: bool, at: Ptr)
      requires Pool(size, cb[..], cfreelist, cfreecount, lists, owner) && p < q.Length && |lists| == q.Length + 1
        && Keeps(s, Now(), p)
      requires if lists[p + 1] == [] then cq == Null && t == [] else Spans(cb[..], size, q[p].cf, cq, lists[p + 1], t)
      modifies this`cfreelist, this`cfreecount, this`lists, this`owner, cb, q
      ensures Pool(size, cb[..], cfreelist, cfreecount, lists, owner) && |lists| == q.Length + 1 && Keeps(s, Now(), p)
      ensures q[p] == old(q[p]).(cf := q[p].cf)
      ensures !ok ==> cfreecount == old(cfreecount) == 0 && (cq == Null || (cq.At? && cq.off == size)) && at == cq
      ensures !ok ==>
        cb[..] == old(cb[..]) && lists == old(lists) && owner == old(owner) && q[..] == old(q[..])
        && cfreelist == old(cfreelist)
      ensures ok ==> at.At? && at.off < size && lists[p + 1] != [] && Spans(cb[..], size, q[p].cf, at, lists[p + 1], t)
      ensures ok ==> size - at.off + cfreecount == old(cfreecount) + if cq.Null? then 0 else size - cq.off
    {
      hide *;
      ghost var m, l := Now(), lists[p + 1];
      NowIs();
      PoolWithin(size, cb[..], cfreelist, cfreecount, lists, owner, p + 1);
      TailIs(cb[..], size, q[p].cf, cq, l, t);
      if cq.At? && cq.off != size {
        return true, cq;
      }
      var bp := AddBlock(if cq.Null? then -1 else cq.b as int, p + 1);
      if bp == -1 {
        NowIs();
        assert q[..] == m.q;
        UnchangedCb(m.cb, cb[..]);
        return false, cq;
      }
      TakenIs(m.lists, p + 1);
      PoolWithin(size, cb[..], cfreelist, cfreecount, lists, owner, p + 1);
      at := At(bp, 0);
      if cq.Null? {
        q[p] := q[p].(cf := at);
        FirstEnd(cb[..], size, bp);
        assert l + [bp] == [bp];
      } else {
        NewEnd(m.cb, cb[..], size, q[p].cf, cq, l, t, bp);
      }
      NowIs();
      KeepsIs(m, Now(), p);
      KeepsGrow(s, m, Now(), p);
      ok := true;
    }

    /** Storing characters where the last block has room for them. */
    method Store(p: nat, at: Ptr, chunk: seq<Byte>, ghost t: seq<Byte>, ghost s: State)
      requires Pool(size, cb[..], cfreelist, cfreecount, lists, owner) && p < q.Length && |lists| == q.Length + 1
        && Keeps(s, Now(), p)
      requires at.At? && at.off + |chunk| <= size && lists[p + 1] != []
        && Spans(cb[..], size, q[p].cf, at, lists[p + 1], t)
      modifies cb
      ensures Pool(size, cb[..], cfreelist, cfreecount, lists, owner) && Keeps(s, Now(), p)
      ensures Spans(cb[..], size, q[p].cf, At(at.b, at.off + |chunk|), lists[p + 1], t + chunk)
    {
      hide *;
      ghost var m, l := Now(), lists[p + 1];
      NowIs();
      PoolWithin(size, cb[..], cfreelist, cfreecount, lists, owner, p + 1);
      TailIs(cb[..], size, q[p].cf, at, l, t);
      SizedIs(cb[..], size, at.b);
      var info := cb[at.b].info;
      cb[at.b] := cb[at.b].(info := info[..at.off] + chunk + info[at.off + |chunk|..]);
      Append(m.cb, cb[..], size, q[p].cf, at, l, t, chunk);
      FilledIn(m.cb, cb[..], size, at.b);
      PoolFilled(size, m.cb, cfreelist, cfreecount, lists, owner, cb[..]);
      NowIs();
      StoredKeeps(s, m, Now(), p, at.b);
    }

    /** putc: append a character; -1 if there is no room and no block is free. */
    method Putc(c: int, p: nat) returns (r: int)
      requires Valid() && p < q.Length == |texts|
      modifies this`cfreelist, this`cfreecount, this`lists, this`owner, this`texts, cb, q
      ensures Valid() && (r == 0 || r == -1) && (r == -1 <==> old(Room(p) + cfreecount) == 0)
      ensures texts == if r == -1 then old(texts) else old(texts)[p := old(texts[p]) + [ToByte(c)]]
    {
      hide *;
      Opened(p);
      RoomIs(p);
      ghost var s, text := Now(), texts[p];
      HoldingSpans(cb[..], size, q[p], lists[p + 1], text);
      KeepsSame(size, s, p);
      var ok, cp := NextPlace(p, q[p].cl, text, s);
      if !ok {
        NowIs();
        StillGood(s);
        return -1;
      }
      PoolCount(size, cb[..], cfreelist, cfreecount, lists, owner);
      NowIs();
      Store(p, cp, [ToByte(c)], text, s);
      NowIs();
      ghost var m := Now();
      q[p] := Queue(q[p].cc + 1, q[p].cf, At(cp.b, cp.off + 1));
      texts := texts[p := text + [ToByte(c)]];
      NowIs();
      KeepsQueue(s, m, Now(), p);
      SpansHolding(cb[..], size, q[p], lists[p + 1], texts[p]);
      Closed(s, p, texts[p]);
      r := 0;
    }

    lemma RoomIs(p: nat)
      requires p < q.Length
      ensures Room(p) == if q[p].cl.Null? then 0 else size - q[p].cl.off
    {
    }

    /** The loop of b_to_q: how many characters were stored, and where the clist now ends. */
    method Fill(buf: seq<Byte>, p: nat, ghost text: seq<Byte>, ghost s: State) returns (done: nat, cq: Ptr)
      requires Pool(size, cb[..], cfreelist, cfreecount, lists, owner) && p < q.Length && |lists| == q.Length + 1
        && Keeps(s, Now(), p) && s == Now()
      requires if lists[p + 1] == []
        then q[p].cl == Null && text == [] else Spans(cb[..], size, q[p].cf, q[p].cl, lists[p + 1], text)
      modifies this`cfreelist, this`cfreecount, this`lists, this`owner, cb, q
      ensures Pool(size, cb[..], cfreelist, cfreecount, lists, owner) && |lists| == q.Length + 1 && Keeps(s, Now(), p)
        && cfreecount >= 0
      ensures q[p] == old(q[p]).(cf := q[p].cf) && done <= |buf|
      ensures done == 0 ==> Now() == s && cq == q[p].cl
      ensures done > 0 ==>
        cq.At? && 1 <= cq.off <= size && Spans(cb[..], size, q[p].cf, cq, lists[p + 1], text + buf[..done])
      ensures done < |buf| ==> cfreecount == 0 && (cq.Null? || cq.off == size)
      ensures done + cfreecount + (if cq.Null? then 0 else size - cq.off) == old(Room(p) + cfreecount)
    {
      hide *;
      RoomIs(p);
      NowIs();
      done, cq := 0, q[p].cl;
      assert text + buf[..0] == text;
      while done < |buf|
        invariant done <= |buf| && Pool(size, cb[..], cfreelist, cfreecount, lists, owner) && |lists| == q.Length + 1
          && Keeps(s, Now(), p)
        invariant if lists[p + 1] == []
          then cq == Null && text == [] && done == 0 else Spans(cb[..], size, q[p].cf, cq, lists[p + 1],
          text + buf[..done])
        invariant (done == 0 && Now() == s && cq == q[p].cl) || (done > 0 && cq.At? && 1 <= cq.off)
        invariant q[p] == old(q[p]).(cf := q[p].cf)
        invariant done + cfreecount + (if cq.Null? then 0 else size - cq.off) == old(Room(p) + cfreecount)
        decreases |buf| - done
      {
        ghost var t := text + buf[..done];
        NowIs();
        var ok;
        ok, cq := NextPlace(p, cq, t, s);
        NowIs();
        if !ok {
          break;
        }
        var nc := if |buf| - done < size - cq.off then |buf| - done else size - cq.off;
        Store(p, cq, buf[done..done + nc], t, s);
        assert t + buf[done..done + nc] == text + buf[..done + nc];
        cq, done := At(cq.b, cq.off + nc), done + nc;
      }
      PoolCount(size, cb[..], cfreelist, cfreecount, lists, owner);
      TailIs(cb[..], size, q[p].cf, cq, lists[p + 1], text + buf[..done]);
    }

    /** b_to_q: append the characters of a buffer, as many as there is room for; how many were left over. */
    method BToQ(buf: seq<Byte>, p: nat) returns (left: nat)
      requires Valid() && p < q.Length == |texts|
      modifies this`cfreelist, this`cfreecount, this`lists, this`owner, this`texts, cb, q
      ensures Valid() && left <= |buf| && |buf| - left == Least(|buf|, old(Room(p) + cfreecount))
      ensures texts == old(texts)[p := old(texts[p]) + buf[..|buf| - left]]
      ensures cfreecount == old(cfreecount) - Spent(size, old(Room(p)), |buf| - left)
      ensures forall r :: 0 <= r < q.Length && r != p ==> q[r] == old(q[r])
    {
      hide *;
      Opened(p);
      RoomIs(p);
      PoolCount(size, cb[..], cfreelist, cfreecount, lists, owner);
      ghost var s, text, l, space := Now(), texts[p], lists[p + 1], Room(p) + cfreecount;
      HoldingSpans(cb[..], size, q[p], l, text);
      LeastIs(|buf|, space);
      NothingAdded(texts, p, buf);
      if |buf| == 0 {
        NoneSpent(size, Room(p));
        return 0;
      }
      KeepsSame(size, s, p);
      var done, cq := Fill(buf, p, text, s);
      PoolCount(size, cb[..], cfreelist, cfreecount, lists, owner);
      PoolWithin(size, cb[..], cfreelist, cfreecount, lists, owner, p + 1);
      SpentExactly(size, |s.lists[0]|, |lists[0]|, space - s.count, done, if cq.Null? then 0 else size - cq.off);
      NowIs();
      left := |buf| - done;
      ghost var m := Now();
      q[p] := Queue(q[p].cc + done, q[p].cf, cq);
      NowIs();
      if done == 0 {
        assert q[..] == s.q;
        StillGood(s);
      } else {
        texts := texts[p := text + buf[..done]];
        NowIs();
        KeepsQueue(s, m, Now(), p);
        SpansHolding(cb[..], size, q[p], lists[p + 1], texts[p]);
        Closed(s, p, texts[p]);
        KeepsQueues(s, Now(), p);
      }
    }


    /** The lines of unputc by which a clist gives up its last block, which follows block `o`. */
    method FreeLast(o: nat, b: nat, ghost p: nat)
      requires Pool(size, cb[..], cfreelist, cfreecount, lists, owner) && 0 < p < |lists| && 2 <= |lists[p]|
      requires o == lists[p][|lists[p]| - 2] && b == lists[p][|lists[p]| - 1]
      modifies this`cfreelist, this`cfreecount, this`lists, this`owner, cb
      ensures Pool(size, cb[..], cfreelist, cfreecount, lists, owner) && lists == LastFreed(old(lists), p)
        && SameInfo(old(cb[..]), cb[..])
      ensures b < |old(owner)| && owner == old(owner)[b := 0]
    {
      hide *;
      PoolBlock(size, cb[..], cfreelist, cfreecount, lists, owner, p, |lists[p]| - 2);
      PoolBlock(size, cb[..], cfreelist, cfreecount, lists, owner, p, |lists[p]| - 1);
      PoolWithin(size, cb[..], cfreelist, cfreecount, lists, owner, p);
      TwoPlaces(lists[p], |lists[p]| - 2, |lists[p]| - 1);
      ghost var was, head := cb[..], cfreelist;
      cb[b] := cb[b].(next := cfreelist);
      cfreelist := b;
      cb[o] := cb[o].(next := -1);
      PoolLastFreed(size, was, head, cfreecount, lists, owner, p, o, b, cb[..]);
      cfreecount := cfreecount + size;
      lists, owner := LastFreed(lists, p), owner[b := 0];
    }

    /** The walk of unputc to the block before the last one. */
    method BeforeLast(from: nat, last: nat, ghost p: nat) returns (bp: nat)
      requires Pool(size, cb[..], cfreelist, cfreecount, lists, owner) && p < |lists| && 2 <= |lists[p]|
      requires from == lists[p][0] && last == lists[p][|lists[p]| - 1]
      ensures bp == lists[p][|lists[p]| - 2]
    {
      hide *;
      PoolWithin(size, cb[..], cfreelist, cfreecount, lists, owner, p);
      NextOnChain(size, cb[..], cfreelist, cfreecount, lists, owner, p, 0);
      bp := from;
      ghost var i := 0;
      while cb[bp].next != last
        invariant 0 <= i <= |lists[p]| - 2 && bp == lists[p][i] < cb.Length && cb[bp].next == lists[p][i + 1]
        decreases |lists[p]| - i
      {
        bp := cb[bp].next;
        i := i + 1;
        NextOnChain(size, cb[..], cfreelist, cfreecount, lists, owner, p, i);
      }
    }

    /** unputc: take the last character back, as a signed char; -1 if there is none. */
    method Unputc(p: nat) returns (c: int)
      requires Valid() && p < q.Length == |texts|
      modifies this`cfreelist, this`cfreecount, this`lists, this`owner, this`texts, cb, q
      ensures Valid()
      ensures old(texts[p]) == [] ==> c == -1 && texts == old(texts)
      ensures old(texts[p]) != [] ==> var t := old(texts[p]);
        c == Signed(t[|t| - 1]) && texts == old(texts)[p := t[..|t| - 1]]
    {
      hide *;
      Opened(p);
      ghost var s, text, l := Now(), texts[p], lists[p + 1];
      HoldingSpans(cb[..], size, q[p], l, text);
      PoolWithin(size, cb[..], cfreelist, cfreecount, lists, owner, p + 1);
      if q[p].cc <= 0 {
        return -1;
      }
      var cf, cl := q[p].cf, q[p].cl;
      Retreat(cb[..], size, cf, cl, l, text);
      SizedIs(cb[..], size, cl.b);
      SameInfoIs(cb[..]);
      c := Signed(cb[cl.b].info[cl.off - 1]);
      ghost var rest := text[..|text| - 1];
      var cc := q[p].cc - 1;
      if cc <= 0 {
        q[p] := Queue(0, Null, Null);
        FreeFirst(cl.b, p + 1);
        FreedIs(s.lists, p + 1);
        NoneHolding(cb[..], size);
      } else if cl.off - 1 == 0 {
        var obp := BeforeLast(cf.b, cl.b, p + 1);
        q[p] := Queue(cc, cf, At(obp, size));
        FreeLast(obp, cl.b, p + 1);
        LastFreedIs(s.lists, p + 1);
        WithinTail(s.cb, l);
        SpansSame(s.cb, cb[..], size, cf, q[p].cl, l[..|l| - 1], rest);
        SpansHolding(cb[..], size, q[p], l[..|l| - 1], rest);
      } else {
        q[p] := Queue(cc, cf, At(cl.b, cl.off - 1));
        SpansHolding(cb[..], size, q[p], l, rest);
      }
      texts := texts[p := rest];
      NowIs();
      KeepsIs(s, Now(), p);
      Closed(s, p, rest);
    }

    /** catq when `to` is empty: the structure is copied. */
    method MoveAll(from: nat, to: nat)
      requires Valid() && from < q.Length == |texts| && to < q.Length && from != to && q[to].cc == 0
      modifies this`lists, this`owner, this`texts, q
      ensures Valid() && texts == old(texts)[to := old(texts[to] + texts[from])][from := []]
    {
      hide *;
      Opened(from);
      Opened(to);
      EmptyQueue(cb[..], size, q[to], lists[to + 1], texts[to]);
      ghost var s := Now();
      q[to] := q[from];
      q[from] := Queue(0, Null, Null);
      lists, owner := Handed(lists, from + 1, to + 1), Relabelled(owner, from + 1, to + 1);
      assert s.texts[to] + s.texts[from] == s.texts[from];
      texts := texts[to := texts[from]][from := []];
      NowIs();
      NoneHolding(cb[..], size);
      HandedGood(size, s, Now(), from, to);
      StillGood(Now());
    }

    /**
     catq: append all of `from` to `to`, 4 * CBSIZE characters at a time. Not one is lost, even when no block is free;
     as long as nobody else takes a block between q_to_b and b_to_q, when interrupts are let in.
     */
    method Catq(from: nat, to: nat)
      requires Valid() && from < q.Length == |texts| && to < q.Length && from != to
      modifies this`cfreelist, this`cfreecount, this`lists, this`owner, this`texts, cb, q
      ensures Valid() && texts == old(texts)[to := old(texts[to] + texts[from])][from := []]
    {
      hide *;
      Opened(to);
      HoldingSpans(cb[..], size, q[to], lists[to + 1], texts[to]);
      if q[to].cc == 0 {
        MoveAll(from, to);
        return;
      }
      ghost var text, more, had, moved := texts[to], texts[from], texts, 0;
      Opened(from);
      HoldingSpans(cb[..], size, q[from], lists[from + 1], texts[from]);
      assert text + more[..0] == text && more[0..] == more && texts[to := text + more[..0]][from := more[0..]] == texts;
      while q[from].cc > 0
        invariant Valid() && |texts| == q.Length && moved <= |more|
          && texts == had[to := text + more[..moved]][from := more[moved..]]
        invariant q[from].cc == |more| - moved
        decreases q[from].cc
      {
        ghost var k := CatChunk(from, to);
        assert text + more[..moved] + more[moved..][..k] == text + more[..moved + k];
        assert more[moved..][k..] == more[moved + k..];
        moved := moved + k;
        Opened(from);
        HoldingSpans(cb[..], size, q[from], lists[from + 1], texts[from]);
      }
      assert more[..|more|] == more && more[|more|..] == [];
    }

    /** One turn of catq: the block's worth of characters that q_to_b takes off, b_to_q has room for. */
    method CatChunk(from: nat, to: nat) returns (ghost k: nat)
      requires Valid() && from < q.Length == |texts| && to < q.Length && from != to && texts[from] != []
      modifies this`cfreelist, this`cfreecount, this`lists, this`owner, this`texts, cb, q
      ensures Valid() && 0 < k <= |old(texts[from])|
      ensures texts == old(texts)[to := old(texts[to]) + old(texts[from])[..k]][from := old(texts[from])[k..]]
    {
      hide *;
      Opened(from);
      PoolCount(size, cb[..], cfreelist, cfreecount, lists, owner);
      HoldingSpans(cb[..], size, q[from], lists[from + 1], texts[from]);
      PoolWithin(size, cb[..], cfreelist, cfreecount, lists, owner, from + 1);
      LeastIs(4 * size, |texts[from]|);
      ghost var off := q[from].cf.off;
      var bbuf := QToB(from, 4 * size);
      Opened(from);
      Opened(to);
      PoolCount(size, cb[..], cfreelist, cfreecount, lists, owner);
      HoldingSpans(cb[..], size, q[to], lists[to + 1], texts[to]);
      RoomIs(to);
      EnoughFreed(size, off, |bbuf|, texts[from] == []);
      LeastIs(|bbuf|, Room(to) + cfreecount);
      k := |bbuf|;
      assert bbuf[..k] == bbuf;
      var left := BToQ(bbuf, to);
      assert left == 0;
    }

    /**
     One turn of catq as it may go: between q_to_b and b_to_q interrupts are let in, and put characters on a third
     clist. Of the `k` characters on their way those are lost, the last, for which there is no room once the others
     have taken their blocks.
     */
    method CatChunkAmid(from: nat, to: nat, other: nat, noise: seq<Byte>)
          returns (ghost k: nat, lost: nat, ghost taken: nat)
      requires Valid() && from < q.Length == |texts| && to < q.Length && other < q.Length && from != to && other != to
        && other != from && texts[from] != []
      modifies this`cfreelist, this`cfreecount, this`lists, this`owner, this`texts, cb, q
      ensures Valid() && 0 < k <= |old(texts[from])| && lost <= k && taken <= |noise|
      ensures texts == old(texts)[from := old(texts[from])[k..]][other := old(texts[other]) + noise[..taken]][to :=
        old(texts[to]) + old(texts[from])[..k - lost]]
      ensures k == Least(4 * size, |old(texts[from])|)
      ensures
        var free := old(cfreecount) + Freed(size, Place(old(q[from]).cf), k, k == |old(texts[from])|);
        && taken == Least(|noise|, old(Room(other)) + free)
        && lost == k - Least(k, old(Room(to)) + free - Spent(size, old(Room(other)), taken))
    {
      hide *;
      Opened(from);
      PoolWithin(size, cb[..], cfreelist, cfreecount, lists, owner, from + 1);
      HoldingSpans(cb[..], size, q[from], lists[from + 1], texts[from]);
      LeastIs(4 * size, |texts[from]|);
      RoomIs(to);
      RoomIs(other);
      ghost var more := texts[from];
      PlaceIs(q[from].cf);
      ghost var end := Room(to);
      var bbuf := QToB(from, 4 * size);
      k := |bbuf|;
      RoomIs(to);
      RoomIs(other);
      ghost var before, free := Room(other), cfreecount;
      var unused := BToQ(noise, other);
      taken := |noise| - unused;
      Opened(to);
      HoldingSpans(cb[..], size, q[to], lists[to + 1], texts[to]);
      PoolCount(size, cb[..], cfreelist, cfreecount, lists, owner);
      RoomIs(to);
      LeastIs(k, Room(to) + cfreecount);
      assert Room(to) + cfreecount == end + free - Spent(size, before, taken);
      lost := BToQ(bbuf, to);
      assert bbuf[..k - lost] == more[..k - lost];
    }

    /**
     One turn of catq of a clist onto itself: the characters go round, and as many are left, so that the loop does not
     end.
     */
    method CatSelfTurn(p: nat) returns (ghost k: nat)
      requires Valid() && p < q.Length == |texts| && texts[p] != []
      modifies this`cfreelist, this`cfreecount, this`lists, this`owner, this`texts, cb, q
      ensures Valid() && k <= |old(texts[p])| && texts == old(texts)[p := old(texts[p])[k..] + old(texts[p])[..k]]
        && q[p].cc > 0
    {
      hide *;
      Opened(p);
      PoolCount(size, cb[..], cfreelist, cfreecount, lists, owner);
      HoldingSpans(cb[..], size, q[p], lists[p + 1], texts[p]);
      PoolWithin(size, cb[..], cfreelist, cfreecount, lists, owner, p + 1);
      LeastIs(4 * size, |texts[p]|);
      ghost var off := q[p].cf.off;
      var bbuf := QToB(p, 4 * size);
      k := |bbuf|;
      Opened(p);
      PoolCount(size, cb[..], cfreelist, cfreecount, lists, owner);
      HoldingSpans(cb[..], size, q[p], lists[p + 1], texts[p]);
      RoomIs(p);
      EnoughFreed(size, off, |bbuf|, texts[p] == []);
      LeastIs(|bbuf|, Room(p) + cfreecount);
      assert bbuf[..k] == bbuf;
      var left := BToQ(bbuf, p);
      Opened(p);
      HoldingSpans(cb[..], size, q[p], lists[p + 1], texts[p]);
    }

    /** With blocks of one character no room is ever left at the end of a clist. */
    lemma RoomOfOne(p: nat)
      requires Valid() && size == 1 && p < q.Length && q.Length == |texts|
      ensures Room(p) == 0 && Place(q[p].cf) == 0
    {
      hide *;
      Opened(p);
      HoldingSpans(cb[..], size, q[p], lists[p + 1], texts[p]);
      RoomIs(p);
      PlaceIs(q[p].cf);
    }

    /** The loop of cinit, over blocks that belong to nothing. */
    static method FreeAll(cb: array<Cblock>, size: nat) returns (head: int, count: int)
      requires Sized(cb[..], size)
      modifies cb
      ensures head == Head(Down(cb.Length)) && count == size * cb.Length && Sized(cb[..], size)
        && Chain(cb[..], Down(cb.Length))
    {
      head, count := -1, 0;
      var cp := 0;
      while cp < cb.Length
        invariant cp <= cb.Length && head == Head(Down(cp)) && count == size * cp && Sized(cb[..], size)
          && Chain(cb[..], Down(cp))
      {
        ghost var was := cb[..];
        cb[cp] := cb[cp].(next := head);
        DownAt(cp);
        ChainSame(was, cb[..], Down(cp), {cp});
        ChainPush(cb[..], Down(cp), cp);
        OneMore(size, cp);
        head := cp;
        count := count + size;
        cp := cp + 1;
      }
    }

    /** cinit: every block goes on the free list, and no clist has any. */
    constructor Cinit(size: nat, n: nat, queues: nat)
      requires 0 < size
      ensures fresh(cb) && fresh(q) && this.size == size && cb.Length == n && q.Length == queues
      ensures Valid() && texts == seq(queues, _ => []) && cfreecount == size * n
    {
      hide Pool, Partition, Holding, Whole, Flat;
      this.size := size;
      cb := new Cblock[n](_ => Cblock(-1, seq(size, _ => 0)));
      q := new Queue[queues](_ => Queue(0, Null, Null));
      cfreelist, cfreecount := -1, 0;
      lists, owner, texts := [Down(n)] + seq(queues, _ => []), seq(n, _ => 0), seq(queues, _ => []);
      new;
      cfreelist, cfreecount := FreeAll(cb, size);
      DownAt(n);
      InitialPool(size, cb[..], n, lists, owner);
      forall p | 0 <= p < q.Length
        ensures Holding(cb[..], size, q[p], lists[p + 1], texts[p])
      {
        NoneHolding(cb[..], size);
      }
    }

  }

  /** All blocks of list `a` go to list `b`, which had none. */
  function Handed(lists: seq<seq<nat>>, a: nat, b: nat): seq<seq<nat>>
    requires a < |lists| && b < |lists|
  {
    lists[b := lists[a]][a := []]
  }

  ghost function Relabelled(owner: seq<nat>, a: nat, b: nat): (r: seq<nat>)
    ensures |r| == |owner| && forall i :: 0 <= i < |owner| ==> r[i] == if owner[i] == a then b else owner[i]
  {
    seq(|owner|, i requires 0 <= i < |owner| => if owner[i] == a then b else owner[i])
  }

  lemma HandedPool(size: nat, cb: seq<Cblock>, head: int, count: int, lists: seq<seq<nat>>, owner: seq<nat>, a: nat,
        b: nat)
    requires Pool(size, cb, head, count, lists, owner) && 0 < a < |lists| && 0 < b < |lists| && a != b && lists[b] == []
    ensures Pool(size, cb, head, count, Handed(lists, a, b), Relabelled(owner, a, b))
  {
    hide Chain;
    var now, owned := Handed(lists, a, b), Relabelled(owner, a, b);
    forall r: nat | r < |lists|
      ensures OnList(now[r], owned, r) && Chain(cb, now[r])
    {
      assert OnList(lists[r], owner, r) && OnList(lists[a], owner, a);
      NoChain(cb);
    }
    forall c: nat | c < |owned|
      ensures owned[c] < |now| && c in now[owned[c]]
    {
      assert c in lists[owner[c]];
    }
  }

  lemma NoChain(cb: seq<Cblock>)
    ensures Chain(cb, [])
  {
  }

  lemma HandedGood(size: nat, s: State, t: State, from: nat, to: nat)
    requires Good(size, s) && from < |s.q| && to < |s.q| && from != to && s.lists[to + 1] == []
      && Holding(s.cb, size, Queue(0, Null, Null), [], [])
    requires t == State(s.cb, s.q[to := s.q[from]][from := Queue(0, Null, Null)], s.head, s.count,
                        Handed(s.lists, from + 1, to + 1), Relabelled(s.owner, from + 1, to + 1),
                          s.texts[to := s.texts[from]][from := []])
    ensures Good(size, t)
  {
    hide Pool, Holding, Relabelled;
    HandedPool(size, s.cb, s.head, s.count, s.lists, s.owner, from + 1, to + 1);
  }

  /** Where in its block a clist starts. */
  function Place(p: Ptr): nat {
    if p.Null? then 0 else p.off
  }

  lemma PlaceIs(p: Ptr)
    ensures Place(p) == if p.Null? then 0 else p.off
  {
  }

  /** The size of the blocks given up when `k` characters are taken, the first at `off`: all, or those used up. */
  function Freed(size: nat, off: nat, k: nat, all: bool): nat {
    if size == 0 then 0 else size * ((off + k + if all then size - 1 else 0) / size)
  }

  /** The size of the blocks it takes to add `k` characters where there is room for `room`. */
  function Spent(size: nat, room: int, k: nat): nat {
    if size == 0 || k <= room then 0 else size * ((k - room + size - 1) / size)
  }

  lemma NoneSpent(size: nat, room: int)
    requires 0 <= room
    ensures Spent(size, room, 0) == 0
  {
  }

  lemma FreedExactly(size: nat, a: nat, b: nat, o: nat, k: nat, p: nat, all: bool)
    requires 0 < size && (all ==> 0 <= size * b - (size * a + o + k) < size)
    requires !all ==> size * b + p == size * a + o + k && p < size
    ensures size * b == size * a + Freed(size, o, k, all)
  {
    var n := o + k + if all then size - 1 else 0;
    var rest := n - (size * b - size * a);
    if b < a {
      MulStep(b, a, size);
    }
    MulMinus(size, a, b);
    DivModUnique(n, size, b - a, rest);
  }

  lemma SpentExactly(size: nat, a: nat, b: nat, room: int, k: nat, rest: int)
    requires 0 < size && k + size * b + rest == room + size * a && 0 <= rest < size && 0 <= room < size
    ensures size * b == size * a - Spent(size, room, k)
  {
    if a < b {
      MulStep(a, b, size);
    }
    MulMinus(size, b, a);
    if k <= room {
      if b < a {
        MulStep(b, a, size);
      }
    } else {
      DivModUnique(k - room + size - 1, size, a - b, size - 1 - rest);
    }
  }

  lemma MulMinus(size: nat, a: int, b: int)
    ensures size * b - size * a == (b - a) * size == size * (b - a)
  {
  }

  /** What q_to_b takes off for one turn of catq frees room for it. */
  lemma EnoughFreed(size: nat, off: nat, k: nat, all: bool)
    requires 0 < size && (!all ==> k == 4 * size)
    ensures Freed(size, off, k, all) >= k
  {
    var n := off + k + if all then size - 1 else 0;
    RoundedDown(size, n);
    if !all {
      assert 4 * size <= n;
    }
  }

  lemma RoundedDown(size: nat, n: nat)
    requires 0 < size
    ensures n - size < size * (n / size) <= n
    ensures 4 * size <= n ==> 4 * size <= size * (n / size)
  {
    var m := n / size;
    DivMod(n, size);
    MulMinus(size, 0, m);
    if m < 4 {
      MulStep(m, 4, size);
    }
  }

  /** Blocks `n - 1` down to 0: the free list as cinit builds it. */
  ghost function Down(n: nat): seq<nat> {
    if n == 0 then [] else [n - 1] + Down(n - 1)
  }

  lemma {:induction false} DownAt(n: nat)
    ensures |Down(n)| == n && forall i :: 0 <= i < n ==> Down(n)[i] == n - 1 - i
  {
    if n > 0 {
      DownAt(n - 1);
    }
  }

  lemma InitialPool(size: nat, cb: seq<Cblock>, n: nat, lists: seq<seq<nat>>, owner: seq<nat>)
    requires Sized(cb, size) && |cb| == |owner| == n && (forall b :: 0 <= b < n ==> owner[b] == 0)
    requires lists != [] && lists[0] == Down(n) && (forall p :: 0 < p < |lists| ==> lists[p] == [])
      && Chain(cb, lists[0])
    ensures Pool(size, cb, Head(Down(n)), size * n, lists, owner)
  {
    DownAt(n);
    forall b: nat | b < n
      ensures b in lists[0]
    {
      assert lists[0][n - 1 - b] == b;
    }
  }

  /** getc never mistakes a character for the end of the clist; unputc does for one of them. */
  lemma EndOrCharacter(c: Byte)
    ensures c as int != -1 && (Signed(c) == -1 <==> c == 255) && ToByte(Signed(c)) == c
  {
  }

  lemma TwoPlaces(l: seq<nat>, i: nat, j: nat)
    requires Distinct(l) && i < j < |l|
    ensures l[i] != l[j]
  {
  }

  lemma LastFreedIs(lists: seq<seq<nat>>, p: nat)
    requires 0 < p < |lists| && lists[p] != []
    ensures |LastFreed(lists, p)| == |lists| && LastFreed(lists, p)[p] == lists[p][..|lists[p]| - 1]
    ensures forall r: nat :: 0 < r < |lists| && r != p ==> LastFreed(lists, p)[r] == lists[r]
  {
  }

  lemma KeepsQueues(s: State, t: State, p: nat)
    requires Keeps(s, t, p)
    ensures |t.q| == |s.q| && forall r :: 0 <= r < |s.q| && r != p ==> t.q[r] == s.q[r]
  {
  }

  lemma KeepsQueue(s: State, m: State, t: State, p: nat)
    requires Keeps(s, m, p) && |t.q| == |m.q| && p < |m.q| && t == m.(q := t.q, texts := t.texts)
      && forall r :: 0 <= r < |m.q| && r != p ==> t.q[r] == m.q[r]
    ensures Keeps(s, t, p)
  {
  }

  lemma NothingAdded(texts: seq<seq<Byte>>, p: nat, buf: seq<Byte>)
    requires p < |texts|
    ensures texts == texts[p := texts[p] + buf[..0]]
  {
    assert texts[p] + buf[..0] == texts[p];
  }

  lemma TailIs(cb: seq<Cblock>, size: nat, cf: Ptr, cl: Ptr, l: seq<nat>, t: seq<Byte>)
    requires l != [] ==> Spans(cb, size, cf, cl, l, t)
    ensures l != [] ==> cl.At? && cl.b == l[|l| - 1] < |cb| && cl.off <= size
  {
  }

  lemma UnchangedCb(cb: seq<Cblock>, now: seq<Cblock>)
    requires now == cb
    ensures SameInfo(cb, now)
  {
  }

  lemma TakenIs(lists: seq<seq<nat>>, p: nat)
    requires 0 < p < |lists| && lists[0] != []
    ensures |Taken(lists, p)| == |lists| && Taken(lists, p)[p] == lists[p] + [lists[0][0]]
    ensures forall r: nat :: 0 < r < |lists| && r != p ==> Taken(lists, p)[r] == lists[r]
  {
  }

  lemma KeepsGrow(s: State, m: State, t: State, p: nat)
    requires Keeps(s, m, p) && Keeps(m, t, p) && forall b :: 0 <= b < |m.owner| && m.owner[b] == p + 1 ==>
      b < |t.owner| && t.owner[b] == p + 1
    ensures Keeps(s, t, p)
  {
  }

  lemma KeepsSame(size: nat, s: State, p: nat)
    requires PoolOf(size, s)
    ensures Keeps(s, s, p)
  {
    hide Partition, Chain;
  }

  lemma SizedIs(cb: seq<Cblock>, size: nat, b: nat)
    requires Sized(cb, size) && b < |cb|
    ensures |cb[b].info| == size
  {
  }

  lemma FilledIn(cb: seq<Cblock>, now: seq<Cblock>, size: nat, b: nat)
    requires Sized(cb, size) && Sized(now, size) && |now| == |cb| && b < |cb| && now[b].next == cb[b].next
    requires forall c :: 0 <= c < |cb| && c != b ==> now[c] == cb[c]
    ensures forall c :: 0 <= c < |cb| ==> now[c].next == cb[c].next && |now[c].info| == size
  {
  }

  lemma StoredKeeps(s: State, m: State, t: State, p: nat, b: nat)
    requires Keeps(s, m, p) && b < |m.cb| && t == m.(cb := t.cb) && |t.cb| == |m.cb| && m.owner[b] == p + 1
    requires forall c :: 0 <= c < |m.cb| && c != b ==> t.cb[c] == m.cb[c]
    ensures Keeps(s, t, p)
  {
  }

  lemma PoolCount(size: nat, cb: seq<Cblock>, head: int, count: int, lists: seq<seq<nat>>, owner: seq<nat>)
    requires Pool(size, cb, head, count, lists, owner)
    ensures count == size * |lists[0]| >= 0
  {
    hide Partition, Chain;
    OneMore(size, |lists[0]|);
  }

  lemma HeadIs(l: seq<nat>)
    ensures (Head(l) == -1 <==> l == []) && (l != [] ==> Head(l) == l[0])
  {
  }

  lemma LastLink(size: nat, cb: seq<Cblock>, head: int, count: int, lists: seq<seq<nat>>, owner: seq<nat>, p: nat)
    requires Pool(size, cb, head, count, lists, owner) && p < |lists| && lists[p] != []
    ensures lists[p][|lists[p]| - 1] < |cb| && cb[lists[p][|lists[p]| - 1]].next == -1
  {
    NextOnChain(size, cb, head, count, lists, owner, p, |lists[p]| - 1);
  }

  /** A free block is not on clist `p`. */
  lemma FreeIsNotTail(size: nat, cb: seq<Cblock>, head: int, count: int, lists: seq<seq<nat>>, owner: seq<nat>, p: nat)
    requires Pool(size, cb, head, count, lists, owner) && 0 < p < |lists| && lists[0] != []
    ensures lists[p] != [] ==> lists[0][0] != lists[p][|lists[p]| - 1]
  {
    assert OnList(lists[p], owner, p) && OnList(lists[0], owner, 0);
  }

  lemma SameInfoMade(cb: seq<Cblock>, now: seq<Cblock>)
    requires |cb| == |now| && forall b :: 0 <= b < |cb| ==> now[b].info == cb[b].info
    ensures SameInfo(cb, now)
  {
  }

  /** The smaller of two counts, of which negative ones are as good as none. */
  function Least(n: int, k: int): nat {
    if n <= 0 || k <= 0 then 0 else if n < k then n else k
  }

  lemma LeastIs(n: int, k: int)
    ensures Least(n, k) == if n <= 0 || k <= 0 then 0 else if n < k then n else k
  {
  }

  lemma SameTexts(texts: seq<seq<Byte>>, p: nat)
    requires p < |texts|
    ensures texts[p][..0] == [] && texts == texts[p := texts[p][0..]]
  {
    assert texts[p][0..] == texts[p];
  }

  /** The block of the first character is the last block exactly when it ends where the clist does. */
  lemma LastBlockEnds(cb: seq<Cblock>, size: nat, head: int, count: int, lists: seq<seq<nat>>, owner: seq<nat>,
        q: Queue, p: nat, t: seq<Byte>)
    requires Pool(size, cb, head, count, lists, owner) && p < |lists| && Holding(cb, size, q, lists[p], t) && t != []
    ensures q.cf.At? && q.cl.At? && (q.cf.b == q.cl.b ==> |t| == q.cl.off - q.cf.off)
    ensures q.cf.b != q.cl.b ==> |t| > size - q.cf.off
  {
    hide Whole, Partition, Chain;
    var l := lists[p];
    PoolWithin(size, cb, head, count, lists, owner, p);
    HoldingSpans(cb, size, q, l, t);
    if |l| == 1 {
      assert l == [l[0]];
      WholeOne(cb, size, l[0], q.cl.off);
    } else {
      WholeRest(cb, size, l, q.cl.off);
      WholeEnd(cb, l[1..], q.cl.off);
    }
  }

  lemma WithinTail(cb: seq<Cblock>, l: seq<nat>)
    requires Within(cb, l) && l != []
    ensures Within(cb, l[1..]) && Within(cb, l[..|l| - 1])
  {
  }

  lemma SameInfoIs(cb: seq<Cblock>)
    ensures SameInfo(cb, cb)
  {
  }

  lemma FreedIs(lists: seq<seq<nat>>, p: nat)
    requires 0 < p < |lists| && lists[p] != []
    ensures |FirstFreed(lists, p)| == |lists| && FirstFreed(lists, p)[p] == lists[p][1..]
    ensures forall r: nat :: 0 < r < |lists| && r != p ==> FirstFreed(lists, p)[r] == lists[r]
    ensures |lists[p]| == 1 ==> lists[p][1..] == []
  {
  }

  lemma KeepsIs(s: State, t: State, p: nat)
    requires SameInfo(s.cb, t.cb) && |t.owner| == |t.cb| && |t.lists| == |s.lists| && |t.q| == |s.q|
    requires forall r: nat :: 0 < r < |s.lists| && r != p + 1 ==> t.lists[r] == s.lists[r]
    requires forall r :: 0 <= r < |s.q| && r != p ==> t.q[r] == s.q[r]
    ensures Keeps(s, t, p)
  {
  }

  lemma EmptyQueue(cb: seq<Cblock>, size: nat, q: Queue, l: seq<nat>, t: seq<Byte>)
    requires Holding(cb, size, q, l, t) && q.cc <= 0
    ensures q == Queue(0, Null, Null) && t == [] && l == []
  {
    hide Whole;
  }

  /** What is freed and spent, and how many characters are moved, in blocks of one character. */
  lemma OneByOne()
    ensures Least(4, 1) == 1 && Freed(1, 0, 1, true) == 1 && Spent(1, 0, 2) == 2 && Spent(1, 0, 1) == 1
    ensures Least(1, 0) == 0 && Least(2, 2) == 2 && Least(1, 3) == 1 && Least(1, 2) == 1
  {
  }

  /**
   A pool of three blocks of one character, and two clists of one character each: while catq moves the character of the
   one to the other two characters come in for a third, and it is lost.
   */
  method CatLoses() returns (c: Clists, lost: nat)
    ensures fresh(c) && c.Valid() && lost == 1 && c.texts == [[], [98], [99, 100]]
  {
    hide *;
    OneByOne();
    c := TwoFilled();
    c.RoomOfOne(0);
    c.RoomOfOne(1);
    c.RoomOfOne(2);
    ghost var k: nat, taken: nat;
    k, lost, taken := c.CatChunkAmid(0, 1, 2, [99, 100]);
    assert [97][1..] == [] && [99, 100][..2] == [99, 100] && [97][..0] == [];
    assert [] + [99, 100] == [99, 100] && [98] + [] == [98];
  }

  method TwoFilled() returns (c: Clists)
    ensures fresh(c) && fresh(c.cb) && fresh(c.q) && c.Valid() && c.size == 1 && c.q.Length == 3
    ensures c.texts == [[97], [98], []] && c.cfreecount == 1
  {
    hide *;
    OneByOne();
    c := new Clists.Cinit(1, 3, 3);
    assert c.texts == [[], [], []];
    c.RoomOfOne(0);
    var left := c.BToQ([97], 0);
    assert [] + [97][..1] == [97];
    assert c.texts == [[97], [], []];
    c.RoomOfOne(1);
    left := c.BToQ([98], 1);
    assert [] + [98][..1] == [98];
    assert c.texts == [[97], [98], []];
  }
}
