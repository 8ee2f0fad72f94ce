/**
 The free map of a cylinder group, seen block by block, and the counts kept beside it.

 A map is a sequence of blocks, each the free bits of its fragments.  Every summary number of a cylinder
 group is a total over the blocks of one measure of a block; what an allocation does to the summaries is then
 a statement about the one block it touches.
 */
module FragMap {
  import opened FragTables

  // ---------------------------------------------------------------------------------------------------
  // One block
  // ---------------------------------------------------------------------------------------------------

  ghost predicate Full(b: seq<bool>) {
    forall i :: 0 <= i < |b| ==> b[i]
  }

  ghost function FreeSet(b: seq<bool>): set<nat> {
    set i: nat | i < |b| && b[i]
  }

  ghost function RunSet(b: seq<bool>, k: int): set<nat> {
    set o: nat | o < |b| && RunAt(b, o, k)
  }

  /** `b` with the `n` bits from `o` on set to `v`. */
  function Fill(b: seq<bool>, o: nat, n: nat, v: bool): (r: seq<bool>)
    requires o + n <= |b|
    ensures |r| == |b|
    ensures forall i :: 0 <= i < |b| ==> r[i] == if o <= i < o + n then v else b[i]
  {
    b[..o] + seq(n, _ => v) + b[o + n..]
  }

  /** The `n` numbers from `o` on. */
  ghost function Interval(o: nat, n: nat): (r: set<nat>)
    ensures forall i :: i in r <==> o <= i < o + n
    ensures |r| == n
  {
    if n == 0 then {} else Interval(o, n - 1) + {o + n - 1}
  }

  /** The two sets have nothing in common. */
  ghost predicate Disjoint(a: set<nat>, b: set<nat>) {
    a !! b
  }

  lemma IntervalSplit(o: nat, k: nat, n: nat)
    requires k <= n
    ensures Interval(o, n) == Interval(o, k) + Interval(o + k, n - k) && Interval(o, k) !! Interval(o + k, n - k)
  {
  }

  lemma DisjointParts<T>(whole: set<T>, a: set<T>, b: set<T>, s: set<T>)
    requires whole == a + b && whole !! s
    ensures a !! s && b !! s
  {
  }

  /** `piece` is taken from `was`, then `given` is put in, and then the part `rest` of the piece is put back. */
  lemma Exchanged<T>(was: set<T>, keep: set<T>, rest: set<T>, piece: set<T>, given: set<T>)
    requires piece == keep + rest && keep !! rest && piece <= was && given !! was
    ensures piece !! (was - piece) + given
    ensures ((was - piece) + given) + rest == (was - keep) + given && keep !! (was - keep) + given && keep <= was
    ensures rest == {} ==> (was - piece) + given == (was - keep) + given
  {
  }

  lemma Swapped<T>(was: set<T>, taken: set<T>, given: set<T>)
    requires taken <= was && given !! was
    ensures (was - taken) + given == (was + given) - taken && was - taken == (was + given) - (given + taken)
    ensures taken <= was + given && given + taken <= was + given && taken !! given
  {
  }

  lemma FullSize(b: seq<bool>)
    ensures |FreeSet(b)| <= |b|
    ensures Full(b) <==> |FreeSet(b)| == |b|
  {
    assert FreeSet(b) <= Interval(0, |b|);
    SubsetSize(FreeSet(b), Interval(0, |b|));
    if Full(b) {
      assert FreeSet(b) == Interval(0, |b|);
    } else {
      var i :| 0 <= i < |b| && !b[i];
      assert i in Interval(0, |b|) && i !in FreeSet(b);
    }
  }

  lemma SubsetSize<T>(a: set<T>, b: set<T>)
    requires a <= b
    ensures |a| <= |b|
    ensures a != b ==> |a| < |b|
  {
    assert |b| == |a| + |b - a| by { assert b == a + (b - a); }
    if a != b {
      assert b - a != {};
    }
  }

  // ---------------------------------------------------------------------------------------------------
  // Measures of a block, and their totals over a map
  // ---------------------------------------------------------------------------------------------------

  datatype Measure =
    | WholeBlocks               // cs_nbfree
    | LooseFrags                // cs_nffree
    | RunsOf(k: nat)            // cg_frsum[k]
    | BlocksIn(s: set<nat>)     // cg_btot[cylinder] and cg_b[cylinder][position]

  ghost function Value(ms: Measure, j: nat, b: seq<bool>): nat {
    match ms
    case WholeBlocks => if Full(b) then 1 else 0
    case LooseFrags => if Full(b) then 0 else |FreeSet(b)|
    case RunsOf(k) => |RunSet(b, k)|
    case BlocksIn(s) => if j in s && Full(b) then 1 else 0
  }

  ghost function Total(ms: Measure, m: seq<seq<bool>>): nat {
    if m == [] then 0 else Total(ms, m[..|m| - 1]) + Value(ms, |m| - 1, m[|m| - 1])
  }

  lemma {:induction false} TotalUpdate(ms: Measure, m: seq<seq<bool>>, j: nat, b: seq<bool>)
    requires j < |m|
    ensures Total(ms, m[j := b]) == Total(ms, m) - Value(ms, j, m[j]) + Value(ms, j, b)
  {
    var n := |m| - 1;
    if j == n {
      assert m[j := b][..n] == m[..n];
    } else {
      assert m[j := b][..n] == m[..n][j := b];
      TotalUpdate(ms, m[..n], j, b);
    }
  }

  lemma {:induction false} TotalAtLeast(ms: Measure, m: seq<seq<bool>>, j: nat)
    requires j < |m|
    ensures Value(ms, j, m[j]) <= Total(ms, m)
  {
    if j < |m| - 1 {
      TotalAtLeast(ms, m[..|m| - 1], j);
    }
  }

  /** A count is positive exactly when some block contributes to it. */
  lemma {:induction false} TotalPositive(ms: Measure, m: seq<seq<bool>>)
    ensures Total(ms, m) > 0 <==> exists j: nat :: j < |m| && Value(ms, j, m[j]) > 0
  {
    if m != [] {
      var n := |m| - 1;
      TotalPositive(ms, m[..n]);
      if Total(ms, m) > 0 && Value(ms, n, m[n]) == 0 {
        var j: nat :| j < n && Value(ms, j, m[..n][j]) > 0;
        assert Value(ms, j, m[j]) > 0;
      }
      if exists j: nat :: j < |m| && Value(ms, j, m[j]) > 0 {
        var j: nat :| j < |m| && Value(ms, j, m[j]) > 0;
        TotalAtLeast(ms, m, j);
      }
    }
  }

  lemma RunsPositive(b: seq<bool>, k: nat)
    ensures |RunSet(b, k)| > 0 <==> HasRun(b, k)
  {
    if HasRun(b, k) {
      var o :| 0 <= o < |b| && RunAt(b, o, k);
      assert o in RunSet(b, k);
    } else {
      assert RunSet(b, k) == {};
    }
  }

  // ---------------------------------------------------------------------------------------------------
  // What taking and returning fragments does to one block
  // ---------------------------------------------------------------------------------------------------

  /** A whole free block holds no shorter run, and neither does a block with nothing free. */
  lemma NoRuns(b: seq<bool>, k: int)
    requires (Full(b) && k < |b|) || FreeSet(b) == {}
    ensures RunSet(b, k) == {}
  {
    forall o | 0 <= o < |b|
      ensures !RunAt(b, o, k)
    {
      assert b[o] ==> o in FreeSet(b);
    }
  }

  lemma RunUnique(b: seq<bool>, o: int, k: int, k': int)
    requires RunAt(b, o, k) && RunAt(b, o, k')
    ensures k == k'
  {
    assert k < k' ==> On(b, o + k);
    assert k' < k ==> On(b, o + k');
  }

  lemma RunsApart(b: seq<bool>, o: int, k: int, p: int, m: int)
    requires RunAt(b, o, k) && RunAt(b, p, m) && p != o
    ensures p + m < o || o + k < p
  {
    assert p < o <= p + m ==> On(b, o - 1);
    assert o < p <= o + k ==> On(b, p - 1);
  }

  lemma RunSurvives(b: seq<bool>, o: nat, k: nat, n: nat, p: int, m: int)
    requires RunAt(b, o, k) && 1 <= n <= k && p != o && RunAt(b, p, m)
    ensures RunAt(Fill(b, o, n, false), p, m) && p != o + n
  {
    RunsApart(b, o, k, p, m);
  }

  lemma RunExisted(b: seq<bool>, o: nat, k: nat, n: nat, p: int, m: int)
    requires RunAt(b, o, k) && 1 <= n <= k && p != o + n && RunAt(Fill(b, o, n, false), p, m)
    ensures RunAt(b, p, m) && p != o
  {
    var b' := Fill(b, o, n, false);
    assert p <= o < p + m ==> On(b', o);
    assert o <= p < o + n ==> On(b', p);
    assert p + m == o ==> On(b', o - 1);
    assert o + n < p <= o + k ==> On(b', p - 1) || p == o + k;
    assert p == o + k ==> On(b', p);
  }

  /** Taking the first `n` fragments of a run of `k` turns it into a run of `k - n` and leaves the others. */
  lemma TakeFromRun(b: seq<bool>, o: nat, k: nat, n: nat, m: nat)
    requires RunAt(b, o, k) && 1 <= n <= k
    ensures var b' := Fill(b, o, n, false);
            RunSet(b', m) == RunSet(b, m) - (if m == k then {o} else {}) + (if m == k - n && m > 0 then {o + n} else {})
  {
    var b' := Fill(b, o, n, false);
    forall p | 0 <= p < |b| && p != o && p != o + n
      ensures RunAt(b', p, m) <==> RunAt(b, p, m)
    {
      if RunAt(b, p, m) {
        RunSurvives(b, o, k, n, p, m);
      } else if RunAt(b', p, m) {
        RunExisted(b, o, k, n, p, m);
      }
    }
    assert !b'[o] && !RunAt(b', o, m);
    assert RunAt(b, o, m) <==> m == k by {
      if RunAt(b, o, m) {
        RunUnique(b, o, k, m);
      }
    }
    assert b[o + n - 1];
    assert !RunAt(b, o + n, m);
    assert RunAt(b', o + n, m) <==> m == k - n && m > 0 by {
      if n < k {
        assert RunAt(b', o + n, k - n);
        if RunAt(b', o + n, m) {
          RunUnique(b', o + n, m, k - n);
        }
      }
    }
  }

  lemma TakeFromRunCount(b: seq<bool>, o: nat, k: nat, n: nat)
    requires RunAt(b, o, k) && 1 <= n <= k
    ensures var b' := Fill(b, o, n, false);
            && |FreeSet(b')| == |FreeSet(b)| - n
            && !Full(b')
            && forall m: nat :: |RunSet(b', m)| == |RunSet(b, m)| - (if m == k then 1 else 0) +
                (if m == k - n && m > 0 then 1 else 0)
  {
    var b' := Fill(b, o, n, false);
    FillCount(b, o, n, false);
    assert !b'[o];
    forall m: nat
      ensures |RunSet(b', m)| == |RunSet(b, m)| - (if m == k then 1 else 0) + (if m == k - n && m > 0 then 1 else 0)
    {
      TakeFromRun(b, o, k, n, m);
      assert o in RunSet(b, k);
      if m == k - n && m > 0 {
        assert b[o + n - 1];
        assert o + n !in RunSet(b, m);
      }
    }
  }

  /** Filling an interval that was all the opposite value. */
  lemma FillCount(b: seq<bool>, o: nat, n: nat, v: bool)
    requires o + n <= |b| && forall i :: o <= i < o + n ==> b[i] == !v
    ensures |FreeSet(Fill(b, o, n, v))| == if v then |FreeSet(b)| + n else |FreeSet(b)| - n
  {
    var b' := Fill(b, o, n, v);
    if v {
      assert FreeSet(b') == FreeSet(b) + Interval(o, n);
      assert FreeSet(b) !! Interval(o, n);
    } else {
      assert FreeSet(b) == FreeSet(b') + Interval(o, n);
      assert FreeSet(b') !! Interval(o, n);
    }
  }

  /** Hacking up a block just taken: the fragments from `n` on become one free run. */
  lemma HackedBlock(b: seq<bool>, n: nat)
    requires FreeSet(b) == {} && 1 <= n < |b|
    ensures var b' := Fill(b, n, |b| - n, true);
            && |FreeSet(b')| == |b| - n
            && !Full(b')
            && forall m: nat :: |RunSet(b', m)| == if m == |b| - n then 1 else 0
  {
    var b' := Fill(b, n, |b| - n, true);
    forall i | 0 <= i < |b|
      ensures !b[i]
    {
      assert i !in FreeSet(b);
    }
    FillCount(b, n, |b| - n, true);
    assert !b'[0];
    forall m: nat
      ensures |RunSet(b', m)| == if m == |b| - n then 1 else 0
    {
      assert RunAt(b', n, |b| - n);
      forall p | 0 <= p < |b| && RunAt(b', p, m)
        ensures p == n && m == |b| - n
      {
        assert b'[p];
        assert p > n ==> On(b', p - 1);
        RunUnique(b', n, m, |b| - n);
      }
      assert RunSet(b', m) == if m == |b| - n then {n} else {};
    }
  }

  // ---------------------------------------------------------------------------------------------------
  // The flat map of the group
  // ---------------------------------------------------------------------------------------------------

  lemma MulStep(i: nat, j: nat, frag: nat)
    requires i < j
    ensures i * frag + frag <= j * frag
    decreases j - i
  {
    assert i * frag + frag == (i + 1) * frag;
    if i + 1 < j {
      MulStep(i + 1, j, frag);
    }
  }

  function BlockOf(bits: seq<bool>, frag: nat, j: nat): (b: seq<bool>)
    requires (j + 1) * frag <= |bits|
    ensures |b| == frag
  {
    assert j * frag + frag == (j + 1) * frag;
    bits[j * frag..j * frag + frag]
  }

  ghost function Blocks(bits: seq<bool>, frag: nat, n: nat): (m: seq<seq<bool>>)
    requires n * frag <= |bits|
    ensures |m| == n
    ensures forall j :: 0 <= j < n ==> |m[j]| == frag
  {
    seq(n, j requires 0 <= j < n => (MulStep(j, n, frag); assert j * frag + frag == (j + 1) * frag;
      BlockOf(bits, frag, j)))
  }

  lemma BlockBit(bits: seq<bool>, frag: nat, n: nat, j: nat, o: nat)
    requires n * frag <= |bits| && j < n && o < frag
    ensures 0 <= j * frag + o < n * frag
    ensures Blocks(bits, frag, n)[j][o] == bits[j * frag + o]
  {
    MulStep(j, n, frag);
  }

  /** Changing bits inside block `j` replaces that block and no other. */
  lemma BlocksFill(bits: seq<bool>, frag: nat, n: nat, j: nat, o: nat, k: nat, v: bool)
    requires n * frag <= |bits| && j < n && o + k <= frag
    ensures j * frag + o + k <= n * frag
    ensures Blocks(Fill(bits, j * frag + o, k, v), frag, n) ==
      Blocks(bits, frag, n)[j := Fill(Blocks(bits, frag, n)[j], o, k, v)]
  {
    MulStep(j, n, frag);
    var bits' := Fill(bits, j * frag + o, k, v);
    var m, m' := Blocks(bits, frag, n), Blocks(bits', frag, n);
    forall i | 0 <= i < n
      ensures m'[i] == m[j := Fill(m[j], o, k, v)][i]
    {
      forall x | 0 <= x < frag
        ensures m'[i][x] == m[j := Fill(m[j], o, k, v)][i][x]
      {
        BlockBit(bits, frag, n, i, x);
        BlockBit(bits', frag, n, i, x);
        if i < j {
          MulStep(i, j, frag);
        } else if j < i {
          MulStep(j, i, frag);
        }
      }
    }
  }

  lemma DivMod(d: nat, frag: nat)
    requires frag > 0
    ensures d == (d / frag) * frag + d % frag && 0 <= d % frag < frag
  {
  }

  lemma DivModUnique(d: nat, frag: nat, j: nat, o: nat)
    requires d == j * frag + o && o < frag
    ensures d / frag == j && d % frag == o
  {
    DivMod(d, frag);
    var q := d / frag;
    if q < j {
      MulStep(q, j, frag);
    } else if j < q {
      MulStep(j, q, frag);
    }
  }

  // ---------------------------------------------------------------------------------------------------
  // Accounting for the runs of a block
  // ---------------------------------------------------------------------------------------------------

  ghost function RunsBelow(b: seq<bool>, k: int, end: int): set<nat> {
    set o: nat | o < |b| && o < end && RunAt(b, o, k)
  }

  /** No run of the same length starts inside a run or just after it. */
  lemma RunsSkip(b: seq<bool>, k: int, o: int)
    requires RunAt(b, o, k)
    ensures RunsBelow(b, k, o + k + 1) == RunsBelow(b, k, o) + {o}
    ensures |RunsBelow(b, k, o + k + 1)| == |RunsBelow(b, k, o)| + 1
  {
    forall p | o < p < o + k + 1 && p < |b|
      ensures !RunAt(b, p, k)
    {
      assert On(b, p - 1);
    }
    assert RunsBelow(b, k, o + k + 1) == RunsBelow(b, k, o) + {o};
  }

  lemma RunsStep(b: seq<bool>, k: int, o: int)
    requires !RunAt(b, o, k)
    ensures RunsBelow(b, k, o + 1) == RunsBelow(b, k, o)
  {
  }

  lemma RunsAll(b: seq<bool>, k: int, end: int)
    requires end > |b| - k
    ensures RunsBelow(b, k, end) == RunSet(b, k)
  {
  }

  lemma RunsNone(b: seq<bool>, k: int)
    ensures |RunsBelow(b, k, 0)| == 0
  {
    assert RunsBelow(b, k, 0) == {};
  }

  /** fragacct: add `cnt` to the frag list for every run of the block that is shorter than the block. */
  method FragAcct(frag: nat, b: Block, fraglist: array<int>, cnt: int)
    requires ValidFrag(frag) && |b| == frag && fraglist.Length >= frag
    modifies fraglist
    ensures forall k :: 1 <= k < frag ==> fraglist[k] == old(fraglist[k]) + cnt * |RunSet(b, k)|
    ensures forall k :: 0 <= k < fraglist.Length && !(1 <= k < frag) ==> fraglist[k] == old(fraglist[k])
  {
    hide Pack, Shl, FragTbl8, FragTbl124, RunAt, HasRun, RunSet;
    var fragmap := Pack(b);
    var inblk := FragTbl(frag, fragmap) << 1;
    var siz := 1;
    while siz < frag
      invariant 1 <= siz <= frag
      invariant forall k :: 1 <= k < siz ==> fraglist[k] == old(fraglist[k]) + cnt * |RunSet(b, k)|
      invariant forall k :: 0 <= k < fraglist.Length && !(1 <= k < siz) ==> fraglist[k] == old(fraglist[k])
    {
      BlockTestIsRun(frag, b, siz);
      ShiftedGuard(FragTbl(frag, fragmap), siz - 1 + frag % 8);
      RunsPositive(b, siz);
      if inblk & Shl(1, siz + frag % 8) != 0 {
        AcctLength(frag, b, fraglist, cnt, siz);
      }
      siz := siz + 1;
    }
  }

  /** The inner loop of fragacct, for one run length. */
  method AcctLength(frag: nat, b: Block, fraglist: array<int>, cnt: int, siz: nat)
    requires ValidFrag(frag) && |b| == frag && fraglist.Length >= frag && 1 <= siz < frag
    modifies fraglist
    ensures fraglist[siz] == old(fraglist[siz]) + cnt * |RunSet(b, siz)|
    ensures forall k :: 0 <= k < fraglist.Length && k != siz ==> fraglist[k] == old(fraglist[k])
  {
    hide Pack, Shl, Around, Inside, Match, RunAt, RunSet, RunsBelow;
    var fragmap := Pack(b);
    var field, subfield := Around(siz), Inside(siz);
    assert field == Shl(Around(siz), 0) && subfield == Shl(Inside(siz), 0) by {
      ShlZero(field);
      ShlZero(subfield);
    }
    RunsNone(b, siz);
    ghost var seen := 0;
    var pos := siz;
    while pos <= frag
      invariant siz <= pos
      invariant pos <= frag ==> field == Shl(Around(siz), pos - siz) && subfield == Shl(Inside(siz), pos - siz)
      invariant seen == |RunsBelow(b, siz, pos - siz)|
      invariant fraglist[siz] == old(fraglist[siz]) + cnt * seen
      invariant forall k :: 0 <= k < fraglist.Length && k != siz ==> fraglist[k] == old(fraglist[k])
      decreases frag - pos
    {
      HitIsRun(b, siz, pos - siz);
      if Match(fragmap, field, subfield) {
        RunsSkip(b, siz, pos - siz);
        seen := seen + 1;
        fraglist[siz] := fraglist[siz] + cnt;
        ShlSkip(Around(siz), pos - siz, siz, frag);
        ShlSkip(Inside(siz), pos - siz, siz, frag);
        pos := pos + siz;
        field := Shl(field, siz);
        subfield := Shl(subfield, siz);
      } else {
        RunsStep(b, siz, pos - siz);
        if pos < frag {
          ShlAdd(Around(siz), pos - siz, 1);
          ShlAdd(Inside(siz), pos - siz, 1);
        }
      }
      pos := pos + 1;
      field := Shl(field, 1);
      subfield := Shl(subfield, 1);
    }
    RunsAll(b, siz, pos - siz);
  }

  lemma ShlZero(x: bv10)
    ensures Shl(x, 0) == x
  {
  }

  /** After a match the masks move past the run and the clear bit behind it, if that still fits the block. */
  lemma ShlSkip(x: bv10, off: nat, siz: nat, frag: nat)
    requires frag <= 8 && off + siz <= frag && 1 <= siz
    ensures off + siz + siz + 1 <= frag ==> Shl(Shl(Shl(x, off), siz), 1) == Shl(x, off + siz + 1)
  {
    if off + siz + siz + 1 <= frag {
      ShlAdd(x, off, siz);
      ShlAdd(x, off + siz, 1);
    }
  }
}
