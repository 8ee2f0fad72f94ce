/**
 The queue of a disk: requests sorted so that the arm sweeps one way, in an ascending run from where it is and another
 for the sweep after.
 */
module Disksort {
  import opened Seqs

  /**
   Where the ascending run that starts at the front ends: at the first request on a lower cylinder than the one
   before.
   */
  function Turn(c: seq<int>, i: nat): (k: nat)
    requires i <= |c|
    ensures i <= k <= |c|
    ensures forall j :: i <= j < k && 0 < j ==> c[j - 1] <= c[j]
    ensures k < |c| ==> 0 < k && c[k] < c[k - 1]
    decreases |c| - i
  {
    if i == |c| || (0 < i && c[i] < c[i - 1]) then i else Turn(c, i + 1)
  }

  /** The first place from `i` on, and before `hi`, with a cylinder above `x`; or `hi`. */
  function Above(c: seq<int>, i: nat, hi: nat, x: int): (k: nat)
    requires i <= hi <= |c|
    ensures i <= k <= hi
    ensures forall j :: i <= j < k ==> c[j] <= x
    ensures k < hi ==> x < c[k]
    decreases hi - i
  {
    if i == hi || x < c[i] then i else Above(c, i + 1, hi, x)
  }

  /** The first place, from `i` on, with a cylinder above `x` in the run that `i` is in; or where that run ends. */
  function InRun(c: seq<int>, i: nat, x: int): (k: nat)
    requires i <= |c|
    ensures i <= k <= |c|
  {
    Above(c, i, Turn(c, i), x)
  }

  /** Where a request for cylinder `x` goes: into the first run if the arm is not past it yet, else into the second. */
  function Spot(c: seq<int>, x: int): (i: nat)
    ensures i <= |c|
  {
    if c == [] then 0
    else if c[0] <= x then InRun(c, 1, x)
    else Above(c, Turn(c, 1), |c|, x)
  }

  ghost predicate Ascending(c: seq<int>, i: int, j: int) {
    forall a, b :: 0 <= i <= a < b < j <= |c| ==> c[a] <= c[b]
  }

  /** Two ascending runs, the second, from `k` on, all of it below the front of the first. */
  ghost predicate TwoRuns(c: seq<int>, k: nat) {
    && k <= |c| && (c != [] ==> 0 < k) && Ascending(c, 0, k) && Ascending(c, k, |c|)
    && forall j :: k <= j < |c| ==> c[j] < c[0]
  }

  lemma TurnIs(c: seq<int>, k: nat)
    requires TwoRuns(c, k) && c != []
    ensures Turn(c, 1) == k
  {
    var t, last, next := Turn(c, 1), c[k - 1], if k < |c| then c[k] else 0;
  }

  lemma InsertedAt(c: seq<int>, i: nat, x: int, j: nat)
    requires i <= |c| && j <= |c|
    ensures Inserted(c, i, x)[j] == if j < i then c[j] else if j == i then x else c[j - 1]
  {
  }

  /** A run with one more in its place, and one before or behind the place. */
  lemma LongerRun(c: seq<int>, lo: nat, hi: nat, i: nat, x: int)
    requires Ascending(c, lo, hi) && lo <= i <= hi <= |c| && (forall j :: lo <= j < i ==> c[j] <= x)
      && (i < hi ==> x < c[i])
    ensures Ascending(Inserted(c, i, x), lo, hi + 1)
  {
    var d := Inserted(c, i, x);
    forall a, b | lo <= a < b < hi + 1
      ensures d[a] <= d[b]
    {
      InsertedAt(c, i, x, a);
      InsertedAt(c, i, x, b);
      assert i < b ==> c[i] <= c[b - 1];
    }
  }

  lemma SameRun(c: seq<int>, lo: nat, hi: nat, i: nat, x: int)
    requires Ascending(c, lo, hi) && hi <= |c| && i <= |c|
    ensures hi <= i ==> Ascending(Inserted(c, i, x), lo, hi)
    ensures i <= lo ==> Ascending(Inserted(c, i, x), lo + 1, hi + 1)
  {
    var d := Inserted(c, i, x);
    if i <= lo {
      forall a, b | lo + 1 <= a < b < hi + 1
        ensures d[a] <= d[b]
      {
        InsertedAt(c, i, x, a);
        InsertedAt(c, i, x, b);
      }
    }
  }

  /** A request put in its place leaves two runs: one of them is longer. */
  lemma InsertKeepsRuns(c: seq<int>, k: nat, x: int)
    requires TwoRuns(c, k)
    ensures TwoRuns(Inserted(c, Spot(c, x), x), if c == [] || c[0] <= x then k + 1 else k)
    ensures forall j :: 0 <= j < |c| && c[j] == x ==> j < Spot(c, x)
    ensures c != [] ==> 0 < Spot(c, x)
  {
    if c != [] {
      TurnIs(c, k);
      hide Ascending, Turn, Above, Inserted;
      var i := Spot(c, x);
      var d := Inserted(c, i, x);
      InsertedAt(c, i, x, 0);
      if c[0] <= x {
        LongerRun(c, 0, k, i, x);
        SameRun(c, k, |c|, i, x);
      } else {
        LongerRun(c, k, |c|, i, x);
        SameRun(c, 0, k, i, x);
      }
      forall j | (if c[0] <= x then k + 1 else k) <= j < |d|
        ensures d[j] < d[0]
      {
        InsertedAt(c, i, x, j);
      }
    } else {
      assert Inserted(c, 0, x) == [x];
    }
  }

  /**
   The driver is done with the first request: there are two runs still, and if the first is used up the second takes
   its place.
   */
  lemma RemoveKeepsRuns(c: seq<int>, k: nat)
    requires TwoRuns(c, k) && c != []
    ensures TwoRuns(c[1..], if k == 1 then |c| - 1 else k - 1)
    ensures |c| > 1 ==> (c[1] < c[0] <==> k == 1)
  {
  }

  /** A request: its cylinder, and when it came. */
  datatype Req = Req(cylin: int, serial: nat)

  function Cyls(q: seq<Req>): (c: seq<int>)
    ensures |c| == |q| && forall i :: 0 <= i < |q| ==> c[i] == q[i].cylin
  {
    seq(|q|, i requires 0 <= i < |q| => q[i].cylin)
  }

  datatype Event = Arrive(cylin: int) | Done

  /** The queue, and how many requests have come. */
  datatype State = State(q: seq<Req>, came: nat)

  function Step(s: State, e: Event): State {
    match e
    case Arrive(x) => State(Inserted(s.q, Spot(Cyls(s.q), x), Req(x, s.came)), s.came + 1)
    case Done => if s.q == [] then s else s.(q := s.q[1..])
  }

  /** Requests that come for one cylinder stand in the order they came. */
  ghost predicate InOrder(q: seq<Req>, came: nat) {
    && (forall i :: 0 <= i < |q| ==> q[i].serial < came)
    && forall i, j :: 0 <= i < j < |q| ==>
        q[i].serial != q[j].serial && (q[i].cylin == q[j].cylin ==> q[i].serial < q[j].serial)
  }

  /**
   At every point of every run: two ascending runs, the second below the front; and requests for one cylinder in the
   order they came.
   */
  ghost predicate Inv(s: State) {
    && (exists k :: TwoRuns(Cyls(s.q), k))
    && InOrder(s.q, s.came)
  }

  lemma CylsInserted(q: seq<Req>, i: nat, r: Req)
    requires i <= |q|
    ensures Cyls(Inserted(q, i, r)) == Inserted(Cyls(q), i, r.cylin)
  {
  }

  lemma InsertKeepsOrder(q: seq<Req>, came: nat, i: nat, x: int)
    requires InOrder(q, came) && i <= |q|
    requires forall j :: 0 <= j < |q| && q[j].cylin == x ==> j < i
    ensures InOrder(Inserted(q, i, Req(x, came)), came + 1)
  {
    var d := Inserted(q, i, Req(x, came));
    forall a, b | 0 <= a < b < |d|
      ensures d[a].serial != d[b].serial && (d[a].cylin == d[b].cylin ==> d[a].serial < d[b].serial)
    {
      assert d[a] == if a < i then q[a] else if a == i then Req(x, came) else q[a - 1];
      assert d[b] == if b < i then q[b] else if b == i then Req(x, came) else q[b - 1];
    }
  }

  lemma ArriveKeepsInv(s: State, x: int)
    requires Inv(s)
    ensures Inv(Step(s, Arrive(x)))
  {
    hide TwoRuns, Spot, Cyls, InOrder, Inserted;
    var c := Cyls(s.q);
    var k: nat :| TwoRuns(c, k);
    InsertKeepsRuns(c, k, x);
    CylsInserted(s.q, Spot(c, x), Req(x, s.came));
    InsertKeepsOrder(s.q, s.came, Spot(c, x), x);
  }

  lemma DoneKeepsInv(s: State)
    requires Inv(s)
    ensures Inv(Step(s, Done))
  {
    if s.q != [] {
      var k: nat :| TwoRuns(Cyls(s.q), k);
      RemoveKeepsRuns(Cyls(s.q), k);
      assert Cyls(s.q[1..]) == Cyls(s.q)[1..];
    }
  }

  lemma StepKeepsInv(s: State, e: Event)
    requires Inv(s)
    ensures Inv(Step(s, e))
  {
    match e
    case Arrive(x) => ArriveKeepsInv(s, x);
    case Done => DoneKeepsInv(s);
  }

  /** How often the arm moves down, in a run, before request `x` is served. */
  function Downs(s: State, es: seq<Event>, x: Req): nat
    decreases |es|
  {
    if es == [] || x !in s.q then 0
    else
      var down := if es[0] == Done && |s.q| > 1 && s.q[0] != x && s.q[1].cylin < s.q[0].cylin then 1 else 0;
      down + Downs(Step(s, es[0]), es[1..], x)
  }

  lemma InFront(s: State, i: nat)
    requires Inv(s) && i < |s.q|
    ensures i > 0 ==> s.q[0] != s.q[i] && s.q[i] in s.q[1..] && s.q[1..][i - 1] == s.q[i]
    ensures i == 0 ==> s.q[0] !in s.q[1..]
  {
  }

  /** Where the first run ends once one more is in its place. */
  lemma InsertTurns(c: seq<int>, k: nat, y: int, i: nat)
    requires TwoRuns(c, k) && i < |c|
    ensures k == Turn(c, 1) && |Inserted(c, Spot(c, y), y)| == |c| + 1
    ensures i < k <==> (if i < Spot(c, y) then i else i + 1) < Turn(Inserted(c, Spot(c, y), y), 1)
  {
    hide TwoRuns, Turn, Spot;
    TurnIs(c, k);
    InsertKeepsRuns(c, k, y);
    SpotSide(c, k, y);
    TurnIs(Inserted(c, Spot(c, y), y), if c[0] <= y then k + 1 else k);
  }

  /** What an arrival does to the place of a request, and to where the first run ends. */
  lemma ArriveTurns(s: State, y: int, i: nat)
    requires Inv(s) && i < |s.q|
    ensures
      var k, t, p := Turn(Cyls(s.q), 1), Step(s, Arrive(y)), Spot(Cyls(s.q), y);
      var j := if i < p then i else i + 1;
      j < |t.q| && t.q[j] == s.q[i] && (i < k <==> j < Turn(Cyls(t.q), 1))
  {
    hide TwoRuns, Turn, Spot, InOrder, Cyls;
    var k: nat :| TwoRuns(Cyls(s.q), k);
    InsertTurns(Cyls(s.q), k, y, i);
    CylsInserted(s.q, Spot(Cyls(s.q), y), Req(y, s.came));
  }

  /** What the end of the first request does: the arm moves down exactly when the first run is used up. */
  lemma DoneTurns(s: State, i: nat)
    requires Inv(s) && 0 < i < |s.q|
    ensures
      var k, t := Turn(Cyls(s.q), 1), Step(s, Done);
      && |t.q| == |s.q| - 1 && t.q[i - 1] == s.q[i] && s.q[0] != s.q[i]
      && (s.q[1].cylin < s.q[0].cylin <==> k == 1)
      && (if k == 1 then i - 1 < Turn(Cyls(t.q), 1) else (i < k <==> i - 1 < Turn(Cyls(t.q), 1)))
  {
    hide Ascending, Turn;
    var c := Cyls(s.q);
    var k: nat :| TwoRuns(c, k);
    TurnIs(c, k);
    RemoveKeepsRuns(c, k);
    assert Cyls(s.q[1..]) == c[1..];
    hide TwoRuns;
    TurnIs(c[1..], if k == 1 then |c| - 1 else k - 1);
    InFront(s, i);
  }

  /**
   Whatever else comes, a request in the first run is served before the arm moves down, and any other after it has
   once.
   */
  lemma {:induction false} ServedWithinOneTurn(s: State, es: seq<Event>, x: Req, i: nat)
    requires Inv(s) && i < |s.q| && s.q[i] == x
    ensures Downs(s, es, x) <= if i < Turn(Cyls(s.q), 1) then 0 else 1
    decreases |es|
  {
    hide Inv, Turn, Spot, Inserted, Cyls, Step, Downs;
    DownsIs(s, es, x);
    if es != [] {
      StepKeepsInv(s, es[0]);
      InFront(s, i);
      match es[0] {
        case Arrive(y) =>
          ArriveTurns(s, y, i);
          ServedWithinOneTurn(Step(s, es[0]), es[1..], x, if i < Spot(Cyls(s.q), y) then i else i + 1);
        case Done =>
          if i > 0 {
            DoneTurns(s, i);
            ServedWithinOneTurn(Step(s, es[0]), es[1..], x, i - 1);
          } else {
            DownsIs(Step(s, Done), es[1..], x);
            ServedNow(s);
          }
      }
    }
  }

  lemma DownsIs(s: State, es: seq<Event>, x: Req)
    ensures es == [] || x !in s.q ==> Downs(s, es, x) == 0
    ensures es != [] && x in s.q ==>
      Downs(s, es, x) == (if es[0] == Done && |s.q| > 1 && s.q[0] != x && s.q[1].cylin < s.q[0].cylin then 1 else 0) +
        Downs(Step(s, es[0]), es[1..], x)
  {
  }

  lemma ServedNow(s: State)
    requires s.q != []
    ensures Step(s, Done).q == s.q[1..]
  {
  }

  lemma SpotSide(c: seq<int>, k: nat, x: int)
    requires c != [] && Turn(c, 1) == k
    ensures if c[0] <= x then Spot(c, x) <= k else k <= Spot(c, x)
  {
  }

  /** struct buf, as far as the queue goes. */
  class Buf {
    const cylin: int          // b_cylin
    var forw: Buf?            // av_forw

    constructor (cylin: int)
      ensures this.cylin == cylin
    {
      this.cylin := cylin;
    }
  }

  function Cylinders(q: seq<Buf>): (c: seq<int>)
    ensures |c| == |q| && forall i :: 0 <= i < |q| ==> c[i] == q[i].cylin
  {
    seq(|q|, i requires 0 <= i < |q| => q[i].cylin)
  }

  lemma CylindersInserted(q: seq<Buf>, i: nat, b: Buf)
    requires i <= |q|
    ensures Cylinders(Inserted(q, i, b)) == Inserted(Cylinders(q), i, b.cylin)
  {
  }

  /** Each request leads to the next, the last to none. */
  ghost predicate Linked(q: seq<Buf>)
    reads q
  {
    forall i :: 0 <= i < |q| ==> Follows(q, i)
  }

  predicate Follows(q: seq<Buf>, i: nat)
    requires i < |q|
    reads q
  {
    q[i].forw == if i + 1 < |q| then q[i + 1] else null
  }

  lemma LinkAt(q: seq<Buf>, i: nat)
    requires Linked(q) && i < |q|
    ensures q[i].forw == if i + 1 < |q| then q[i + 1] else null
  {
    assert Follows(q, i);
  }

  class Queue {
    var actf: Buf?            // b_actf
    var actl: Buf?            // b_actl
    ghost var q: seq<Buf>

    constructor ()
      ensures Valid() && q == []
    {
      actf, actl, q := null, null, [];
      new;
      assert TwoRuns(Cylinders(q), 0);
    }

    /** The chain is the queue, in two runs, and while it is not empty b_actl is its end. */
    ghost predicate Valid()
      reads this, q
    {
      && Linked(q) && Distinct(q) && actf == (if q == [] then null else q[0]) && (q != [] ==> actl == q[|q| - 1])
      && exists k :: TwoRuns(Cylinders(q), k)
    }

    /** The first search: to where the first run ends. */
    method ToTurn() returns (ap: Buf, ghost i: nat)
      requires Linked(q) && q != [] && actf == q[0]
      ensures i < |q| && ap == q[i] && i + 1 == Turn(Cylinders(q), 1)
    {
      hide Turn, Linked;
      ghost var c := Cylinders(q);
      ap, i := actf, 0;
      LinkAt(q, 0);
      while ap.forw != null && !(ap.forw.cylin < ap.cylin)
        invariant i < |q| && ap == q[i] && ap.forw == (if i + 1 < |q| then q[i + 1] else null)
        invariant Turn(c, 1) == Turn(c, i + 1)
        decreases |q| - i
      {
        TurnFrom(c, i + 1);
        LinkAt(q, i + 1);
        ap := ap.forw;
        i := i + 1;
      }
      TurnFrom(c, i + 1);
    }

    /** The search in the second run, from where the first ends. */
    method InSecond(cylin: int, from: Buf, ghost k: nat) returns (ap: Buf, ghost i: nat)
      requires Linked(q) && k < |q| && from == q[k]
      ensures i < |q| && ap == q[i] && i + 1 == Above(Cylinders(q), k + 1, |q|, cylin)
    {
      hide Above, Linked;
      ghost var c := Cylinders(q);
      ap, i := from, k;
      LinkAt(q, k);
      while ap.forw != null && !(cylin < ap.forw.cylin)
        invariant i < |q| && ap == q[i] && ap.forw == (if i + 1 < |q| then q[i + 1] else null)
        invariant Above(c, k + 1, |c|, cylin) == Above(c, i + 1, |c|, cylin)
        decreases |q| - i
      {
        AboveFrom(c, i + 1, |c|, cylin);
        LinkAt(q, i + 1);
        ap := ap.forw;
        i := i + 1;
      }
      AboveFrom(c, i + 1, |c|, cylin);
    }

    /** The search in the first run. */
    method InFirst(cylin: int) returns (ap: Buf, ghost i: nat)
      requires Linked(q) && q != [] && actf == q[0]
      ensures i < |q| && ap == q[i] && i + 1 == InRun(Cylinders(q), 1, cylin)
    {
      hide InRun, Linked;
      ghost var c := Cylinders(q);
      ap, i := actf, 0;
      LinkAt(q, 0);
      while ap.forw != null && !(ap.forw.cylin < ap.cylin || cylin < ap.forw.cylin)
        invariant i < |q| && ap == q[i] && ap.forw == (if i + 1 < |q| then q[i + 1] else null)
        invariant InRun(c, 1, cylin) == InRun(c, i + 1, cylin)
        decreases |q| - i
      {
        FirstFrom(c, i + 1, cylin);
        LinkAt(q, i + 1);
        ap := ap.forw;
        i := i + 1;
      }
      FirstFrom(c, i + 1, cylin);
    }

    /** The searches of disksort, in a queue that is not empty: the request that the new one goes behind. */
    method Behind(cylin: int) returns (ap: Buf, ghost i: nat)
      requires Valid() && q != []
      ensures i < |q| && ap == q[i] && i + 1 == Spot(Cylinders(q), cylin)
    {
      hide Turn, Above, InRun, Linked, Spot;
      SpotIs(Cylinders(q), cylin);
      if cylin < actf.cylin {
        ap, i := ToTurn();
        ap, i := InSecond(cylin, ap, i);
      } else {
        ap, i := InFirst(cylin);
      }
    }

    /** disksort: the request goes in its place, which is never before the one the disk is on. */
    method Disksort(bp: Buf)
      requires Valid() && bp !in q
      modifies this, q, bp
      ensures Valid() && q == Inserted(old(q), Spot(Cylinders(old(q)), bp.cylin), bp)
    {
      hide TwoRuns, Spot, Linked;
      ghost var c, was := Cylinders(q), q;
      ghost var k: nat :| TwoRuns(c, k);
      InsertKeepsRuns(c, k, bp.cylin);
      CylindersInserted(q, Spot(c, bp.cylin), bp);
      if actf == null {
        actf, actl := bp, bp;
        bp.forw := null;
        q := [bp];
        First(was, bp);
      } else {
        var ap;
        ghost var i: nat;
        ap, i := Behind(bp.cylin);
        Put(ap, bp, i);
      }
    }

    /** The last lines of disksort. */
    method Put(ap: Buf, bp: Buf, ghost i: nat)
      requires Linked(q) && Distinct(q) && i < |q| && ap == q[i] && bp !in q && actl == q[|q| - 1]
      modifies this`actl, this`q, ap, bp
      ensures q == Inserted(old(q), i + 1, bp) && Linked(q) && Distinct(q) && q[0] == old(q)[0] && actl == q[|q| - 1]
    {
      ghost var was := q;
      LinkAt(was, i);
      bp.forw := ap.forw;
      ap.forw := bp;
      if ap == actl {
        actl := bp;
      }
      q := Inserted(was, i + 1, bp);
      forall j | 0 <= j < |q|
        ensures Follows(q, j)
      {
        if j < i {
          assert old(Follows(was, j));
        } else if j > i + 1 {
          assert old(Follows(was, j - 1));
        }
      }
    }

    /** What a driver does when the disk is done with the first request. */
    method Done()
      requires Valid() && q != []
      modifies this`actf, this`q
      ensures Valid() && q == old(q)[1..]
    {
      ghost var was := q;
      ghost var k: nat :| TwoRuns(Cylinders(q), k);
      RemoveKeepsRuns(Cylinders(q), k);
      LinkAt(q, 0);
      actf := actf.forw;
      q := q[1..];
      assert Cylinders(q) == Cylinders(was)[1..];
      forall j | 0 <= j < |q|
        ensures Follows(q, j)
      {
        assert Follows(was, j + 1);
      }
    }
  }

  lemma First(was: seq<Buf>, b: Buf)
    requires was == [] && b.forw == null
    ensures Spot(Cylinders(was), b.cylin) == 0 && Inserted(was, 0, b) == [b] && Linked([b])
  {
  }

  lemma SpotIs(c: seq<int>, x: int)
    requires c != []
    ensures Spot(c, x) == if c[0] <= x then InRun(c, 1, x) else Above(c, Turn(c, 1), |c|, x)
  {
  }

  lemma TurnFrom(c: seq<int>, i: nat)
    requires 0 < i <= |c|
    ensures Turn(c, i) == if i == |c| || c[i] < c[i - 1] then i else Turn(c, i + 1)
  {
  }

  lemma FirstFrom(c: seq<int>, i: nat, x: int)
    requires 0 < i <= |c|
    ensures InRun(c, i, x) == if i == |c| || c[i] < c[i - 1] || x < c[i] then i else InRun(c, i + 1, x)
  {
    TurnFrom(c, i);
    AboveFrom(c, i, Turn(c, i), x);
  }

  lemma AboveFrom(c: seq<int>, i: nat, hi: nat, x: int)
    requires i <= hi <= |c|
    ensures Above(c, i, hi, x) == if i == hi || x < c[i] then i else Above(c, i + 1, hi, x)
  {
  }
}
