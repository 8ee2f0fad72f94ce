/**
 A run in which two buffers are of one block.
 */
module BufferRace {
  import opened Seqs
  import opened BufferState
  import opened BufferSteps
  import opened BufferRuns

  /** A cache of two buffers, whose chains but those of block 0 and of no block are empty. */
  function Two(x: Buf, y: Buf, age: seq<nat>, zero: seq<nat>, none: seq<nat>, short: bool, uses: map<nat, Use>): State {
    State([x, y], [], age, seq(BUFHSZ + 1, h => if h == 0 then zero else if h == BUFHSZ then none else []), short, {},
      uses, map[], map[])
  }

  const ZERO := Blk(0, 0)
  const EMPTY := NONE.(busy := true, sized := true)
  const FIRST := Buf(ZERO, true, true, false, false, false, false, false, false, [])
  const SECOND := Buf(ZERO, false, true, false, false, false, false, false, false, [])

  /** The only free buffer is taken for block 0, for which there is, on its chain, at most a busy one. */
  lemma TwoRenewed(x: Buf, y: Buf, b: nat, zero: seq<nat>, none: seq<nat>, uses: map<nat, Use>, a: nat)
    requires b < 2 && Distinct(none) && b in none && !(if b == 0 then x else y).delwri
      && (if b == 0 then x else y).key == NoDev && (if b == 0 then x else y).data == []
    requires zero == [] || (zero == [1 - b] && Same(if b == 0 then y else x, ZERO) && (if b == 0 then y else x).busy)
    ensures
      var s := Two(x, y, [b], zero, none, false, uses);
      var z := if b == 0 then y else x;
      var mine, others := if zero == [] then FIRST else SECOND, if zero == [] then z else z.(wanted := true);
      Renewed(s, a, ZERO) == Two(if b == 0 then mine else others, if b == 0 then others
        else mine, [], [b] + zero, Without(none, b), false,
        uses[a := if zero == [] then Hold(ZERO, b) else WaitClaim(ZERO, b, 1 - b)])
  {
    var s := Two(x, y, [b], zero, none, false, uses);
    var t := Taken(s, b);
    assert t.age == [];
    RenewedIs(s, a, ZERO);
    var u := Bound(t, b, ZERO);
    assert u.chain[0] == [b] + zero;
    assert u.chain == seq(BUFHSZ + 1, h => if h == 0 then [b] + zero else if h == BUFHSZ then Without(none, b) else []);
    hide Taken, Bound, Renewed;
    assert Claimed(u, a, ZERO, b) == Scanned(u, a, ZERO, b, 0) == Scanned(u, a, ZERO, b, 1);
  }

  /** geteblk takes the first free buffer, one of no block. */
  lemma TwoEmptied(x: Buf, y: Buf, age: seq<nat>, none: seq<nat>, uses: map<nat, Use>, a: nat)
    requires age != [] && age[0] < 2 && (if age[0] == 0 then x else y) == NONE && (none == [0, 1] || none == [1, 0])
    ensures
      var b := age[0];
      Renewed(Two(x, y, age, [], none, false, uses), a, NoDev) ==
        Two(if b == 0 then EMPTY else x, if b == 0 then y
          else EMPTY, age[1..], [], [b, 1 - b], false, uses[a := Hold(NoDev, b)])
  {
    var b := age[0];
    var s := Two(x, y, age, [], none, false, uses);
    var t := Taken(s, b);
    RenewedIs(s, a, NoDev);
    var u := Bound(t, b, NoDev);
    BoundNone(t, b, none);
    assert t.lru == [] && t.age == age[1..];
    assert Renewed(s, a, NoDev) == Claimed(u, a, NoDev, b) == Given(Sized(u, b), a, Hold(NoDev, b));
    assert Sized(u, b).buf == Two(if b == 0 then EMPTY else x, if b == 0 then y
      else EMPTY, age[1..], [], [b, 1 - b], false, uses).buf;
  }

  lemma BoundNone(s: State, b: nat, none: seq<nat>)
    requires s.chain == seq(BUFHSZ + 1, h => if h == 0 then [] else if h == BUFHSZ then none else [])
    requires b < 2 && At(s, b).key == NoDev && (none == [0, 1] || none == [1, 0])
    ensures Bound(s, b, NoDev).chain == seq(BUFHSZ + 1, h => if h == 0 then [] else if h == BUFHSZ then [b, 1 - b]
      else [])
  {
    assert Without(none, b) == [1 - b] by {
      assert none[1..] == [none[1]] && none[1..][1..] == [];
    }
    var u := Bound(s, b, NoDev);
    assert s.chain[BUFHSZ] == none && u.chain[BUFHSZ] == [b] + Without(none, b) == [b, 1 - b];
  }

  lemma TwoShort(x: Buf, y: Buf, none: seq<nat>, short: bool, uses: map<nat, Use>, a: nat)
    requires a !in uses
    ensures Step(Two(x, y, [], [], none, short, uses), Getblk(a, 0, 0)) ==
      Two(x, y, [], [], none, true, uses[a := WaitFree(ZERO)])
  {
    var s := Two(x, y, [], [], none, short, uses);
    RenewedIs(s, a, ZERO);
    hide Renewed;
  }

  /** Two processes that wait for a free buffer, for the same block, each get one. */
  const RACE := [Geteblk(0), Geteblk(1), Getblk(2, 0, 0), Getblk(3, 0, 0), Does(0, Brelse), Go(2), Go(3),
    Does(1, Brelse), Go(3)]

  lemma RunIs(s: State, es: seq<Event>, i: nat)
    requires i < |es|
    ensures Run(s, es[i..]) == Run(Step(s, es[i]), es[i + 1..])
  {
    assert es[i..][1..] == es[i + 1..];
  }

  /** The process that has a buffer of no block gives it up, and wakes those who wait for one. */
  lemma TwoGivenUp(x: Buf, y: Buf, b: nat, zero: seq<nat>, none: seq<nat>, uses: map<nat, Use>, a: nat)
    requires b < 2 && (if b == 0 then x else y) == EMPTY && a in uses && uses[a] == Hold(NoDev, b)
    ensures
      var spare := EMPTY.(busy := false);
      Step(Two(x, y, [], zero, none, true, uses), Does(a, Brelse)) ==
        Two(if b == 0 then spare else x, if b == 0 then y
          else spare, [b], zero, none, false, Roused(uses - {a}, b, false, true))
  {
  }

  lemma Start2()
    ensures Run(Init(2, map[]), RACE) == Run(Two(EMPTY, EMPTY, [], [], [0, 1], false,
      map[0 := Hold(NoDev, 1), 1 := Hold(NoDev, 0)]), RACE[2..])
  {
    hide Renewed, Run;
    var s0, s1 := Init(2, map[]), Two(NONE, EMPTY, [0], [], [1, 0], false, map[0 := Hold(NoDev, 1)]);
    assert s0 == Two(NONE, NONE, [1, 0], [], [1, 0], false, map[]) by {
      assert Down(2) == [1, 0];
    }
    TwoEmptied(NONE, NONE, [1, 0], [1, 0], map[], 0);
    TwoEmptied(NONE, EMPTY, [0], [1, 0], s1.uses, 1);
    assert RACE[0..] == RACE;
    RunIs(s0, RACE, 0);
    RunIs(s1, RACE, 1);
  }

  /** The four events in which the others come, and the first two give up what they have. */
  lemma Middle2()
    ensures
      var spare := EMPTY.(busy := false);
      var u2 := map[0 := Hold(NoDev, 1), 1 := Hold(NoDev, 0)];
      Run(Two(EMPTY, EMPTY, [], [], [0, 1], false, u2), RACE[2..]) ==
        Run(Two(EMPTY, spare, [1], [], [0, 1], false, map[1 := Hold(NoDev, 0), 2 := Need(ZERO), 3 := Need(ZERO)]),
          RACE[5..])
  {
    hide Renewed, Run, Two, Sought, Put;
    var u2 := map[0 := Hold(NoDev, 1), 1 := Hold(NoDev, 0)];
    var u3, u4 := u2[2 := WaitFree(ZERO)], u2[2 := WaitFree(ZERO)][3 := WaitFree(ZERO)];
    TwoShort(EMPTY, EMPTY, [0, 1], false, u2, 2);
    TwoShort(EMPTY, EMPTY, [0, 1], true, u3, 3);
    TwoGivenUp(EMPTY, EMPTY, 1, [], [0, 1], u4, 0);
    RunIs(Two(EMPTY, EMPTY, [], [], [0, 1], false, u2), RACE, 2);
    RunIs(Two(EMPTY, EMPTY, [], [], [0, 1], true, u3), RACE, 3);
    RunIs(Two(EMPTY, EMPTY, [], [], [0, 1], true, u4), RACE, 4);
    assert Roused(u4 - {0}, 1, false, true) == map[1 := Hold(NoDev, 0), 2 := Need(ZERO), 3 := Need(ZERO)];
  }

  lemma TwoGo(x: Buf, y: Buf, age: seq<nat>, zero: seq<nat>, none: seq<nat>, short: bool, uses: map<nat, Use>, a: nat)
    requires a in uses && uses[a] == Need(ZERO)
    ensures Step(Two(x, y, age, zero, none, short, uses), Go(a)) ==
      Renewed(Two(x, y, age, zero, none, short, uses - {a}), a, ZERO)
  {
    hide Renewed;
  }

  lemma TwoNone(x: Buf, y: Buf, zero: seq<nat>, none: seq<nat>, uses: map<nat, Use>, a: nat)
    ensures Renewed(Two(x, y, [], zero, none, false, uses), a, ZERO) ==
      Two(x, y, [], zero, none, true, uses[a := WaitFree(ZERO)])
  {
    RenewedIs(Two(x, y, [], zero, none, false, uses), a, ZERO);
    hide Renewed;
  }

  /** One of the waiting gets the free buffer, and the other none. */
  lemma Late2()
    ensures
      var u5, u7 := map[1 := Hold(NoDev, 0), 2 := Need(ZERO), 3 := Need(ZERO)],
        map[1 := Hold(NoDev, 0), 2 := Hold(ZERO, 1), 3 := WaitFree(ZERO)];
      Run(Two(EMPTY, EMPTY.(busy := false), [1], [], [0, 1], false, u5), RACE[5..]) ==
        Run(Two(EMPTY, FIRST, [], [1], [0], true, u7), RACE[7..])
  {
    hide Renewed, Run, Step, Two, Without;
    var spare := EMPTY.(busy := false);
    var u5, u6 := map[1 := Hold(NoDev, 0), 2 := Need(ZERO), 3 := Need(ZERO)],
      map[1 := Hold(NoDev, 0), 2 := Hold(ZERO, 1), 3 := Need(ZERO)];
    WithoutTwo();
    RunIs(Two(EMPTY, spare, [1], [], [0, 1], false, u5), RACE, 5);
    TwoGo(EMPTY, spare, [1], [], [0, 1], false, u5, 2);
    TwoRenewed(EMPTY, spare, 1, [], [0, 1], u5 - {2}, 2);
    assert (u5 - {2})[2 := Hold(ZERO, 1)] == u6;
    RunIs(Two(EMPTY, FIRST, [], [1], [0], false, u6), RACE, 6);
    TwoGo(EMPTY, FIRST, [], [1], [0], false, u6, 3);
    TwoNone(EMPTY, FIRST, [1], [0], u6 - {3}, 3);
    assert (u6 - {3})[3 := WaitFree(ZERO)] == map[1 := Hold(NoDev, 0), 2 := Hold(ZERO, 1), 3 := WaitFree(ZERO)];
    assert [1] + [] == [1];
  }

  /**
   So there can be two buffers of one block: one that a process has, and one that another is at making the block's.
   */
  lemma TwoOfOneBlock()
    ensures Run(Init(2, map[]), RACE) ==
      Two(SECOND, FIRST.(wanted := true), [], [0, 1], [], false, map[2 := Hold(ZERO, 1), 3 := WaitClaim(ZERO, 0, 1)])
  {
    hide Renewed, Run, Step, Two, Without;
    var spare := EMPTY.(busy := false);
    var u7, u8 := map[1 := Hold(NoDev, 0), 2 := Hold(ZERO, 1), 3 := WaitFree(ZERO)],
      map[2 := Hold(ZERO, 1), 3 := Need(ZERO)];
    Start2();
    Middle2();
    Late2();
    WithoutTwo();
    RunIs(Two(EMPTY, FIRST, [], [1], [0], true, u7), RACE, 7);
    TwoGivenUp(EMPTY, FIRST, 0, [1], [0], u7, 1);
    assert Roused(u7 - {1}, 0, false, true) == u8;
    RunIs(Two(spare, FIRST, [0], [1], [0], false, u8), RACE, 8);
    TwoGo(spare, FIRST, [0], [1], [0], false, u8, 3);
    TwoRenewed(spare, FIRST, 0, [1], [0], u8 - {3}, 3);
    assert (u8 - {3})[3 := WaitClaim(ZERO, 0, 1)] == map[2 := Hold(ZERO, 1), 3 := WaitClaim(ZERO, 0, 1)];
    assert [0] + [1] == [0, 1] && RACE[9..] == [];
    RunNone(Two(SECOND, FIRST.(wanted := true), [], [0, 1], [], false,
      map[2 := Hold(ZERO, 1), 3 := WaitClaim(ZERO, 0, 1)]));
  }

  lemma WithoutTwo()
    ensures Without([0, 1], 1) == [0] && Without([0], 0) == []
  {
    assert [0, 1][1..] == [1] && [1][1..] == [] && [0][1..] == [];
  }

  lemma RunNone(s: State)
    ensures Run(s, []) == s
  {
  }
}
