/**
 Linked lists threaded through the slots of a table: each slot has the number of the next one, and in some lists that of
 the one before it.
 */
module Links {
  import opened Seqs

  const NIL := -1

  function Head(c: seq<int>, nil: int): int {
    if c == [] then nil else c[0]
  }

  predicate Link(next: seq<int>, c: seq<int>, nil: int, i: nat)
    requires i < |c|
  {
    0 <= c[i] < |next| && c[i] != nil && next[c[i]] == if i + 1 < |c| then c[i + 1] else nil
  }

  predicate BackLink(prev: seq<int>, c: seq<int>, at: int, i: nat)
    requires i < |c|
  {
    0 <= c[i] < |prev| && prev[c[i]] == if i == 0 then at else c[i - 1]
  }

  /** From `head`, `next` leads through the slots of `c`, each once, and to `nil`. */
  ghost predicate Chain(next: seq<int>, head: int, c: seq<int>, nil: int) {
    && head == Head(c, nil) && Distinct(c)
    && forall i :: 0 <= i < |c| ==> Link(next, c, nil, i)
  }

  /** `prev` leads back, from the first slot to `at`. */
  ghost predicate Back(prev: seq<int>, c: seq<int>, at: int) {
    forall i :: 0 <= i < |c| ==> BackLink(prev, c, at, i)
  }

  lemma RemovedHas(c: seq<int>, i: nat)
    requires Distinct(c) && i < |c|
    ensures Distinct(Removed(c, i)) && forall x :: x in Removed(c, i) <==> x in c && x != c[i]
  {
    assert c == c[..i] + [c[i]] + c[i + 1..];
  }

  lemma ChainAt(next: seq<int>, head: int, c: seq<int>, nil: int, i: nat)
    requires Chain(next, head, c, nil) && i < |c|
    ensures 0 <= c[i] < |next| && c[i] != nil && next[c[i]] == if i + 1 < |c| then c[i + 1] else nil
  {
    assert Link(next, c, nil, i);
  }

  lemma BackAt(prev: seq<int>, c: seq<int>, at: int, i: nat)
    requires Back(prev, c, at) && i < |c|
    ensures 0 <= c[i] < |prev| && prev[c[i]] == if i == 0 then at else c[i - 1]
  {
    assert BackLink(prev, c, at, i);
  }

  lemma ChainFrame(next: seq<int>, other: seq<int>, head: int, c: seq<int>, nil: int)
    requires Chain(next, head, c, nil) && |other| == |next| && forall x <- c :: 0 <= x < |next| ==> other[x] == next[x]
    ensures Chain(other, head, c, nil)
  {
    forall i | 0 <= i < |c|
      ensures Link(other, c, nil, i)
    {
      assert Link(next, c, nil, i);
    }
  }

  lemma BackFrame(prev: seq<int>, other: seq<int>, c: seq<int>, at: int)
    requires Back(prev, c, at) && |other| == |prev| && forall x <- c :: 0 <= x < |prev| ==> other[x] == prev[x]
    ensures Back(other, c, at)
  {
    forall i | 0 <= i < |c|
      ensures BackLink(other, c, at, i)
    {
      assert BackLink(prev, c, at, i);
    }
  }

  lemma ChainPush(next: seq<int>, head: int, c: seq<int>, nil: int, x: int)
    requires Chain(next, head, c, nil) && x !in c && 0 <= x < |next| && x != nil
    ensures Chain(next[x := head], x, [x] + c, nil)
  {
    var d, other := [x] + c, next[x := head];
    forall i | 0 <= i < |d|
      ensures Link(other, d, nil, i)
    {
      assert i > 0 ==> Link(next, c, nil, i - 1);
    }
  }

  lemma BackPush(prev: seq<int>, c: seq<int>, at: int, x: int)
    requires Back(prev, c, at) && x !in c && 0 <= x < |prev| && Distinct(c)
    ensures c != [] ==> 0 <= c[0] < |prev|
    ensures Back(if c == [] then prev[x := at] else prev[c[0] := x][x := at], [x] + c, at)
  {
    assert c != [] ==> BackLink(prev, c, at, 0);
    var d, other := [x] + c, if c == [] then prev[x := at] else prev[c[0] := x][x := at];
    forall i | 0 <= i < |d|
      ensures BackLink(other, d, at, i)
    {
      assert i > 0 ==> BackLink(prev, c, at, i - 1);
    }
  }

  lemma ChainLess(next: seq<int>, head: int, c: seq<int>, nil: int, i: nat)
    requires Chain(next, head, c, nil) && i < |c|
    ensures 0 <= c[i] < |next| && (i > 0 ==> 0 <= c[i - 1] < |next|)
    ensures i == 0 ==> Chain(next, next[c[0]], Removed(c, 0), nil)
    ensures i > 0 ==> Chain(next[c[i - 1] := next[c[i]]], head, Removed(c, i), nil)
  {
    RemovedHas(c, i);
    ChainAt(next, head, c, nil, i);
    if i > 0 {
      ChainAt(next, head, c, nil, i - 1);
    }
    var d, other := Removed(c, i), if i > 0 then next[c[i - 1] := next[c[i]]] else next;
    forall j | 0 <= j < |d|
      ensures Link(other, d, nil, j)
    {
      ChainAt(next, head, c, nil, if j < i then j else j + 1);
    }
  }

  lemma BackLess(prev: seq<int>, c: seq<int>, at: int, i: nat)
    requires Back(prev, c, at) && Distinct(c) && i < |c|
    ensures 0 <= c[i] < |prev| && (i + 1 < |c| ==> 0 <= c[i + 1] < |prev|)
    ensures Back(if i + 1 < |c| then prev[c[i + 1] := prev[c[i]]] else prev, Removed(c, i), at)
  {
    BackAt(prev, c, at, i);
    if i + 1 < |c| {
      BackAt(prev, c, at, i + 1);
    }
    var d, other := Removed(c, i), if i + 1 < |c| then prev[c[i + 1] := prev[c[i]]] else prev;
    forall j | 0 <= j < |d|
      ensures BackLink(other, d, at, j)
    {
      BackAt(prev, c, at, if j < i then j else j + 1);
    }
  }
}
