/**
 Directories on disk: blocks of records, each record with room for its name and maybe more, which is the free space; and
 what a table of the names in one directory has to hold to agree with it.
 */
module Directory {

  const DIRBLKSIZ := 512
  const MAXNAMLEN := 255

  /** struct direct. */
  datatype Rec = Rec(ino: nat, name: string, reclen: nat)

  type Block = seq<Rec>

  /** What the cache knows of a name: struct hash_entry. */
  datatype Entry = Entry(ino: nat, offset: nat, reclen: nat, prev: nat)

  /** The entries of a directory by name, those of one name as they stand on their chain. */
  type Table = map<string, seq<Entry>>

  /** DIRSIZ. */
  function Dirsiz(name: string): nat {
    8 + (|name| + 1 + 3) / 4 * 4
  }

  /** A record of that size has room for inode, two lengths, and the name with its end, and less than a word more. */
  lemma DirsizHolds(name: string)
    ensures 8 + |name| + 1 <= Dirsiz(name) < 8 + |name| + 1 + 4 && Dirsiz(name) % 4 == 0
  {
  }

  /** The part of a record in use. */
  function Used(r: Rec): nat {
    if r.ino == 0 then 0 else Dirsiz(r.name)
  }

  /** The length of the first `i` records of a block. */
  function Before(k: Block, i: nat): nat
    requires i <= |k|
  {
    if i == 0 then 0 else Before(k, i - 1) + k[i - 1].reclen
  }

  /** Records fill the block, each large enough for what it holds; only the first may be free. */
  ghost predicate BlockOk(k: Block) {
    && k != [] && Before(k, |k|) == DIRBLKSIZ
    && (forall i :: 0 <= i < |k| ==> 0 < k[i].reclen && Used(k[i]) <= k[i].reclen)
    && (forall i :: 0 < i < |k| ==> k[i].ino != 0)
  }

  /** There is an entry at a position: the `i`th record of block `b`. */
  predicate Live(d: seq<Block>, b: int, i: int) {
    0 <= b < |d| && 0 <= i < |d[b]| && d[b][i].ino != 0
  }

  /** The byte offset of a position. */
  function Offset(d: seq<Block>, b: nat, i: nat): nat
    requires b < |d| && i <= |d[b]|
  {
    b * DIRBLKSIZ + Before(d[b], i)
  }

  /** No two entries have one name. */
  ghost predicate Unique(d: seq<Block>) {
    forall b, i, c, j :: Live(d, b, i) && Live(d, c, j) && d[b][i].name == d[c][j].name ==> b == c && i == j
  }

  ghost predicate Ok(d: seq<Block>) {
    (forall b :: 0 <= b < |d| ==> BlockOk(d[b])) && Unique(d)
  }

  /** The directory has a name, for an inode. */
  ghost predicate Has(d: seq<Block>, name: string, ino: nat) {
    exists b, i :: Live(d, b, i) && d[b][i].name == name && d[b][i].ino == ino
  }

  ghost predicate Names(d: seq<Block>, name: string) {
    exists ino :: Has(d, name, ino)
  }

  /** The entry at a position fits its record, and that its block. */
  lemma EntryFits(d: seq<Block>, b: nat, i: nat)
    requires Ok(d) && Live(d, b, i)
    ensures 8 + |d[b][i].name| + 1 <= d[b][i].reclen
    ensures b * 512 <= Offset(d, b, i) && Offset(d, b, i) + d[b][i].reclen <= (b + 1) * 512
    ensures forall j: nat :: j < i ==> Offset(d, b, j) + d[b][j].reclen <= Offset(d, b, i)
  {
    assert BlockOk(d[b]);
    DirsizHolds(d[b][i].name);
    BeforeMonotone(d[b], i + 1, |d[b]|);
    forall j: nat | j < i
      ensures Offset(d, b, j) + d[b][j].reclen <= Offset(d, b, i)
    {
      BeforeMonotone(d[b], j + 1, i);
    }
  }

  lemma NamedAt(d: seq<Block>, b: nat, i: nat)
    requires Live(d, b, i)
    ensures Has(d, d[b][i].name, d[b][i].ino) && Names(d, d[b][i].name)
  {
  }

  lemma OnlyAt(d: seq<Block>, b: nat, i: nat, c: nat, j: nat)
    requires Ok(d) && Live(d, b, i) && Live(d, c, j) && (b != c || i != j)
    ensures d[b][i].name != d[c][j].name
  {
  }

  /** The truth about an entry. */
  function True(d: seq<Block>, b: nat, i: nat): Entry
    requires b < |d| && i < |d[b]|
  {
    Entry(d[b][i].ino, Offset(d, b, i), d[b][i].reclen, if i == 0 then 0 else d[b][i - 1].reclen)
  }

  ghost predicate Cached(t: Table, d: seq<Block>, b: nat, i: nat)
    requires b < |d| && i < |d[b]|
  {
    d[b][i].name in t && t[d[b][i].name] == [True(d, b, i)]
  }

  /** A table holds exactly the entries of a directory, each once and as it is. */
  ghost predicate Agrees(t: Table, d: seq<Block>) {
    && (forall b, i :: Live(d, b, i) ==> Cached(t, d, b, i))
    && (forall n <- t :: Names(d, n))
  }

  /** One table agrees with a directory, so what is in it does not depend on how it came about. */
  lemma AgreesOnce(t: Table, u: Table, d: seq<Block>)
    requires Agrees(t, d) && Agrees(u, d)
    ensures t == u
  {
    forall n
      ensures n in t <==> n in u
      ensures n in t ==> t[n] == u[n]
    {
      if n in t || n in u {
        var x :| Has(d, n, x);
        var b, i :| Live(d, b, i) && d[b][i].name == n && d[b][i].ino == x;
        assert Cached(t, d, b, i) && Cached(u, d, b, i);
      }
    }
  }

  function Chain(t: Table, n: string): seq<Entry> {
    if n in t then t[n] else []
  }

  /** An entry put in front of its chain. */
  function Entered(t: Table, n: string, e: Entry): Table {
    t[n := [e] + Chain(t, n)]
  }

  /** The first entry for a name given another record length, or another length of the record before. */
  function Relength(t: Table, n: string, reclen: nat): Table {
    if Chain(t, n) == [] then t else t[n := [t[n][0].(reclen := reclen)] + t[n][1..]]
  }

  function Reprev(t: Table, n: string, prev: nat): Table {
    if Chain(t, n) == [] then t else t[n := [t[n][0].(prev := prev)] + t[n][1..]]
  }

  function Reino(t: Table, n: string, ino: nat): Table {
    if Chain(t, n) == [] then t else t[n := [t[n][0].(ino := ino)] + t[n][1..]]
  }

  /** The first entry for a name taken off its chain. */
  function Dropped(t: Table, n: string): Table {
    if Chain(t, n) == [] then t else if |t[n]| == 1 then t - {n} else t[n := t[n][1..]]
  }

  lemma {:induction false} BeforeMonotone(k: Block, i: nat, j: nat)
    requires i <= j <= |k| && forall x :: 0 <= x < |k| ==> 0 < k[x].reclen
    ensures Before(k, i) + (j - i) <= Before(k, j)
    decreases j - i
  {
    if i < j {
      BeforeMonotone(k, i, j - 1);
    }
  }

  lemma {:induction false} BeforeSame(k: Block, l: Block, i: nat)
    requires i <= |k| && i <= |l| && forall x :: 0 <= x < i ==> k[x].reclen == l[x].reclen
    ensures Before(k, i) == Before(l, i)
  {
    if i > 0 {
      BeforeSame(k, l, i - 1);
    }
  }

  /** A record shortened, and another put into the room it gave up. */
  function Split(k: Block, i: nat, len: nat, r: Rec): (l: Block)
    requires i < |k|
    ensures |l| == |k| + 1
  {
    k[..i] + [k[i].(reclen := len), r] + k[i + 1..]
  }

  /** A record, not the first of its block, given up to the one before it. */
  function Joined(k: Block, i: nat): (l: Block)
    requires 0 < i < |k|
    ensures |l| == |k| - 1
  {
    k[..i - 1] + [k[i - 1].(reclen := k[i - 1].reclen + k[i].reclen)] + k[i + 1..]
  }

  lemma {:induction false} BeforeSplit(k: Block, i: nat, len: nat, r: Rec, j: nat)
    requires i < |k| && len + r.reclen == k[i].reclen && i < j <= |k|
    ensures Before(Split(k, i, len, r), i) == Before(k, i) && Before(Split(k, i, len, r), i + 1) == Before(k, i) + len
    ensures Before(Split(k, i, len, r), j + 1) == Before(k, j)
    decreases j
  {
    BeforeSame(k, Split(k, i, len, r), i);
    if i + 1 < j {
      BeforeSplit(k, i, len, r, j - 1);
    }
  }

  lemma SplitOk(k: Block, i: nat, len: nat, r: Rec)
    requires BlockOk(k) && i < |k| && Used(k[i]) <= len && 0 < len && len + r.reclen == k[i].reclen
      && Used(r) <= r.reclen && r.ino != 0
    ensures BlockOk(Split(k, i, len, r))
  {
    BeforeSplit(k, i, len, r, |k|);
  }

  lemma BeforeJoined(k: Block, i: nat, j: nat)
    requires 0 < i < |k| && j < |k|
    ensures Before(Joined(k, i), j) == if j < i then Before(k, j) else Before(k, j + 1)
  {
    var l := Joined(k, i);
    if j < i {
      BeforeSame(k, l, j);
    } else {
      assert k == Split(l, i - 1, k[i - 1].reclen, k[i]);
      BeforeSplit(l, i - 1, k[i - 1].reclen, k[i], j);
    }
  }

  lemma JoinedOk(k: Block, i: nat)
    requires BlockOk(k) && 0 < i < |k|
    ensures BlockOk(Joined(k, i))
  {
    BeforeJoined(k, i, |k| - 1);
  }

  /** Where the entries are, and what they are, once one was made in the free part of another's record. */
  lemma TrueAfterSplit(d: seq<Block>, b: nat, i: nat, len: nat, r: Rec, c: nat, j: nat)
    requires b < |d| && i < |d[b]| && len + r.reclen == d[b][i].reclen && c < |d|
      && j < if c == b then |d[b]| + 1 else |d[c]|
    ensures
      var e: seq<Block> := d[b := Split(d[b], i, len, r)];
      && j < |e[c]|
      && (c != b || j < i ==> True(e, c, j) == True(d, c, j) && e[c][j].name == d[c][j].name)
      && (c == b && j == i ==> True(e, c, j) == True(d, c, j).(reclen := len) && e[c][j].name == d[c][j].name)
      && (c == b && j == i + 1 ==>
          True(e, c, j) == Entry(r.ino, Offset(d, b, i) + len, r.reclen, len) && e[c][j].name == r.name)
      && (c == b && j == i + 2 ==>
          True(e, c, j) == True(d, c, j - 1).(prev := r.reclen) && e[c][j].name == d[c][j - 1].name)
      && (c == b && j > i + 2 ==> True(e, c, j) == True(d, c, j - 1) && e[c][j].name == d[c][j - 1].name)
  {
    var k, l := d[b], Split(d[b], i, len, r);
    if c == b {
      if j < i {
        BeforeSame(k, l, j);
      } else {
        BeforeSplit(k, i, len, r, if j > i + 1 then j - 1 else |k|);
      }
    }
  }

  /** The table after an entry is made in the free part of record `i` of block `b`, by three small changes. */
  function SplitTable(t: Table, d: seq<Block>, b: nat, i: nat, len: nat, r: Rec): Table
    requires b < |d| && i < |d[b]|
  {
    var u := Entered(Relength(t, d[b][i].name, len), r.name, Entry(r.ino, Offset(d, b, i) + len, r.reclen, len));
    if i + 1 < |d[b]| then Reprev(u, d[b][i + 1].name, r.reclen) else u
  }

  /** What the three small changes do to a name, where the names are three and each chain has one entry at most. */
  lemma SplitTableIs(t: Table, a: string, x: Entry, len: nat, new': string, e: Entry, more: bool, m: string, y: Entry,
        prev: nat, n: string)
    requires a in t && t[a] == [x] && new' !in t && (more ==> m in t && t[m] == [y] && m != a)
    ensures
      var u := Entered(Relength(t, a, len), new', e);
      var v := if more then Reprev(u, m, prev) else u;
      && (n in v <==> n in t || n == new')
      && (n in v ==> v[n] == if n == new' then [e] else if n == a then [x.(reclen := len)]
          else if more && n == m then [y.(prev := prev)] else t[n])
  {
  }

  /** The neighbours of a record are entries under names of their own. */
  lemma NextAt(t: Table, d: seq<Block>, b: nat, i: nat)
    requires Ok(d) && Agrees(t, d) && Live(d, b, i)
    ensures d[b][i].name in t && t[d[b][i].name] == [True(d, b, i)]
    ensures i + 1 < |d[b]| ==>
      Live(d, b, i + 1) && d[b][i + 1].name != d[b][i].name && d[b][i + 1].name in t
      && t[d[b][i + 1].name] == [True(d, b, i + 1)]
  {
    assert Cached(t, d, b, i);
    if i + 1 < |d[b]| {
      assert BlockOk(d[b]);
      assert Live(d, b, i + 1) && Cached(t, d, b, i + 1);
      OnlyAt(d, b, i, b, i + 1);
    }
  }

  lemma NotInTable(t: Table, d: seq<Block>, n: string)
    requires Agrees(t, d) && !Names(d, n)
    ensures n !in t
  {
  }

  lemma SplitCached(t: Table, d: seq<Block>, b: nat, i: nat, len: nat, r: Rec, c: nat, j: nat)
    requires Ok(d) && Agrees(t, d) && Live(d, b, i) && !Names(d, r.name) && len + r.reclen == d[b][i].reclen
    requires Live(d[b := Split(d[b], i, len, r)], c, j)
    ensures Cached(SplitTable(t, d, b, i, len, r), d[b := Split(d[b], i, len, r)], c, j)
  {
    hide Ok, Agrees, Names, True, Split, Offset, Relength, Reprev, Entered;
    TrueAfterSplit(d, b, i, len, r, c, j);
    var e: seq<Block> := d[b := Split(d[b], i, len, r)];
    NextAt(t, d, b, i);
    NotInTable(t, d, r.name);
    var more := i + 1 < |d[b]|;
    var next := if more then i + 1 else i;
    SplitTableIs(t, d[b][i].name, True(d, b, i), len, r.name, Entry(r.ino, Offset(d, b, i) + len, r.reclen, len), more,
      d[b][next].name, True(d, b, next), r.reclen, e[c][j].name);
    if c != b || j < i || j > i + 1 {
      var j' := if c == b && j > i then j - 1 else j;
      LiveBeforeSplit(d, b, i, len, r, c, j);
      NextAt(t, d, c, j');
      OnlyAt(d, b, i, c, j');
      if more && (c != b || j' != i + 1) {
        OnlyAt(d, b, i + 1, c, j');
      }
    }
  }

  lemma LiveBeforeSplit(d: seq<Block>, b: nat, i: nat, len: nat, r: Rec, c: nat, j: nat)
    requires b < |d| && i < |d[b]| && Live(d[b := Split(d[b], i, len, r)], c, j) && (c != b || j != i + 1)
    ensures Live(d, c, if c == b && j > i then j - 1 else j)
  {
  }

  lemma HasAfterSplit(d: seq<Block>, b: nat, i: nat, len: nat, r: Rec, m: string, x: nat)
    requires b < |d| && i < |d[b]| && len + r.reclen == d[b][i].reclen && r.ino != 0
    ensures Has(d[b := Split(d[b], i, len, r)], m, x) <==> Has(d, m, x) || (m == r.name && x == r.ino)
  {
    var e: seq<Block> := d[b := Split(d[b], i, len, r)];
    if Has(d, m, x) {
      var c, j :| Live(d, c, j) && d[c][j].name == m && d[c][j].ino == x;
      assert Live(e, c, if c == b && j > i then j + 1 else j);
    }
    if Has(e, m, x) {
      var c, j :| Live(e, c, j) && e[c][j].name == m && e[c][j].ino == x;
      assert c != b || j != i + 1 ==> Live(d, c, if c == b && j > i then j - 1 else j);
    }
    assert Live(e, b, i + 1);
  }

  lemma UniqueAfterSplit(d: seq<Block>, b: nat, i: nat, len: nat, r: Rec)
    requires Unique(d) && b < |d| && i < |d[b]| && !Names(d, r.name)
    ensures Unique(d[b := Split(d[b], i, len, r)])
  {
    var e: seq<Block> := d[b := Split(d[b], i, len, r)];
    forall c, j, c', j' | Live(e, c, j) && Live(e, c', j') && e[c][j].name == e[c'][j'].name
      ensures c == c' && j == j'
    {
      var p, q := if c == b && j > i then j - 1 else j, if c' == b && j' > i then j' - 1 else j';
      if c != b || j != i + 1 {
        assert Live(d, c, p);
        NamedAt(d, c, p);
      }
      if c' != b || j' != i + 1 {
        assert Live(d, c', q);
        NamedAt(d, c', q);
      }
    }
  }

  /** An entry made in the free part of a record that holds one: the directory stays in order, and the table agrees. */
  lemma AgreesSplit(t: Table, d: seq<Block>, b: nat, i: nat, len: nat, r: Rec)
    requires Ok(d) && Agrees(t, d) && Live(d, b, i) && !Names(d, r.name) && r.ino != 0
    requires Used(d[b][i]) <= len && 0 < len && len + r.reclen == d[b][i].reclen && Used(r) <= r.reclen
    ensures Ok(d[b := Split(d[b], i, len, r)]) && Agrees(SplitTable(t, d, b, i, len, r), d[b := Split(d[b], i, len, r)])
  {
    hide BlockOk, Unique, Cached, Split, SplitTable, Has, Used;
    var e: seq<Block>, v := d[b := Split(d[b], i, len, r)], SplitTable(t, d, b, i, len, r);
    assert BlockOk(d[b]);
    SplitOk(d[b], i, len, r);
    UniqueAfterSplit(d, b, i, len, r);
    forall c, j | Live(e, c, j)
      ensures Cached(v, e, c, j)
    {
      SplitCached(t, d, b, i, len, r, c, j);
    }
    forall m | m in v
      ensures Names(e, m)
    {
      SplitKeys(t, d, b, i, len, r, m);
      var x: nat := if m in t then var y: nat :| Has(d, m, y); y else r.ino;
      HasAfterSplit(d, b, i, len, r, m, x);
    }
  }

  lemma SplitKeys(t: Table, d: seq<Block>, b: nat, i: nat, len: nat, r: Rec, m: string)
    requires Ok(d) && Agrees(t, d) && Live(d, b, i) && m in SplitTable(t, d, b, i, len, r)
    ensures m in t || m == r.name
  {
    hide Ok, Agrees, True, Offset;
    NextAt(t, d, b, i);
  }

  /** A record given to another entry, or to none; its length stays. */
  function Put(d: seq<Block>, b: nat, i: nat, ino: nat, name: string): seq<Block>
    requires b < |d| && i < |d[b]|
  {
    d[b := d[b][i := Rec(ino, name, d[b][i].reclen)]]
  }

  lemma TrueAfterPut(d: seq<Block>, b: nat, i: nat, ino: nat, name: string, c: nat, j: nat)
    requires b < |d| && i < |d[b]| && c < |d| && j < |d[c]|
    ensures
      var e := Put(d, b, i, ino, name);
      && |e[c]| == |d[c]|
      && (c != b || j != i ==>
          True(e, c, j) == True(d, c, j) && e[c][j].name == d[c][j].name && e[c][j].ino == d[c][j].ino)
      && (c == b && j == i ==>
          True(e, c, j) == True(d, c, j).(ino := ino) && e[c][j].name == name && e[c][j].ino == ino)
  {
    if c == b {
      BeforeSame(d[b], Put(d, b, i, ino, name)[b], j);
    }
  }

  lemma PutBlockOk(k: Block, i: nat, ino: nat, name: string)
    requires BlockOk(k) && i < |k| && (i > 0 ==> ino != 0) && (ino != 0 ==> Dirsiz(name) <= k[i].reclen)
    ensures BlockOk(k[i := Rec(ino, name, k[i].reclen)])
  {
    BeforeSame(k, k[i := Rec(ino, name, k[i].reclen)], |k|);
  }

  lemma UniqueAfterPut(d: seq<Block>, b: nat, i: nat, ino: nat, name: string)
    requires Unique(d) && b < |d| && i < |d[b]| && (ino != 0 ==>
      !Names(d, name) || (Live(d, b, i) && d[b][i].name == name))
    ensures Unique(Put(d, b, i, ino, name))
  {
    var e := Put(d, b, i, ino, name);
    forall c, j, c', j' | Live(e, c, j) && Live(e, c', j') && e[c][j].name == e[c'][j'].name
      ensures c == c' && j == j'
    {
      if c != b || j != i {
        assert Live(d, c, j);
        NamedAt(d, c, j);
      }
      if c' != b || j' != i {
        assert Live(d, c', j');
        NamedAt(d, c', j');
      }
    }
  }

  lemma PutOk(d: seq<Block>, b: nat, i: nat, ino: nat, name: string)
    requires Ok(d) && b < |d| && i < |d[b]| && (i > 0 ==> ino != 0) && (ino != 0 ==> Dirsiz(name) <= d[b][i].reclen)
    requires ino != 0 ==> !Names(d, name) || (Live(d, b, i) && d[b][i].name == name)
    ensures Ok(Put(d, b, i, ino, name))
  {
    hide BlockOk, Unique, Names, Dirsiz;
    assert BlockOk(d[b]);
    PutBlockOk(d[b], i, ino, name);
    UniqueAfterPut(d, b, i, ino, name);
  }

  lemma HasAfterPut(d: seq<Block>, b: nat, i: nat, ino: nat, name: string, m: string, x: nat)
    requires Ok(d) && b < |d| && i < |d[b]| && (d[b][i].ino != 0 ==> name == d[b][i].name)
    ensures Has(Put(d, b, i, ino, name), m, x) <==>
      (Has(d, m, x) && (d[b][i].ino != 0 ==> m != name)) || (ino != 0 && m == name && x == ino)
  {
    hide Ok, Has, Put;
    if Has(d, m, x) && (d[b][i].ino != 0 ==> m != name) {
      PutKeeps(d, b, i, ino, name, m, x);
    }
    if Has(Put(d, b, i, ino, name), m, x) {
      PutHas(d, b, i, ino, name, m, x);
    }
    if ino != 0 {
      PutHere(d, b, i, ino, name);
    }
  }

  lemma PutHere(d: seq<Block>, b: nat, i: nat, ino: nat, name: string)
    requires b < |d| && i < |d[b]| && ino != 0
    ensures Has(Put(d, b, i, ino, name), name, ino)
  {
    NamedAt(Put(d, b, i, ino, name), b, i);
  }

  lemma PutKeeps(d: seq<Block>, b: nat, i: nat, ino: nat, name: string, m: string, x: nat)
    requires b < |d| && i < |d[b]| && Has(d, m, x) && (d[b][i].ino != 0 ==> m != d[b][i].name)
    ensures Has(Put(d, b, i, ino, name), m, x)
  {
    var c, j :| Live(d, c, j) && d[c][j].name == m && d[c][j].ino == x;
    NamedAt(Put(d, b, i, ino, name), c, j);
  }

  lemma PutHas(d: seq<Block>, b: nat, i: nat, ino: nat, name: string, m: string, x: nat)
    requires Ok(d) && b < |d| && i < |d[b]| && (d[b][i].ino != 0 ==> name == d[b][i].name)
      && Has(Put(d, b, i, ino, name), m, x)
    ensures (Has(d, m, x) && (d[b][i].ino != 0 ==> m != name)) || (ino != 0 && m == name && x == ino)
  {
    hide Ok;
    var e := Put(d, b, i, ino, name);
    var c, j :| Live(e, c, j) && e[c][j].name == m && e[c][j].ino == x;
    if c != b || j != i {
      assert Live(d, c, j);
      NamedAt(d, c, j);
      if d[b][i].ino != 0 {
        OnlyAt(d, b, i, c, j);
      }
    }
  }

  /** A free record filled: one entry more in the table. */
  lemma AgreesFilled(t: Table, d: seq<Block>, b: nat, ino: nat, name: string)
    requires Ok(d) && Agrees(t, d) && b < |d| && d[b] != [] && d[b][0].ino == 0 && !Names(d, name) && ino != 0
      && Dirsiz(name) <= d[b][0].reclen
    ensures Ok(Put(d, b, 0, ino, name)) && Agrees(Entered(t, name, Entry(ino, Offset(d, b, 0), d[b][0].reclen, 0)),
      Put(d, b, 0, ino, name))
  {
    var e, v := Put(d, b, 0, ino, name), Entered(t, name, Entry(ino, Offset(d, b, 0), d[b][0].reclen, 0));
    PutOk(d, b, 0, ino, name);
    NotInTable(t, d, name);
    forall c, j | Live(e, c, j)
      ensures Cached(v, e, c, j)
    {
      TrueAfterPut(d, b, 0, ino, name, c, j);
      if c != b || j != 0 {
        assert Live(d, c, j) && Cached(t, d, c, j);
      }
    }
    forall m | m in v
      ensures Names(e, m)
    {
      if m in t {
        var x :| Has(d, m, x);
        HasAfterPut(d, b, 0, ino, name, m, x);
      } else {
        HasAfterPut(d, b, 0, ino, name, m, ino);
      }
    }
  }

  lemma FreedCached(t: Table, d: seq<Block>, b: nat, name: string, c: nat, j: nat)
    requires Ok(d) && Agrees(t, d) && Live(d, b, 0) && d[b][0].name == name && Live(Put(d, b, 0, 0, name), c, j)
    ensures Cached(Dropped(t, name), Put(d, b, 0, 0, name), c, j)
  {
    hide Ok, Agrees, Names, True;
    TrueAfterPut(d, b, 0, 0, name, c, j);
    NextAt(t, d, b, 0);
    NextAt(t, d, c, j);
    OnlyAt(d, b, 0, c, j);
  }

  /** The first record of a block freed: one entry less. */
  lemma AgreesFreed(t: Table, d: seq<Block>, b: nat, name: string)
    requires Ok(d) && Agrees(t, d) && Live(d, b, 0) && d[b][0].name == name
    ensures Ok(Put(d, b, 0, 0, name)) && Agrees(Dropped(t, name), Put(d, b, 0, 0, name))
  {
    var e, v := Put(d, b, 0, 0, name), Dropped(t, name);
    PutOk(d, b, 0, 0, name);
    forall c, j | Live(e, c, j)
      ensures Cached(v, e, c, j)
    {
      FreedCached(t, d, b, name, c, j);
    }
    NextAt(t, d, b, 0);
    hide True, Ok;
    forall m | m in v
      ensures Names(e, m)
    {
      var x :| Has(d, m, x);
      HasAfterPut(d, b, 0, 0, name, m, x);
    }
  }

  lemma RewrittenCached(t: Table, d: seq<Block>, b: nat, i: nat, ino: nat, c: nat, j: nat)
    requires Ok(d) && Agrees(t, d) && Live(d, b, i) && ino != 0 && Live(Put(d, b, i, ino, d[b][i].name), c, j)
    ensures Cached(Reino(t, d[b][i].name, ino), Put(d, b, i, ino, d[b][i].name), c, j)
  {
    hide Ok, Agrees, Names, True;
    TrueAfterPut(d, b, i, ino, d[b][i].name, c, j);
    NextAt(t, d, b, i);
    NextAt(t, d, c, j);
    if c != b || j != i {
      OnlyAt(d, b, i, c, j);
    }
  }

  /** A record given to another inode under its name. */
  lemma AgreesRewritten(t: Table, d: seq<Block>, b: nat, i: nat, ino: nat)
    requires Ok(d) && Agrees(t, d) && Live(d, b, i) && ino != 0
    ensures Ok(Put(d, b, i, ino, d[b][i].name)) && Agrees(Reino(t, d[b][i].name, ino), Put(d, b, i, ino, d[b][i].name))
  {
    hide True, Dirsiz, Reino;
    var name := d[b][i].name;
    var e, v := Put(d, b, i, ino, name), Reino(t, name, ino);
    assert BlockOk(d[b]) && Dirsiz(name) <= d[b][i].reclen;
    PutOk(d, b, i, ino, name);
    forall c, j | Live(e, c, j)
      ensures Cached(v, e, c, j)
    {
      RewrittenCached(t, d, b, i, ino, c, j);
    }
    NextAt(t, d, b, i);
    forall m | m in v
      ensures Names(e, m)
    {
      ReinoKeys(t, name, ino, m);
      var x :| Has(d, m, x);
      HasAfterPut(d, b, i, ino, name, m, if m == name then ino else x);
    }
  }

  lemma ReinoKeys(t: Table, n: string, ino: nat, m: string)
    requires m in Reino(t, n, ino)
    ensures m in t
  {
  }

  lemma HasAfterAppend(d: seq<Block>, ino: nat, name: string, m: string, x: nat)
    requires ino != 0
    ensures Has(d + [[Rec(ino, name, DIRBLKSIZ)]], m, x) <==> Has(d, m, x) || (m == name && x == ino)
  {
    var e := d + [[Rec(ino, name, DIRBLKSIZ)]];
    assert Live(e, |d|, 0);
    if Has(d, m, x) {
      var c, j :| Live(d, c, j) && d[c][j].name == m && d[c][j].ino == x;
      assert Live(e, c, j);
    }
    if Has(e, m, x) {
      var c, j :| Live(e, c, j) && e[c][j].name == m && e[c][j].ino == x;
      assert c < |d| ==> Live(d, c, j);
    }
  }

  lemma UniqueAfterAppend(d: seq<Block>, ino: nat, name: string)
    requires Unique(d) && !Names(d, name)
    ensures Unique(d + [[Rec(ino, name, DIRBLKSIZ)]])
  {
    var e := d + [[Rec(ino, name, DIRBLKSIZ)]];
    forall c, j, c', j' | Live(e, c, j) && Live(e, c', j') && e[c][j].name == e[c'][j'].name
      ensures c == c' && j == j'
    {
      if c < |d| {
        NamedAt(d, c, j);
      }
      if c' < |d| {
        NamedAt(d, c', j');
      }
    }
  }

  lemma OneEntryOk(ino: nat, name: string)
    requires Dirsiz(name) <= DIRBLKSIZ
    ensures BlockOk([Rec(ino, name, DIRBLKSIZ)]) && Before([Rec(ino, name, DIRBLKSIZ)], 0) == 0
  {
    var k := [Rec(ino, name, DIRBLKSIZ)];
    assert Before(k, 1) == Before(k, 0) + DIRBLKSIZ;
  }

  lemma AppendOk(d: seq<Block>, ino: nat, name: string)
    requires Ok(d) && !Names(d, name) && ino != 0 && Dirsiz(name) <= DIRBLKSIZ
    ensures Ok(d + [[Rec(ino, name, DIRBLKSIZ)]])
  {
    hide BlockOk, Unique, Names, Dirsiz;
    UniqueAfterAppend(d, ino, name);
    OneEntryOk(ino, name);
  }

  lemma AppendedCached(t: Table, d: seq<Block>, ino: nat, name: string, c: nat, j: nat)
    requires Ok(d) && Agrees(t, d) && !Names(d, name) && ino != 0 && Live(d + [[Rec(ino, name, DIRBLKSIZ)]], c, j)
    ensures Cached(Entered(t, name, Entry(ino, |d| * DIRBLKSIZ, DIRBLKSIZ, 0)), d + [[Rec(ino, name, DIRBLKSIZ)]], c, j)
  {
    hide Ok, Agrees, Names;
    NotInTable(t, d, name);
    if c < |d| {
      NextAt(t, d, c, j);
      NamedAt(d, c, j);
    } else {
      assert Before([Rec(ino, name, DIRBLKSIZ)], 0) == 0;
    }
  }

  /** A block of one entry at the end. */
  lemma AgreesAppended(t: Table, d: seq<Block>, ino: nat, name: string)
    requires Ok(d) && Agrees(t, d) && !Names(d, name) && ino != 0 && Dirsiz(name) <= DIRBLKSIZ
    ensures Ok(d + [[Rec(ino, name, DIRBLKSIZ)]])
    ensures Agrees(Entered(t, name, Entry(ino, |d| * DIRBLKSIZ, DIRBLKSIZ, 0)), d + [[Rec(ino, name, DIRBLKSIZ)]])
  {
    AppendOk(d, ino, name);
    hide Ok, Cached, Has;
    var e, v := d + [[Rec(ino, name, DIRBLKSIZ)]], Entered(t, name, Entry(ino, |d| * DIRBLKSIZ, DIRBLKSIZ, 0));
    forall c, j | Live(e, c, j)
      ensures Cached(v, e, c, j)
    {
      AppendedCached(t, d, ino, name, c, j);
    }
    forall m | m in v
      ensures Names(e, m)
    {
      var x: nat := if m in t then var y: nat :| Has(d, m, y); y else ino;
      HasAfterAppend(d, ino, name, m, x);
    }
  }

  /** The table after record `i` of block `b` went to the one before it: again three small changes. */
  function JoinedTable(t: Table, d: seq<Block>, b: nat, i: nat): Table
    requires b < |d| && 0 < i < |d[b]|
  {
    var len := d[b][i - 1].reclen + d[b][i].reclen;
    var u := if d[b][i - 1].ino != 0 then Relength(t, d[b][i - 1].name, len) else t;
    var v := if i + 1 < |d[b]| then Reprev(u, d[b][i + 1].name, len) else u;
    Dropped(v, d[b][i].name)
  }

  lemma JoinedTableIs(t: Table, before: bool, a: string, x: Entry, len: nat, more: bool, m: string, y: Entry,
        gone: string, n: string)
    requires gone in t && |t[gone]| == 1 && (before ==> a in t && t[a] == [x] && a != gone)
      && (more ==> m in t && t[m] == [y] && m != gone && (before ==> m != a))
    ensures
      var u := if before then Relength(t, a, len) else t;
      var v := if more then Reprev(u, m, len) else u;
      var w := Dropped(v, gone);
      && (n in w <==> n in t && n != gone)
      && (n in w ==> w[n] == if before && n == a then [x.(reclen := len)]
          else if more && n == m then [y.(prev := len)] else t[n])
  {
  }

  /** The place of an entry of the joined directory in the one it came from. */
  lemma TrueAfterJoined(d: seq<Block>, b: nat, i: nat, c: nat, j: nat)
    requires b < |d| && 0 < i < |d[b]| && c < |d| && j < if c == b then |d[b]| - 1 else |d[c]|
    ensures
      var e := d[b := Joined(d[b], i)];
      var len := d[b][i - 1].reclen + d[b][i].reclen;
      var j' := if c == b && j >= i then j + 1 else j;
      && j < |e[c]| && j' < |d[c]| && e[c][j].name == d[c][j'].name && e[c][j].ino == d[c][j'].ino
      && True(e, c, j) == if c == b && j == i - 1 then True(d, c, j').(reclen := len)
          else if c == b && j == i then True(d, c, j').(prev := len) else True(d, c, j')
  {
    if c == b {
      BeforeJoined(d[b], i, j);
    }
  }

  lemma JoinedCached(t: Table, d: seq<Block>, b: nat, i: nat, c: nat, j: nat)
    requires Ok(d) && Agrees(t, d) && Live(d, b, i) && 0 < i && Live(d[b := Joined(d[b], i)], c, j)
    ensures Cached(JoinedTable(t, d, b, i), d[b := Joined(d[b], i)], c, j)
  {
    hide Ok, Agrees, Names, True, Joined, Offset, Relength, Reprev, Dropped;
    TrueAfterJoined(d, b, i, c, j);
    var len := d[b][i - 1].reclen + d[b][i].reclen;
    var before, more := d[b][i - 1].ino != 0, i + 1 < |d[b]|;
    var next := if more then i + 1 else i;
    var j' := if c == b && j >= i then j + 1 else j;
    NextAt(t, d, b, i);
    NextAt(t, d, c, j');
    if before {
      NextAt(t, d, b, i - 1);
      OnlyAt(d, b, i - 1, b, next);
    }
    JoinedTableIs(t, before, d[b][i - 1].name, True(d, b, i - 1), len, more, d[b][next].name, True(d, b, next),
      d[b][i].name, d[c][j'].name);
    OnlyAt(d, b, i, c, j');
    if before && (c != b || j' != i - 1) {
      OnlyAt(d, b, i - 1, c, j');
    }
    if more && (c != b || j' != i + 1) {
      OnlyAt(d, b, i + 1, c, j');
    }
  }

  lemma HasAfterJoined(d: seq<Block>, b: nat, i: nat, m: string, x: nat)
    requires Ok(d) && Live(d, b, i) && 0 < i
    ensures Has(d[b := Joined(d[b], i)], m, x) <==> Has(d, m, x) && m != d[b][i].name
  {
    hide Ok, Has, Joined;
    if Has(d, m, x) && m != d[b][i].name {
      JoinedKeeps(d, b, i, m, x);
    }
    if Has(d[b := Joined(d[b], i)], m, x) {
      JoinedHas(d, b, i, m, x);
    }
  }

  lemma JoinedKeeps(d: seq<Block>, b: nat, i: nat, m: string, x: nat)
    requires Live(d, b, i) && 0 < i && Has(d, m, x) && m != d[b][i].name
    ensures Has(d[b := Joined(d[b], i)], m, x)
  {
    hide Joined, True;
    var c, j :| Live(d, c, j) && d[c][j].name == m && d[c][j].ino == x;
    var j' := if c == b && j > i then j - 1 else j;
    TrueAfterJoined(d, b, i, c, j');
    NamedAt(d[b := Joined(d[b], i)], c, j');
  }

  lemma JoinedHas(d: seq<Block>, b: nat, i: nat, m: string, x: nat)
    requires Ok(d) && Live(d, b, i) && 0 < i && Has(d[b := Joined(d[b], i)], m, x)
    ensures Has(d, m, x) && m != d[b][i].name
  {
    hide Ok, Joined, True;
    var e: seq<Block> := d[b := Joined(d[b], i)];
    var c, j :| Live(e, c, j) && e[c][j].name == m && e[c][j].ino == x;
    TrueAfterJoined(d, b, i, c, j);
    var j' := if c == b && j >= i then j + 1 else j;
    NamedAt(d, c, j');
    OnlyAt(d, b, i, c, j');
  }

  lemma UniqueAfterJoined(d: seq<Block>, b: nat, i: nat)
    requires Ok(d) && Live(d, b, i) && 0 < i
    ensures Unique(d[b := Joined(d[b], i)])
  {
    var e: seq<Block> := d[b := Joined(d[b], i)];
    forall c, j, c', j' | Live(e, c, j) && Live(e, c', j') && e[c][j].name == e[c'][j'].name
      ensures c == c' && j == j'
    {
      TrueAfterJoined(d, b, i, c, j);
      TrueAfterJoined(d, b, i, c', j');
      assert Live(d, c, if c == b && j >= i then j + 1 else j);
      assert Live(d, c', if c' == b && j' >= i then j' + 1 else j');
    }
  }

  lemma JoinedStaysOk(d: seq<Block>, b: nat, i: nat)
    requires Ok(d) && Live(d, b, i) && 0 < i
    ensures Ok(d[b := Joined(d[b], i)])
  {
    assert BlockOk(d[b]);
    hide BlockOk, Unique, Joined;
    JoinedOk(d[b], i);
    UniqueAfterJoined(d, b, i);
  }

  /** A record given up to the one before it: the directory stays in order, and the table agrees. */
  lemma AgreesJoined(t: Table, d: seq<Block>, b: nat, i: nat)
    requires Ok(d) && Agrees(t, d) && Live(d, b, i) && 0 < i
    ensures Ok(d[b := Joined(d[b], i)]) && Agrees(JoinedTable(t, d, b, i), d[b := Joined(d[b], i)])
  {
    var e: seq<Block>, v := d[b := Joined(d[b], i)], JoinedTable(t, d, b, i);
    JoinedStaysOk(d, b, i);
    forall c, j | Live(e, c, j)
      ensures Cached(v, e, c, j)
    {
      JoinedCached(t, d, b, i, c, j);
    }
    NextAt(t, d, b, i);
    forall m | m in v
      ensures Names(e, m)
    {
      JoinedKeys(t, d, b, i, m);
      var x :| Has(d, m, x);
      HasAfterJoined(d, b, i, m, x);
    }
  }

  lemma JoinedKeys(t: Table, d: seq<Block>, b: nat, i: nat, m: string)
    requires Ok(d) && Agrees(t, d) && Live(d, b, i) && 0 < i && m in JoinedTable(t, d, b, i)
    ensures m in t && m != d[b][i].name
  {
    hide Ok, Agrees, Names, True, Joined, Offset, Relength, Reprev, Dropped;
    var len := d[b][i - 1].reclen + d[b][i].reclen;
    var before, more := d[b][i - 1].ino != 0, i + 1 < |d[b]|;
    var next := if more then i + 1 else i;
    NextAt(t, d, b, i);
    if before {
      NextAt(t, d, b, i - 1);
      OnlyAt(d, b, i - 1, b, next);
    }
    JoinedTableIs(t, before, d[b][i - 1].name, True(d, b, i - 1), len, more, d[b][next].name, True(d, b, next),
      d[b][i].name, m);
  }
}
