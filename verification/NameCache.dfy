/**
 The directory name cache: for some directories a table of all their names, filled by one scan of the directory, then
 kept in step by hand as entries are made, removed and rewritten, and thrown away whenever memory is short.
 */
module NameCache {
  import opened Directory

  datatype Option<T> = None | Some(value: T)

  /** struct dir_hash_entry: the table, and the last record known to have free space, if `lastOff` is not 0. */
  datatype Dir = Dir(table: Table, lastOff: nat, lastUnused: int)

  /** The position of a byte offset within a block. */
  function Index(k: Block, x: nat): nat {
    if k == [] || x == 0 || x < k[0].reclen || k[0].reclen == 0 then 0 else 1 + Index(k[1..], x - k[0].reclen)
  }

  lemma {:induction false} BeforeTail(k: Block, i: nat)
    requires 0 < i <= |k|
    ensures Before(k, i) == k[0].reclen + Before(k[1..], i - 1)
  {
    if i > 1 {
      BeforeTail(k, i - 1);
    }
  }

  lemma {:induction false} IndexOf(k: Block, i: nat)
    requires i < |k| && forall j :: 0 <= j < |k| ==> 0 < k[j].reclen
    ensures Index(k, Before(k, i)) == i
  {
    if i > 0 {
      BeforeTail(k, i);
      IndexOf(k[1..], i - 1);
    }
  }

  lemma InBlock(k: Block, i: nat)
    requires BlockOk(k) && i < |k|
    ensures Index(k, Before(k, i)) == i && 0 < k[i].reclen && Before(k, i) + k[i].reclen <= DIRBLKSIZ
    ensures Before(k, i) + k[i].reclen == DIRBLKSIZ <==> i + 1 == |k|
    ensures i > 0 ==> Before(k, i) == Before(k, i - 1) + k[i - 1].reclen && 0 < k[i - 1].reclen
  {
    BeforeMonotone(k, i + 1, |k|);
    IndexOf(k, i);
  }

  /** Offsets tell positions. */
  lemma OffsetIs(d: seq<Block>, b: nat, i: nat)
    requires Ok(d) && b < |d| && i < |d[b]|
    ensures BlockOk(d[b])
    ensures Offset(d, b, i) / DIRBLKSIZ == b && Offset(d, b, i) % DIRBLKSIZ == Before(d[b], i)
      && Index(d[b], Before(d[b], i)) == i
    ensures Before(d[b], i) + d[b][i].reclen <= DIRBLKSIZ
    ensures (Offset(d, b, i) + d[b][i].reclen) % DIRBLKSIZ == 0 <==> i + 1 == |d[b]|
  {
    hide BlockOk, Unique, Before, Index;
    assert BlockOk(d[b]);
    InBlock(d[b], i);
    Modulo(b, Before(d[b], i));
    Modulo(b, Before(d[b], i) + d[b][i].reclen);
  }

  lemma Modulo(b: nat, x: nat)
    requires x <= DIRBLKSIZ
    ensures (b * DIRBLKSIZ + x) % DIRBLKSIZ == if x == DIRBLKSIZ then 0 else x
    ensures x < DIRBLKSIZ ==> (b * DIRBLKSIZ + x) / DIRBLKSIZ == b
  {
  }

  /** The free part of a record. */
  function Room(r: Rec): int {
    r.reclen - Used(r)
  }

  /** The last known free space is where it is said to be. */
  ghost predicate HintOk(h: Dir, d: seq<Block>) {
    h.lastOff == 0 || exists b, i :: Live(d, b, i) && Offset(d, b, i) == h.lastOff && h.lastUnused <= Room(d[b][i])
  }

  /** A record with enough free space. */
  predicate Fits(d: seq<Block>, b: int, i: int, need: nat) {
    0 <= b < |d| && 0 <= i < |d[b]| && Room(d[b][i]) >= need
  }

  /** The first record with enough free space, where there is one, holds an entry. */
  ghost predicate FirstFitIsUsed(d: seq<Block>, need: nat) {
    exists b, i :: Fits(d, b, i, need) && d[b][i].ino != 0 && forall c, j :: Fits(d, c, j, need) ==>
      b < c || (b == c && i <= j)
  }

  ghost predicate InStep(h: Dir, d: seq<Block>) {
    Agrees(h.table, d) && HintOk(h, d)
  }

  ghost predicate AllOk(disk: map<nat, seq<Block>>) {
    forall x <- disk :: Ok(disk[x])
  }

  /** Every directory is in order, and what is cached of one agrees with it. */
  ghost predicate Good(disk: map<nat, seq<Block>>, dirs: map<nat, Dir>) {
    AllOk(disk) && forall x <- dirs :: x in disk && InStep(dirs[x], disk[x])
  }

  /** What is cached, but perhaps of `x`, is what was, or less. */
  ghost predicate Fewer(x: nat, dirs: map<nat, Dir>, was: map<nat, Dir>) {
    forall y <- dirs :: y != x ==> y in was && dirs[y] == was[y]
  }

  function Without(dirs: map<nat, Dir>, gone: set<nat>): map<nat, Dir> {
    map x | x in dirs && x !in gone :: dirs[x]
  }

  /** A change to one directory leaves the rest in step. */
  lemma StillGood(disk: map<nat, seq<Block>>, was: map<nat, Dir>, x: nat, d: seq<Block>, dirs: map<nat, Dir>)
    requires Good(disk, was) && Ok(d) && Fewer(x, dirs, was) && (x in dirs ==> InStep(dirs[x], d))
    ensures Good(disk[x := d], dirs)
  {
    forall y | y in dirs
      ensures y in disk[x := d] && InStep(dirs[y], disk[x := d][y])
    {
      assert y != x ==> y in was;
    }
  }

  /** Where direnter may make an entry. */
  ghost predicate Placed(d: seq<Block>, off: nat, b: nat, i: nat, name: string, ino: nat) {
    Fits(d, b, i, Dirsiz(name)) && off == Offset(d, b, i) && !Names(d, name) && ino != 0
  }

  /** A position before the `i`th record of block `b`. */
  predicate Earlier(c: int, j: int, b: int, i: int) {
    c < b || (c == b && j < i)
  }

  /** Every entry before the `i`th record of block `b`, and no other, is in a table. */
  ghost predicate SoFar(t: Table, d: seq<Block>, b: nat, i: nat) {
    && (forall c, j :: Live(d, c, j) && Earlier(c, j, b, i) ==> Cached(t, d, c, j))
    && (forall n <- t :: Seen(d, b, i, n))
  }

  ghost predicate Seen(d: seq<Block>, b: nat, i: nat, n: string) {
    exists c, j :: Live(d, c, j) && Earlier(c, j, b, i) && d[c][j].name == n
  }

  lemma OneMore(t: Table, d: seq<Block>, b: nat, i: nat)
    requires Ok(d) && SoFar(t, d, b, i) && b < |d| && i < |d[b]|
    ensures SoFar(if d[b][i].ino == 0 then t else Entered(t, d[b][i].name, True(d, b, i)), d, b, i + 1)
  {
    hide Ok, True, Cached, Seen;
    var name := d[b][i].name;
    var u := if d[b][i].ino == 0 then t else Entered(t, name, True(d, b, i));
    NewName(t, d, b, i);
    forall n | n in u
      ensures Seen(d, b, i + 1, n)
    {
      if n in t {
        SeenMore(d, b, i, b, i + 1, n);
      } else {
        SeenHere(d, b, i);
      }
    }
    CachedMore(t, d, b, i);
  }

  lemma SeenHere(d: seq<Block>, b: nat, i: nat)
    requires Live(d, b, i)
    ensures Seen(d, b, i + 1, d[b][i].name)
  {
    assert Earlier(b, i, b, i + 1);
  }

  lemma NewName(t: Table, d: seq<Block>, b: nat, i: nat)
    requires Ok(d) && SoFar(t, d, b, i) && b < |d| && i < |d[b]|
    ensures d[b][i].ino != 0 ==> d[b][i].name !in t
  {
    hide Ok, Cached;
    var name := d[b][i].name;
    if d[b][i].ino != 0 && name in t {
      assert Seen(d, b, i, name);
      var c, j :| Live(d, c, j) && Earlier(c, j, b, i) && d[c][j].name == name;
      OnlyAt(d, b, i, c, j);
    }
  }

  lemma CachedMore(t: Table, d: seq<Block>, b: nat, i: nat)
    requires Ok(d) && SoFar(t, d, b, i) && b < |d| && i < |d[b]| && (d[b][i].ino != 0 ==> d[b][i].name !in t)
    ensures forall c, j :: Live(d, c, j) && Earlier(c, j, b, i + 1) ==>
      Cached(if d[b][i].ino == 0 then t else Entered(t, d[b][i].name, True(d, b, i)), d, c, j)
  {
    hide Ok, True;
    forall c, j | Live(d, c, j) && Earlier(c, j, b, i + 1)
      ensures Cached(if d[b][i].ino == 0 then t else Entered(t, d[b][i].name, True(d, b, i)), d, c, j)
    {
      if c != b || j != i {
        assert Earlier(c, j, b, i) && Cached(t, d, c, j);
        if d[b][i].ino != 0 {
          OnlyAt(d, b, i, c, j);
        }
      }
    }
  }

  lemma SeenMore(d: seq<Block>, b: nat, i: nat, c: nat, j: nat, n: string)
    requires Seen(d, b, i, n) && (b < c || (b == c && i <= j))
    ensures Seen(d, c, j, n)
  {
    var x, y :| Live(d, x, y) && Earlier(x, y, b, i) && d[x][y].name == n;
    assert Earlier(x, y, c, j);
  }

  lemma NextBlock(t: Table, d: seq<Block>, b: nat)
    requires b < |d| && SoFar(t, d, b, |d[b]|)
    ensures SoFar(t, d, b + 1, 0)
  {
    forall n | n in t
      ensures Seen(d, b + 1, 0, n)
    {
      SeenMore(d, b, |d[b]|, b + 1, 0, n);
    }
    forall c, j | Live(d, c, j) && Earlier(c, j, b + 1, 0)
      ensures Cached(t, d, c, j)
    {
      assert Earlier(c, j, b, |d[b]|);
    }
  }

  lemma AllScanned(t: Table, d: seq<Block>)
    requires SoFar(t, d, |d|, 0)
    ensures Agrees(t, d)
  {
    forall n | n in t
      ensures Names(d, n)
    {
      assert Seen(d, |d|, 0, n);
      var c, j :| Live(d, c, j) && Earlier(c, j, |d|, 0) && d[c][j].name == n;
      NamedAt(d, c, j);
    }
    forall c, j | Live(d, c, j)
      ensures Cached(t, d, c, j)
    {
      assert Earlier(c, j, |d|, 0);
    }
  }

  class NameCache {
    var disk: map<nat, seq<Block>>    // the directories, by inode
    var dirs: map<nat, Dir>           // those of them that are cached
    const gone: nat -> set<nat>       // the directories a memory allocation throws out, if they are not in use
    var allocs: nat                   // how many there have been

    ghost predicate Valid()
      reads this
    {
      Good(disk, dirs)
    }

    constructor (disk: map<nat, seq<Block>>, gone: nat -> set<nat>)
      requires forall x <- disk :: Ok(disk[x])
      ensures Valid() && this.disk == disk && dirs == map[] && this.gone == gone && allocs == 0
    {
      this.disk, dirs, this.gone, allocs := disk, map[], gone, 0;
    }

    /** What dir_alloc does for room: some directories go, but not those in use. */
    method Evict(keep: set<nat>)
      modifies this`dirs, this`allocs
      ensures allocs == old(allocs) + 1 && dirs == Without(old(dirs), gone(old(allocs)) - keep)
    {
      dirs := Without(dirs, gone(allocs) - keep);
      allocs := allocs + 1;
    }

    /** directory_scan to fill a table. */
    static method Scan(d: seq<Block>) returns (t: Table)
      requires Ok(d)
      ensures Agrees(t, d)
    {
      hide Ok, Cached;
      t := map[];
      var b, cur := 0, 0;
      while b < |d|
        invariant b <= |d| && cur == b * DIRBLKSIZ && SoFar(t, d, b, 0)
      {
        FullBlock(d, b);
        var i, prev: nat := 0, 0;
        while i < |d[b]|
          invariant i <= |d[b]| && cur == Offset(d, b, i) && prev == (if i == 0 then 0 else d[b][i - 1].reclen)
            && SoFar(t, d, b, i)
        {
          var r := d[b][i];
          OneMore(t, d, b, i);
          if r.ino != 0 {
            t := Entered(t, r.name, Entry(r.ino, cur, r.reclen, prev));
          }
          prev := r.reclen;
          cur := cur + r.reclen;
          i := i + 1;
        }
        NextBlock(t, d, b);
        b := b + 1;
      }
      AllScanned(t, d);
    }

    static lemma FullBlock(d: seq<Block>, b: nat)
      requires Ok(d) && b < |d|
      ensures Before(d[b], 0) == 0 && Offset(d, b, |d[b]|) == (b + 1) * DIRBLKSIZ
    {
      assert BlockOk(d[b]);
    }

    /** directory_scan for `need` bytes of free space: the offset of the first record that has them, or the end. */
    static method FindSpace(d: seq<Block>, need: nat) returns (off: nat, ghost b: nat, ghost i: nat)
      requires Ok(d) && need > 0
      ensures b == |d| ==> off == |d| * DIRBLKSIZ && forall c, j :: !Fits(d, c, j, need)
      ensures b != |d| ==> Fits(d, b, i, need) && off == Offset(d, b, i) && forall c, j :: Fits(d, c, j, need) ==>
        b < c || (b == c && i <= j)
    {
      hide Ok;
      b, i, off := 0, 0, 0;
      var c := 0;
      while c < |d|
        invariant c == b <= |d| && off == b * DIRBLKSIZ && forall c', j :: Fits(d, c', j, need) ==> b <= c'
      {
        FullBlock(d, c);
        var j := 0;
        i := 0;
        while j < |d[c]|
          invariant j == i <= |d[c]| && off == Offset(d, c, j) && forall c', j' :: Fits(d, c', j', need) ==>
            b < c' || (b == c' && i <= j')
        {
          if d[c][j].reclen - Used(d[c][j]) >= need {
            return;
          }
          off := off + d[c][j].reclen;
          j, i := j + 1, i + 1;
        }
        c, b := c + 1, b + 1;
      }
    }

    /** The directories that are cached after a lookup in `x`. */
    ghost function Left(x: nat): set<nat>
      reads this
    {
      if x in dirs then dirs.Keys else dirs.Keys - gone(allocs) - gone(allocs + 1) + {x}
    }

    /** directory_file_lookup: the first entry on the chain of a name, in a table filled first if there is none. */
    method FileLookup(x: nat, name: string) returns (e: Option<Entry>)
      requires x in disk && AllOk(disk)
      modifies this`dirs, this`allocs
      ensures Fewer(x, dirs, old(dirs)) && x in dirs
      ensures if x in old(dirs) then dirs == old(dirs) && allocs == old(allocs)
        else InStep(dirs[x], disk[x]) && allocs == old(allocs) + 2
      ensures dirs.Keys == old(Left(x))
      ensures e == First(dirs[x].table, name)
    {
      if x !in dirs {
        Evict({});
        dirs := dirs[x := Dir(map[], 0, 0)];
        Evict({x});
        var t := Scan(disk[x]);
        dirs := dirs[x := dirs[x].(table := t)];
        assert dirs.Keys == old(Left(x));
      }
      e := First(dirs[x].table, name);
    }

    /** directory_file_enter: an entry in front of its chain, unless the directory goes while room is made for it. */
    method FileEnter(x: nat, name: string, e: Entry)
      requires AllOk(disk)
      modifies this`dirs, this`allocs
      ensures Fewer(x, dirs, old(dirs)) && (x in dirs <==> x in old(dirs) && x !in gone(old(allocs)))
      ensures x in dirs ==> dirs[x] == old(dirs)[x].(table := Entered(old(dirs)[x].table, name, e))
    {
      Evict({});
      if x in dirs {
        dirs := dirs[x := dirs[x].(table := Entered(dirs[x].table, name, e))];
      }
    }

    /**
     The last lines of direnter, and of dirremove: the entry after the one changed, at `b` and `i`, is told of the
     length before it.
     */
    method TellNext(x: nat, name: string, prev: nat, ghost b: nat, ghost i: nat)
      requires x in disk && AllOk(disk) && EntryIs(disk[x], b, i, name, prev)
      modifies this`dirs, this`allocs
      ensures Fewer(x, dirs, old(dirs)) && x in dirs
      ensures if x in old(dirs) then dirs[x] == old(dirs)[x].(table := Reprev(old(dirs)[x].table, name, prev))
        else InStep(dirs[x], disk[x])
    {
      hide InStep, Reprev;
      var e := FileLookup(x, name);
      if x !in old(dirs) {
        TellSame(dirs[x], disk[x], b, i, name, prev);
      }
      ReprevNone(dirs[x].table, name, prev);
      if e.Some? {
        dirs := dirs[x := dirs[x].(table := Reprev(dirs[x].table, name, prev))];
      }
    }

    /**
     direnter's choice of a record: the last known free space if it will do, else the first that will, else the end.
     */
    method Place(x: nat, need: nat) returns (off: nat, ghost b: nat, ghost i: nat)
      requires Valid() && x in disk && need > 0
      ensures b == |disk[x]| ==> off == |disk[x]| * DIRBLKSIZ
      ensures b != |disk[x]| ==>
        Fits(disk[x], b, i, need) && off == Offset(disk[x], b, i) && off < |disk[x]| * DIRBLKSIZ
      ensures x !in dirs ==> (b < |disk[x]| && disk[x][b][i].ino != 0 <==> FirstFitIsUsed(disk[x], need))
    {
      if x in dirs && dirs[x].lastOff != 0 && dirs[x].lastUnused >= need {
        off := dirs[x].lastOff;
        b, i :| Live(disk[x], b, i) && Offset(disk[x], b, i) == off && dirs[x].lastUnused <= Room(disk[x][b][i]);
      } else {
        off, b, i := FindSpace(disk[x], need);
      }
      if b < |disk[x]| {
        OffsetIs(disk[x], b, i);
      }
    }

    /** The lines of direnter that enter the name, once its record is on disk. */
    method Note(x: nat, name: string, e: Entry, unused: int)
      requires AllOk(disk)
      modifies this`dirs, this`allocs
      ensures Fewer(x, dirs, old(dirs)) && (x in dirs <==> x in old(dirs) && x !in gone(old(allocs)))
      ensures x in dirs ==> dirs[x] == Dir(Entered(old(dirs)[x].table, name, e), e.offset, unused)
    {
      if x in dirs {
        dirs := dirs[x := dirs[x].(lastOff := e.offset, lastUnused := unused)];
        FileEnter(x, name, e);
      }
    }

    /** The lines of direnter for an entry that gets a block of its own. */
    method EnterFresh(x: nat, name: string, ino: nat)
      requires Valid() && x in disk && !Names(disk[x], name) && ino != 0 && Dirsiz(name) <= DIRBLKSIZ
      modifies this
      ensures disk == old(disk)[x := old(disk)[x] + [[Rec(ino, name, DIRBLKSIZ)]]] && Valid()
    {
      hide Good, InStep, Ok, Agrees, Names, Dirsiz, AllOk;
      ghost var d, was := disk[x], dirs;
      var off := |disk[x]| * DIRBLKSIZ;
      FreshInStep(disk, dirs, x, name, ino);
      disk := disk[x := disk[x] + [[Rec(ino, name, DIRBLKSIZ)]]];
      Note(x, name, Entry(ino, off, DIRBLKSIZ, 0), DIRBLKSIZ - Dirsiz(name));
      StillGood(old(disk), was, x, d + [[Rec(ino, name, DIRBLKSIZ)]], dirs);
    }

    /** The lines of direnter for an entry that gets a record that is free. */
    method EnterFree(x: nat, off: nat, name: string, ino: nat, ghost b: nat, ghost i: nat)
      requires Valid() && x in disk && Placed(disk[x], off, b, i, name, ino) && disk[x][b][i].ino == 0
      modifies this
      ensures disk == old(disk)[x := Put(old(disk)[x], b, i, ino, name)] && Valid()
    {
      hide Good, InStep, Ok, Agrees, Names, Dirsiz, True, Offset;
      ghost var d, was := disk[x], dirs;
      FreeInStep(disk, dirs, x, off, b, i, name, ino);
      var k, j := off / DIRBLKSIZ, Index(disk[x][off / DIRBLKSIZ], off % DIRBLKSIZ);
      var spacefree := disk[x][k][j].reclen;
      var more := (off + spacefree) % DIRBLKSIZ != 0;
      var next := if more then disk[x][k][j + 1].name else "";
      disk := disk[x := Put(disk[x], k, j, ino, name)];
      Note(x, name, Entry(ino, off, spacefree, 0), spacefree - Dirsiz(name));
      ghost var h := if x in dirs then Some(dirs[x]) else None;
      if more {
        TellNext(x, next, spacefree, b, i + 1);
        if h.Some? {
          TellSame(h.value, disk[x], b, i + 1, next, spacefree);
        }
      }
      StillGood(old(disk), was, x, disk[x], dirs);
    }

    /** The lines that set the record length of an entry, at `b` and `i`, which on disk it has already. */
    method Shorten(x: nat, name: string, len: nat, ghost b: nat, ghost i: nat)
      requires x in disk && AllOk(disk) && Live(disk[x], b, i) && disk[x][b][i].name == name
        && disk[x][b][i].reclen == len
      modifies this`dirs, this`allocs
      ensures Fewer(x, dirs, old(dirs)) && x in dirs
      ensures if x in old(dirs) then dirs[x] == old(dirs)[x].(table := Relength(old(dirs)[x].table, name, len))
        else InStep(dirs[x], disk[x])
      ensures allocs == old(allocs) + if x in old(dirs) then 0 else 2
    {
      hide InStep, Relength;
      var e := FileLookup(x, name);
      if x !in old(dirs) {
        TellSame(dirs[x], disk[x], b, i, name, True(disk[x], b, i).prev);
      }
      RelengthNone(dirs[x].table, name, len);
      if e.Some? {
        dirs := dirs[x := dirs[x].(table := Relength(dirs[x].table, name, len))];
      }
    }

    /**
     The lines of direnter for an entry that gets the free part of a record that holds another. `panic` is for too
     little of it, which does not happen. A directory that was not cached is cached on the way, new entry included;
     unless it goes again at the third allocation the new entry is then entered a second time.
     */
    method EnterUsed(x: nat, off: nat, name: string, ino: nat, ghost b: nat, ghost i: nat) returns (panic: bool)
      requires Valid() && x in disk && Placed(disk[x], off, b, i, name, ino) && disk[x][b][i].ino != 0
      modifies this
      ensures !panic && Dirsiz(old(disk)[x][b][i].name) <= old(disk)[x][b][i].reclen
      ensures disk == old(disk)[x := Shared(old(disk)[x], b, i, name, ino)] && AllOk(disk) && Fewer(x, dirs, old(dirs))
      ensures Valid() <==> x in old(dirs) || x in gone(old(allocs) + 2)
      ensures !Valid() ==> x in dirs && Doubled(dirs[x].table, disk[x], name)
    {
      hide Good, InStep, Ok, Agrees, Names, Dirsiz, True, Offset, Used, Entered, Relength, Reprev, Split, Placed,
        Before;
      ghost var d, was := disk[x], dirs;
      GoodParts(disk, dirs, x);
      UsedInStep(disk, dirs, x, off, b, i, name, ino);
      SharedOk(d, off, b, i, name, ino);
      SharedAt(d, off, b, i, name, ino);
      var k, j := off / DIRBLKSIZ, Index(disk[x][off / DIRBLKSIZ], off % DIRBLKSIZ);
      var dsize := Dirsiz(disk[x][k][j].name);
      panic := disk[x][k][j].reclen - dsize < Dirsiz(name);
      if panic {
        return;
      }
      var ep, spacefree: nat := disk[x][k][j], disk[x][k][j].reclen - dsize;
      var more := (off + dsize + spacefree) % DIRBLKSIZ != 0;
      var next := if more then disk[x][k][j + 1].name else "";
      disk := disk[x := disk[x][k := Split(disk[x][k], j, dsize, Rec(ino, name, spacefree))]];
      ghost var e := disk[x];
      AllStillOk(old(disk), x, e);
      Shorten(x, ep.name, dsize, b, i);
      ghost var h := dirs[x];
      Note(x, name, Entry(ino, off + dsize, spacefree, dsize), spacefree - Dirsiz(name));
      ghost var kept := x in dirs;
      if more {
        TellNext(x, next, spacefree, b, i + 2);
      }
      if x in was || !kept {
        if x in was {
          SharedInStep(was[x], d, off, b, i, name, ino);
        }
        StillGood(old(disk), was, x, e, dirs);
      } else {
        TrueShared(d, off, b, i, name, ino);
        Twice(h, e, b, i + 1, name, Entry(ino, off + dsize, spacefree, dsize), next, spacefree);
        DoubledTwice(dirs[x].table, e, name);
        NotGood(disk, dirs, x, name);
      }
    }

    /**
     direnter, for a name the directory does not have. The directory then has it; the panic does not come about; and
     the cache is in step again, except in one case: the directory was not cached any more, the first record with room
     for the entry holds another, and the allocation for the entry, the third, does not throw the directory out once
     more. Then the new name is in the table twice.
     */
    method Direnter(x: nat, name: string, ino: nat) returns (panic: bool)
      requires Valid() && x in disk && !Names(disk[x], name) && ino != 0 && |name| <= MAXNAMLEN
      modifies this
      ensures !panic && AllOk(disk) && disk.Keys == old(disk.Keys) && forall y <- disk :: y != x ==>
        disk[y] == old(disk)[y]
      ensures forall m, n: nat :: Has(disk[x], m, n) <==> Has(old(disk)[x], m, n) || (m == name && n == ino)
      ensures Valid() <==> x in old(dirs) || !FirstFitIsUsed(old(disk)[x], Dirsiz(name)) || x in gone(old(allocs) + 2)
      ensures !Valid() ==> x in dirs && Doubled(dirs[x].table, disk[x], name)
    {
      hide Good, InStep, Ok, Names, Offset, Used, Split, Fits, Room, Before, Has, Dirsiz, FirstFitIsUsed;
      ghost var d := disk[x];
      GoodParts(disk, dirs, x);
      NameFits(name);
      panic := false;
      var off, b, i := Place(x, Dirsiz(name));
      forall m, n: nat
        ensures ino != 0 ==> Has(d + [[Rec(ino, name, DIRBLKSIZ)]], m, n) <==> Has(d, m, n) || (m == name && n == ino)
      {
        HasAfterAppend(d, ino, name, m, n);
      }
      if off == |disk[x]| * DIRBLKSIZ {
        EnterFresh(x, name, ino);
        GoodParts(disk, dirs, x);
      } else {
        HasPlaced(d, off, b, i, name, ino);
        PlacedAt(d, off, b, i, name, ino);
        if disk[x][off / DIRBLKSIZ][Index(disk[x][off / DIRBLKSIZ], off % DIRBLKSIZ)].ino == 0 {
          EnterFree(x, off, name, ino, b, i);
          GoodParts(disk, dirs, x);
        } else {
          panic := EnterUsed(x, off, name, ino, b, i);
        }
      }
    }

    /** directory_file_remove: the first entry on the chain of a name, and no other, is taken off it. */
    method FileRemove(x: nat, name: string)
      requires x in dirs && x in disk && AllOk(disk)
      modifies this`dirs, this`allocs
      ensures Fewer(x, dirs, old(dirs)) && x in dirs
        && dirs[x] == old(dirs)[x].(table := Dropped(old(dirs)[x].table, name))
    {
      var e := FileLookup(x, name);
      DroppedNone(dirs[x].table, name);
      if e.Some? {
        dirs := dirs[x := dirs[x].(table := Dropped(dirs[x].table, name))];
      }
    }

    /** The lines of dirremove for the first record of a block. */
    method FreeFirst(x: nat, name: string, off: nat, ghost b: nat)
      requires x in disk && x in dirs && AllOk(disk) && Ok(disk[x]) && InStep(dirs[x], disk[x]) && Live(disk[x], b, 0)
        && disk[x][b][0].name == name && off == Offset(disk[x], b, 0)
      modifies this
      ensures disk == old(disk)[x := Put(old(disk)[x], b, 0, 0, name)] && Ok(disk[x]) && AllOk(disk)
      ensures Fewer(x, dirs, old(dirs)) && x in dirs && InStep(dirs[x], disk[x])
      ensures forall m, n: nat :: Has(disk[x], m, n) <==> Has(old(disk)[x], m, n) && m != name
    {
      hide InStep, Ok, Has, Offset, Dropped, AllOk, Before;
      EntryFacts(disk[x], b, 0);
      FreedInStep(disk, dirs[x], x, b, name);
      var k := off / DIRBLKSIZ;
      var j := Index(disk[x][k], off % DIRBLKSIZ);
      disk := disk[x := Put(disk[x], k, j, 0, name)];
      dirs := dirs[x := dirs[x].(lastOff := 0)];
      FileRemove(x, name);
    }

    /**
     The lines of dirremove for a record that goes to the one before it; false if that has not the length expected.
     */
    method GiveUp(x: nat, name: string, off: nat, prev: nat, reclen: nat, ghost b: nat, ghost i: nat) returns (ok: bool)
      requires x in disk && x in dirs && AllOk(disk) && Ok(disk[x]) && Live(disk[x], b, i) && 0 < i
        && disk[x][b][i].name == name
      requires off == Offset(disk[x], b, i) && prev == disk[x][b][i - 1].reclen && reclen == disk[x][b][i].reclen
      modifies this
      ensures ok && disk == old(disk)[x := old(disk)[x][b := Joined(old(disk)[x][b], i)]] && Ok(disk[x]) && AllOk(disk)
      ensures Fewer(x, dirs, old(dirs)) && x in dirs
      ensures dirs[x] == old(dirs)[x].(table := JoinedTable(old(dirs)[x].table, old(disk)[x], b, i), lastOff := 0)
      ensures forall m, n: nat :: Has(disk[x], m, n) <==> Has(old(disk)[x], m, n) && m != name
    {
      hide InStep, Ok, Has, Offset, Dropped, Relength, Reprev, Joined, Before, Used, AllOk;
      EntryFacts(disk[x], b, i);
      var k := (off - prev) / DIRBLKSIZ;
      var j := Index(disk[x][k], (off - prev) % DIRBLKSIZ);
      ok := disk[x][k][j].reclen == prev;
      if !ok {
        return;
      }
      var ep := disk[x][k][j].(reclen := prev + reclen);
      var more := (off + reclen) % DIRBLKSIZ != 0;
      var next := if more then disk[x][k][j + 2].name else "";
      JoinedDisk(disk, x, b, i);
      JoinedNeighbours(disk[x], b, i);
      disk := disk[x := disk[x][k := Joined(disk[x][k], j + 1)]];
      if ep.ino != 0 {
        Shorten(x, ep.name, ep.reclen, b, i - 1);
      }
      if more {
        TellNext(x, next, ep.reclen, b, i);
      }
      dirs := dirs[x := dirs[x].(lastOff := 0)];
      FileRemove(x, name);
    }

    /**
     dirremove.  The name is gone, if it was there; the cache stays in step and so never shows the mismatch that would
     make it start again; and the inode the name was for is not cached, so that it can become another directory. Of a
     name that is in the table twice, the second entry is left.
     */
    method Dirremove(x: nat, name: string) returns (r: Removal, ghost was: nat)
      requires x in disk && (Valid() || (AllOk(disk) && x in dirs && Doubled(dirs[x].table, disk[x], name)))
      modifies this
      ensures old(Valid()) ==> Valid()
      ensures AllOk(disk) && r != Mismatched && (r == Removed <==> Names(old(disk)[x], name))
      ensures disk.Keys == old(disk.Keys) && forall y <- disk :: y != x ==> disk[y] == old(disk)[y]
      ensures r == NoSuchFile ==> disk == old(disk)
      ensures r == Removed ==> Has(old(disk)[x], name, was) && was !in dirs
      ensures r == Removed ==> forall m, n: nat :: Has(disk[x], m, n) <==> Has(old(disk)[x], m, n) && m != name
      ensures !old(Valid()) ==> r == Removed && (was != x ==>
        x in dirs && First(dirs[x].table, name).Some? && First(dirs[x].table, name).value.ino == was)
    {
      hide Good, InStep, Ok, Names, Offset, Joined, Before, Has, First, AllOk, Doubled, DoubledAt, JoinedTable;
      ghost var d, good := disk[x], Valid();
      if good {
        GoodParts(disk, dirs, x);
      }
      OkOf(disk, x);
      was := 0;
      var file := FileLookup(x, name);
      ghost var u, b: nat, i: nat, t: Table := dirs[x].table, 0, 0, map[];
      if good {
        FewerGood(disk, old(dirs), x, dirs);
        Truth(dirs[x], d, name);
        if file.Some? {
          b, i :| Live(d, b, i) && d[b][i].name == name && file.value == True(d, b, i);
          NamedAt(d, b, i);
        }
      } else {
        t, b, i := DoubledWhere(u, d, name);
        NamedAt(d, b, i);
      }
      if file.None? {
        return NoSuchFile, was;
      }
      var off, prev, ino, reclen := file.value.offset, file.value.prev, file.value.ino, file.value.reclen;
      was := ino;
      EntryFacts(d, b, i);
      ghost var dirs0 := dirs;
      if prev == 0 {
        FreeFirst(x, name, off, b);
      } else {
        var ok := GiveUp(x, name, off, prev, reclen, b, i);
        if !ok {
          return Mismatched, was;
        }
        if good {
          JoinedInStep(old(disk), dirs0[x], x, b, i);
        } else {
          SecondEntryAnswers(t, u, d, b, i, name);
        }
      }
      if good {
        StillGood(old(disk), dirs0, x, disk[x], dirs);
        LessIsGood(disk, dirs, ino);
      }
      dirs := dirs - {ino};
      r := Removed;
    }

    /**
     dirrewrite.  The name is for the inode given, if the directory has it.  It is that inode, not the one the name was
     for, whose own names are thrown out of the cache.
     */
    method Dirrewrite(x: nat, name: string, ino: nat) returns (found: bool)
      requires Valid() && x in disk && ino != 0
      modifies this
      ensures Valid() && (found <==> Names(old(disk)[x], name))
      ensures disk.Keys == old(disk.Keys) && forall y <- disk :: y != x ==> disk[y] == old(disk)[y]
      ensures forall m, n: nat :: Has(disk[x], m, n) <==>
        if found && m == name then n == ino else Has(old(disk)[x], m, n)
      ensures found ==> ino !in dirs
      ensures Fewer(x, dirs, old(dirs)) && dirs.Keys == old(Left(x)) - if found then {ino} else {}
    {
      hide Good, InStep, Ok, Names, Offset, Before, Has, First, AllOk;
      ghost var d := disk[x];
      GoodParts(disk, dirs, x);
      var file := FileLookup(x, name);
      FewerGood(disk, old(dirs), x, dirs);
      Truth(dirs[x], d, name);
      found := file.Some?;
      if found {
        ghost var b, i :| Live(d, b, i) && d[b][i].name == name && file.value == True(d, b, i);
        EntryFacts(d, b, i);
        ghost var dirs0 := dirs;
        RewrittenInStep(disk, dirs[x], x, b, i, ino);
        var k := file.value.offset / DIRBLKSIZ;
        var j := Index(disk[x][k], file.value.offset % DIRBLKSIZ);
        dirs := dirs[x := dirs[x].(table := Reino(dirs[x].table, name, ino))];
        disk := disk[x := Put(disk[x], k, j, ino, name)];
        StillGood(old(disk), dirs0, x, disk[x], dirs);
        LessIsGood(disk, dirs, ino);
        dirs := dirs - {ino};
      }
    }

    /** A directory that was freed, and its inode used for another. */
    method Reuse(x: nat, d: seq<Block>)
      requires AllOk(disk) && x in disk && Ok(d)
      modifies this`disk
      ensures disk == old(disk)[x := d] && AllOk(disk)
    {
      AllStillOk(disk, x, d);
      disk := disk[x := d];
    }

    /** dirremove, and then another directory under the inode the name was for: the cache stays in step. */
    method RemoveAndReuse(x: nat, name: string, ino: nat, d: seq<Block>)
      requires Valid() && x in disk && ino in disk && ino != x && Has(disk[x], name, ino) && Ok(d)
      modifies this
      ensures Valid() && ino in disk && disk[ino] == d && x in disk && !Names(disk[x], name)
    {
      OneInode(disk[x], name);
      var r, was := Dirremove(x, name);
      hide Ok, InStep, Has;
      Reuse(ino, d);
    }

    /**
     When the cache stays in step as a name is rewritten from inode `was` to `ino` and then another directory comes
     under `was`: exactly if `was` is not cached by then, or is the new inode too, or the new directory happens to have
     in it what the table says.
     */
    ghost predicate Outlived(x: nat, ino: nat, was: nat, d: seq<Block>)
      reads this
    {
      was !in Left(x) || was == ino || (was in dirs && InStep(dirs[was], d))
    }

    /** dirrewrite, and then another directory under the inode the name was for. */
    method RewriteAndReuse(x: nat, name: string, ino: nat, was: nat, d: seq<Block>)
      requires Valid() && x in disk && was in disk && was != x && ino != 0 && Has(disk[x], name, was) && Ok(d)
      modifies this
      ensures x in disk && Has(disk[x], name, ino) && was in disk && disk[was] == d && AllOk(disk)
      ensures Valid() <==> old(Outlived(x, ino, was, d))
      ensures Fewer(x, dirs, old(dirs)) && dirs.Keys == old(Left(x)) - {ino}
    {
      hide Good, InStep, Ok, AllOk, Agrees, Has, HintOk, Names;
      ghost var dirs0, disk0 := dirs, disk;
      GoodParts(disk, dirs, was);
      OneName(disk[x], name, was);
      var found := Dirrewrite(x, name, ino);
      GoodParts(disk, dirs, was);
      ghost var disk1 := disk;
      Reuse(was, d);
      ReusedIs(disk1, dirs, was, d);
    }

    /** It answers then with an entry of the old directory, for each name of that which the new one does not have. */
    method AnswersForOld(x: nat, name: string, ino: nat, was: nat, d: seq<Block>, n: string) returns (e: Option<Entry>)
      requires Valid() && x in disk && was in disk && was != x && ino != 0 && Has(disk[x], name, was) && Ok(d)
      requires was in dirs && was in Left(x) && was != ino && Names(disk[was], n) && !Names(d, n)
      modifies this
      ensures AllOk(disk) && !Valid() && was in disk && disk[was] == d && Stale(d, n, e)
      ensures Has(old(disk)[was], n, e.value.ino)
    {
      hide Good, InStep, Ok, AllOk, Has, Names, Stale, First;
      GoodParts(disk, dirs, was);
      StillKnown(dirs[was], disk[was], n);
      StaleOnce(dirs[was], d, n);
      RewriteAndReuse(x, name, ino, was, d);
      e := FileLookup(was, n);
    }

    /** It stays in step whatever the new directory is, exactly if `was` is not cached by then, or is the new inode. */
    lemma OutlivedByAny(x: nat, ino: nat, was: nat)
      ensures (forall d :: Ok(d) ==> Outlived(x, ino, was, d)) <==> was !in Left(x) || was == ino
    {
      hide Ok, InStep;
      if was in dirs {
        NeverForAll(dirs[was]);
      }
      assert Ok([]) by { EmptyOk(); }
    }

    /**
     dirremove of a name that direnter has left twice in the table: it is gone from the directory, and still found in
     the cache, for the inode it had.
     */
    method RemoveDoubled(x: nat, name: string) returns (e: Option<Entry>, ghost ino: nat)
      requires AllOk(disk) && x in disk && x in dirs && Doubled(dirs[x].table, disk[x], name) && !Has(disk[x], name, x)
      modifies this
      ensures Has(old(disk)[x], name, ino) && x in disk && Stale(disk[x], name, e) && e.value.ino == ino
    {
      hide Ok, AllOk, InStep, Has, Names, Doubled, First, Stale, Good;
      DoubledTwice(dirs[x].table, disk[x], name);
      NotGood(disk, dirs, x, name);
      var r;
      r, ino := Dirremove(x, name);
      e := FileLookup(x, name);
      StaleIs(disk[x], name, e);
    }

    /** namei's use of the cache: the inode a name is for, or none if the directory does not have it. */
    method Namei(x: nat, name: string) returns (r: Option<Entry>)
      requires Valid() && x in disk
      modifies this`dirs, this`allocs
      ensures Valid() && (r.None? <==> !Names(disk[x], name))
      ensures r.Some? ==>
        exists b, i :: Live(disk[x], b, i) && disk[x][b][i].name == name && r.value == True(disk[x], b, i)
    {
      GoodParts(disk, dirs, x);
      r := FileLookup(x, name);
      FewerGood(disk, old(dirs), x, dirs);
      hide Good, InStep;
      Truth(dirs[x], disk[x], name);
    }
  }

  lemma RewrittenInStep(disk: map<nat, seq<Block>>, h: Dir, x: nat, b: nat, i: nat, ino: nat)
    requires AllOk(disk) && x in disk && InStep(h, disk[x]) && Live(disk[x], b, i) && ino != 0
    ensures
      var d: seq<Block> := disk[x];
      var e := Put(d, b, i, ino, d[b][i].name);
      && Ok(e) && InStep(h.(table := Reino(h.table, d[b][i].name, ino)), e)
      && forall m, n: nat :: Has(e, m, n) <==> if m == d[b][i].name then n == ino else Has(d, m, n)
  {
    hide Ok, Agrees, Reino, Has, Used, Before;
    var d: seq<Block> := disk[x];
    var e := Put(d, b, i, ino, d[b][i].name);
    AgreesRewritten(h.table, d, b, i, ino);
    SameHint(h, d, b, i, ino, h.(table := Reino(h.table, d[b][i].name, ino)));
    forall m, n: nat
      ensures Has(e, m, n) <==> if m == d[b][i].name then n == ino else Has(d, m, n)
    {
      HasAfterPut(d, b, i, ino, d[b][i].name, m, n);
    }
  }

  lemma SameHint(h: Dir, d: seq<Block>, b: nat, i: nat, ino: nat, g: Dir)
    requires HintOk(h, d) && Live(d, b, i) && ino != 0 && g.lastOff == h.lastOff && g.lastUnused == h.lastUnused
    ensures HintOk(g, Put(d, b, i, ino, d[b][i].name))
  {
    if h.lastOff != 0 {
      var c, j :| Live(d, c, j) && Offset(d, c, j) == h.lastOff && h.lastUnused <= Room(d[c][j]);
      TrueAfterPut(d, b, i, ino, d[b][i].name, c, j);
      assert Live(Put(d, b, i, ino, d[b][i].name), c, j);
    }
  }

  datatype Removal = Removed | NoSuchFile | Mismatched

  lemma GoodParts(disk: map<nat, seq<Block>>, dirs: map<nat, Dir>, x: nat)
    requires Good(disk, dirs) && x in disk
    ensures Ok(disk[x]) && AllOk(disk) && (x in dirs ==> InStep(dirs[x], disk[x]))
  {
  }

  lemma AllStillOk(disk: map<nat, seq<Block>>, x: nat, d: seq<Block>)
    requires AllOk(disk) && Ok(d)
    ensures AllOk(disk[x := d])
  {
  }

  /** The entry at a position has a name, and a record before it of some length. */
  ghost predicate EntryIs(d: seq<Block>, b: nat, i: nat, name: string, prev: nat) {
    Live(d, b, i) && d[b][i].name == name && True(d, b, i).prev == prev
  }

  /** To tell an entry that is in step the truth changes nothing. */
  lemma TellSame(h: Dir, d: seq<Block>, b: nat, i: nat, name: string, prev: nat)
    requires InStep(h, d) && EntryIs(d, b, i, name, prev)
    ensures Reprev(h.table, name, prev) == h.table && Relength(h.table, name, d[b][i].reclen) == h.table
    ensures h.(table := h.table) == h
  {
    ReprevSame(h.table, d, b, i);
  }

  lemma ReprevNone(t: Table, name: string, prev: nat)
    ensures First(t, name).None? ==> Reprev(t, name, prev) == t
  {
  }

  lemma RelengthNone(t: Table, name: string, len: nat)
    ensures First(t, name).None? ==> Relength(t, name, len) == t
  {
  }

  /** An entry entered into a table that has it already is there twice, whatever its neighbour is told. */
  lemma Twice(h: Dir, d: seq<Block>, b: nat, i: nat, name: string, e: Entry, next: string, prev: nat)
    requires InStep(h, d) && Live(d, b, i) && d[b][i].name == name && e == True(d, b, i) && 0 < i
    ensures Doubled(Entered(h.table, name, e), d, name)
    ensures EntryIs(d, b, i + 1, next, prev) && next != name ==>
      Doubled(Reprev(Entered(h.table, name, e), next, prev), d, name)
  {
    assert DoubledAt(h.table, Entered(h.table, name, e), d, b, i, name);
    if EntryIs(d, b, i + 1, next, prev) && next != name {
      ReprevSame(h.table, d, b, i + 1);
      ReprevPast(h.table, name, e, next, prev);
      assert DoubledAt(h.table, Reprev(Entered(h.table, name, e), next, prev), d, b, i, name);
    }
  }

  lemma ReprevPast(t: Table, name: string, e: Entry, next: string, prev: nat)
    requires next != name && Reprev(t, next, prev) == t
    ensures Reprev(Entered(t, name, e), next, prev) == Entered(t, name, e)
  {
    var u := Entered(t, name, e);
    if Chain(u, next) != [] {
      assert t[next] == [t[next][0].(prev := prev)] + t[next][1..];
    }
  }

  /**
   A table that would agree with a directory, but for the entry at a position, not the first of its block, being there
   twice.
   */
  ghost predicate DoubledAt(t: Table, u: Table, d: seq<Block>, b: nat, i: nat, name: string) {
    Agrees(t, d) && Live(d, b, i) && 0 < i && d[b][i].name == name && u == Entered(t, name, True(d, b, i))
  }

  ghost predicate Doubled(u: Table, d: seq<Block>, name: string) {
    exists t, b, i :: DoubledAt(t, u, d, b, i, name)
  }

  lemma DoubledTwice(u: Table, d: seq<Block>, name: string)
    requires Doubled(u, d, name)
    ensures name in u && |u[name]| == 2
  {
    var t, b, i :| DoubledAt(t, u, d, b, i, name);
    assert Cached(t, d, b, i);
  }

  lemma NotGood(disk: map<nat, seq<Block>>, dirs: map<nat, Dir>, x: nat, name: string)
    requires x in dirs && x in disk && name in dirs[x].table && |dirs[x].table[name]| == 2
    ensures !Good(disk, dirs)
  {
    if Good(disk, dirs) {
      Found(dirs[x].table, disk[x], name);
    }
  }

  lemma PlacedAt(d: seq<Block>, off: nat, b: nat, i: nat, name: string, ino: nat)
    requires Ok(d) && Placed(d, off, b, i, name, ino)
    ensures off / DIRBLKSIZ == b && Index(d[b], off % DIRBLKSIZ) == i && BlockOk(d[b])
    ensures (off + d[b][i].reclen) % DIRBLKSIZ == 0 <==> i + 1 == |d[b]|
  {
    OffsetIs(d, b, i);
  }

  lemma FreeInStep(disk: map<nat, seq<Block>>, dirs: map<nat, Dir>, x: nat, off: nat, b: nat, i: nat, name: string,
        ino: nat)
    requires Good(disk, dirs) && x in disk && Placed(disk[x], off, b, i, name, ino) && disk[x][b][i].ino == 0
    ensures
      var d: seq<Block> := disk[x];
      var e := Put(d, b, i, ino, name);
      && i == 0 && off / DIRBLKSIZ == b && Index(d[b], off % DIRBLKSIZ) == i
      && ((off + d[b][i].reclen) % DIRBLKSIZ == 0 <==> i + 1 == |d[b]|)
      && Ok(e) && AllOk(disk[x := e])
      && (i + 1 < |d[b]| ==> EntryIs(e, b, i + 1, d[b][i + 1].name, d[b][i].reclen))
      && (x in dirs ==> InStep(Dir(Entered(dirs[x].table, name, Entry(ino, off, d[b][i].reclen, 0)), off,
          d[b][i].reclen - Dirsiz(name)), e))
  {
    var d: seq<Block> := disk[x];
    var e := Put(d, b, i, ino, name);
    PlacedAt(d, off, b, i, name, ino);
    PutOk(d, b, i, ino, name);
    if x in dirs {
      AgreesFilled(dirs[x].table, d, b, ino, name);
      TrueAfterPut(d, b, i, ino, name, b, i);
      assert Live(e, b, i);
    }
  }

  lemma UsedInStep(disk: map<nat, seq<Block>>, dirs: map<nat, Dir>, x: nat, off: nat, b: nat, i: nat, name: string,
        ino: nat)
    requires Good(disk, dirs) && x in disk && Placed(disk[x], off, b, i, name, ino) && disk[x][b][i].ino != 0
    ensures
      var d: seq<Block> := disk[x];
      var a, len := d[b][i].name, Dirsiz(d[b][i].name);
      && b < |d| && off / DIRBLKSIZ == b && Index(d[b], off % DIRBLKSIZ) == i
      && ((off + d[b][i].reclen) % DIRBLKSIZ == 0 <==> i + 1 == |d[b]|)
      && len + Dirsiz(name) <= d[b][i].reclen
  {
    PlacedAt(disk[x], off, b, i, name, ino);
  }

  /** The directory after an entry was made at a place. */
  function Shared(d: seq<Block>, b: nat, i: nat, name: string, ino: nat): seq<Block>
    requires b < |d| && i < |d[b]| && Dirsiz(d[b][i].name) <= d[b][i].reclen
  {
    d[b := Split(d[b], i, Dirsiz(d[b][i].name), Rec(ino, name, d[b][i].reclen - Dirsiz(d[b][i].name)))]
  }

  lemma SharedOk(d: seq<Block>, off: nat, b: nat, i: nat, name: string, ino: nat)
    requires Ok(d) && Placed(d, off, b, i, name, ino) && d[b][i].ino != 0
    ensures Dirsiz(d[b][i].name) <= d[b][i].reclen && Ok(Shared(d, b, i, name, ino))
  {
    var len := Dirsiz(d[b][i].name);
    var r := Rec(ino, name, d[b][i].reclen - len);
    assert BlockOk(d[b]);
    hide BlockOk, Unique, Before, Split;
    SplitOk(d[b], i, len, r);
    UniqueAfterSplit(d, b, i, len, r);
  }

  lemma SharedAt(d: seq<Block>, off: nat, b: nat, i: nat, name: string, ino: nat)
    requires Ok(d) && Placed(d, off, b, i, name, ino) && d[b][i].ino != 0 && Dirsiz(d[b][i].name) <= d[b][i].reclen
    ensures
      var len := Dirsiz(d[b][i].name);
      var free := d[b][i].reclen - len;
      var e := Shared(d, b, i, name, ino);
      && Live(e, b, i) && e[b][i].name == d[b][i].name && e[b][i].reclen == len
      && Live(e, b, i + 1) && e[b][i + 1] == Rec(ino, name, free) && Offset(e, b, i + 1) == off + len
      && (i + 1 < |d[b]| ==> EntryIs(e, b, i + 2, d[b][i + 1].name, free))
  {
    assert BlockOk(d[b]);
    var len := Dirsiz(d[b][i].name);
    var r := Rec(ino, name, d[b][i].reclen - len);
    TrueAfterSplit(d, b, i, len, r, b, i + 1);
    if i + 1 < |d[b]| {
      TrueAfterSplit(d, b, i, len, r, b, i + 2);
    }
  }

  lemma TrueShared(d: seq<Block>, off: nat, b: nat, i: nat, name: string, ino: nat)
    requires Ok(d) && Placed(d, off, b, i, name, ino) && d[b][i].ino != 0 && Dirsiz(d[b][i].name) <= d[b][i].reclen
    ensures
      var len := Dirsiz(d[b][i].name);
      var e := Shared(d, b, i, name, ino);
      && b < |e| && i + 1 < |e[b]| && True(e, b, i + 1) == Entry(ino, off + len, d[b][i].reclen - len, len)
      && (i + 1 < |d[b]| ==> d[b][i + 1].name != name)
  {
    TrueAfterSplit(d, b, i, Dirsiz(d[b][i].name), Rec(ino, name, d[b][i].reclen - Dirsiz(d[b][i].name)), b, i + 1);
    assert BlockOk(d[b]);
    if i + 1 < |d[b]| {
      NamedAt(d, b, i + 1);
    }
  }

  lemma SharedInStep(h: Dir, d: seq<Block>, off: nat, b: nat, i: nat, name: string, ino: nat)
    requires InStep(h, d) && Ok(d) && Placed(d, off, b, i, name, ino) && d[b][i].ino != 0
      && Dirsiz(d[b][i].name) <= d[b][i].reclen
    ensures
      var len := Dirsiz(d[b][i].name);
      var free := d[b][i].reclen - len;
      var u := Entered(Relength(h.table, d[b][i].name, len), name, Entry(ino, off + len, free, len));
      var v := if i + 1 < |d[b]| then Reprev(u, d[b][i + 1].name, free) else u;
      InStep(Dir(v, off + len, free - Dirsiz(name)), Shared(d, b, i, name, ino))
  {
    hide Ok, Names, Placed, Fits, Room, Used, Dirsiz, Agrees, HintOk, InStep, True, Offset, Split, Entered, Relength,
      Reprev;
    SharedParts(d, off, b, i, name, ino);
    var len := Dirsiz(d[b][i].name);
    var r := Rec(ino, name, d[b][i].reclen - len);
    SharedAt(d, off, b, i, name, ino);
    InStepParts(h, d);
    AgreesSplit(h.table, d, b, i, len, r);
    var v := SplitTable(h.table, d, b, i, len, r);
    MadeInStep(v, Shared(d, b, i, name, ino), b, i + 1);
  }

  lemma InStepParts(h: Dir, d: seq<Block>)
    requires InStep(h, d)
    ensures Agrees(h.table, d)
  {
  }

  lemma MadeInStep(t: Table, d: seq<Block>, b: nat, i: nat)
    requires Agrees(t, d) && Live(d, b, i)
    ensures InStep(Dir(t, Offset(d, b, i), d[b][i].reclen - Dirsiz(d[b][i].name)), d)
  {
  }

  lemma SharedParts(d: seq<Block>, off: nat, b: nat, i: nat, name: string, ino: nat)
    requires Ok(d) && Placed(d, off, b, i, name, ino) && d[b][i].ino != 0
    ensures Live(d, b, i) && !Names(d, name) && ino != 0 && off == Offset(d, b, i) && 0 < Dirsiz(d[b][i].name)
    ensures Used(d[b][i]) <= Dirsiz(d[b][i].name)
      && Used(Rec(ino, name, d[b][i].reclen)) <= d[b][i].reclen - Dirsiz(d[b][i].name)
    ensures Used(Rec(ino, name, d[b][i].reclen - Dirsiz(d[b][i].name))) == Used(Rec(ino, name, d[b][i].reclen))
  {
  }

  lemma FreshInStep(disk: map<nat, seq<Block>>, dirs: map<nat, Dir>, x: nat, name: string, ino: nat)
    requires Good(disk, dirs) && x in disk && !Names(disk[x], name) && ino != 0 && Dirsiz(name) <= DIRBLKSIZ
    ensures
      var d: seq<Block> := disk[x];
      var e := d + [[Rec(ino, name, DIRBLKSIZ)]];
      && Ok(d) && Ok(e) && AllOk(disk[x := e])
      && (x in dirs ==> InStep(Dir(Entered(dirs[x].table, name, Entry(ino, |d| * DIRBLKSIZ, DIRBLKSIZ, 0)),
          |d| * DIRBLKSIZ, DIRBLKSIZ - Dirsiz(name)), e))
  {
    var d: seq<Block> := disk[x];
    var e := d + [[Rec(ino, name, DIRBLKSIZ)]];
    AppendOk(d, ino, name);
    if x in dirs {
      AgreesAppended(dirs[x].table, d, ino, name);
      assert Before(e[|d|], 0) == 0;
      assert Live(e, |d|, 0);
    }
  }

  function First(t: Table, name: string): Option<Entry> {
    if Chain(t, name) == [] then None else Some(t[name][0])
  }

  /** An entry of a table that agrees is not changed by being told the truth. */
  lemma ReprevSame(t: Table, d: seq<Block>, b: nat, i: nat)
    requires Agrees(t, d) && Live(d, b, i)
    ensures Reprev(t, d[b][i].name, True(d, b, i).prev) == t && Relength(t, d[b][i].name, d[b][i].reclen) == t
  {
    assert Cached(t, d, b, i);
    var n := d[b][i].name;
    assert [t[n][0]] + t[n][1..] == t[n] && t[n := t[n]] == t;
  }

  /** A table that agrees with a directory answers for it. */
  lemma Found(t: Table, d: seq<Block>, name: string)
    requires Agrees(t, d)
    ensures name in t <==> Names(d, name)
    ensures name in t ==>
      |t[name]| == 1 && exists b, i :: Live(d, b, i) && d[b][i].name == name && t[name][0] == True(d, b, i)
  {
    if Names(d, name) {
      var x: nat :| Has(d, name, x);
      var b, i :| Live(d, b, i) && d[b][i].name == name && d[b][i].ino == x;
      assert Cached(t, d, b, i);
    }
  }

  lemma NameFits(name: string)
    requires |name| <= MAXNAMLEN
    ensures 0 < Dirsiz(name) <= DIRBLKSIZ
  {
  }

  lemma HasPlaced(d: seq<Block>, off: nat, b: nat, i: nat, name: string, ino: nat)
    requires Ok(d) && Fits(d, b, i, Dirsiz(name)) && off == Offset(d, b, i) && !Names(d, name) && ino != 0
    ensures Placed(d, off, b, i, name, ino)
    ensures d[b][i].ino == 0 ==> forall m, n: nat :: Has(Put(d, b, i, ino, name), m, n) <==>
      Has(d, m, n) || (m == name && n == ino)
    ensures d[b][i].ino != 0 ==> Dirsiz(d[b][i].name) <= d[b][i].reclen
    ensures d[b][i].ino != 0 ==> forall m, n: nat :: Has(Shared(d, b, i, name, ino), m, n) <==>
      Has(d, m, n) || (m == name && n == ino)
  {
    if d[b][i].ino == 0 {
      forall m, n: nat
        ensures Has(Put(d, b, i, ino, name), m, n) <==> Has(d, m, n) || (m == name && n == ino)
      {
        HasAfterPut(d, b, i, ino, name, m, n);
      }
    } else {
      forall m, n: nat
        ensures Has(Shared(d, b, i, name, ino), m, n) <==> Has(d, m, n) || (m == name && n == ino)
      {
        HasAfterSplit(d, b, i, Dirsiz(d[b][i].name), Rec(ino, name, d[b][i].reclen - Dirsiz(d[b][i].name)), m, n);
      }
    }
  }

  lemma DroppedNone(t: Table, name: string)
    ensures First(t, name).None? ==> Dropped(t, name) == t
  {
  }

  /** After a lookup the cache is in step, and the directory is in it. */
  lemma FewerGood(disk: map<nat, seq<Block>>, was: map<nat, Dir>, x: nat, dirs: map<nat, Dir>)
    requires Good(disk, was) && x in disk && x in dirs && Fewer(x, dirs, was)
      && if x in was then dirs == was else InStep(dirs[x], disk[x])
    ensures Good(disk, dirs) && InStep(dirs[x], disk[x])
  {
    if x !in was {
      assert disk[x := disk[x]] == disk;
      StillGood(disk, was, x, disk[x], dirs);
    }
  }

  lemma LessIsGood(disk: map<nat, seq<Block>>, was: map<nat, Dir>, gone: nat)
    requires Good(disk, was)
    ensures Good(disk, was - {gone})
  {
  }

  /** A lookup in a table that is in step tells the truth. */
  lemma Truth(h: Dir, d: seq<Block>, name: string)
    requires InStep(h, d)
    ensures First(h.table, name).None? <==> !Names(d, name)
    ensures First(h.table, name).Some? ==>
      exists b, i :: Live(d, b, i) && d[b][i].name == name && First(h.table, name).value == True(d, b, i)
  {
    Found(h.table, d, name);
  }

  /** What the edits find at the offsets the cache gives them. */
  lemma EntryFacts(d: seq<Block>, b: nat, i: nat)
    requires Ok(d) && Live(d, b, i)
    ensures
      var e := True(d, b, i);
      && e.offset / DIRBLKSIZ == b && Index(d[b], e.offset % DIRBLKSIZ) == i && e.reclen == d[b][i].reclen
          && e.ino == d[b][i].ino
      && Has(d, d[b][i].name, e.ino)
      && (i == 0 <==> e.prev == 0)
      && (i > 0 ==>
          e.prev == d[b][i - 1].reclen <= e.offset && (e.offset - e.prev) / DIRBLKSIZ == b
          && Index(d[b], (e.offset - e.prev) % DIRBLKSIZ) == i - 1)
      && ((e.offset + e.reclen) % DIRBLKSIZ == 0 <==> i + 1 == |d[b]|)
  {
    hide Ok, BlockOk, Before, Index;
    OffsetIs(d, b, i);
    InBlock(d[b], i);
    NamedAt(d, b, i);
    if i > 0 {
      OffsetIs(d, b, i - 1);
    }
  }

  lemma FreedInStep(disk: map<nat, seq<Block>>, h: Dir, x: nat, b: nat, name: string)
    requires AllOk(disk) && x in disk && InStep(h, disk[x]) && Live(disk[x], b, 0) && disk[x][b][0].name == name
    ensures
      var d: seq<Block> := disk[x];
      var e := Put(d, b, 0, 0, name);
      && Ok(e) && AllOk(disk[x := e]) && InStep(h.(table := Dropped(h.table, name), lastOff := 0), e)
      && forall m, n: nat :: Has(e, m, n) <==> Has(d, m, n) && m != name
  {
    var d: seq<Block> := disk[x];
    AgreesFreed(h.table, d, b, name);
    forall m, n: nat
      ensures Has(Put(d, b, 0, 0, name), m, n) <==> Has(d, m, n) && m != name
    {
      HasAfterPut(d, b, 0, 0, name, m, n);
    }
  }

  lemma JoinedInStep(disk: map<nat, seq<Block>>, h: Dir, x: nat, b: nat, i: nat)
    requires AllOk(disk) && x in disk && InStep(h, disk[x]) && Live(disk[x], b, i) && 0 < i
    ensures
      var d: seq<Block> := disk[x];
      InStep(h.(table := JoinedTable(h.table, d, b, i), lastOff := 0), d[b := Joined(d[b], i)])
  {
    hide Ok, Agrees, HintOk, Joined, JoinedTable, Has;
    var d: seq<Block> := disk[x];
    AgreesJoined(h.table, d, b, i);
    NoHint(h.(table := JoinedTable(h.table, d, b, i), lastOff := 0), d[b := Joined(d[b], i)]);
  }

  lemma JoinedDisk(disk: map<nat, seq<Block>>, x: nat, b: nat, i: nat)
    requires AllOk(disk) && x in disk && Live(disk[x], b, i) && 0 < i
    ensures
      var d: seq<Block> := disk[x];
      var e: seq<Block> := d[b := Joined(d[b], i)];
      Ok(e) && AllOk(disk[x := e]) && forall m, n: nat :: Has(e, m, n) <==> Has(d, m, n) && m != d[b][i].name
  {
    hide Ok, Joined, Has;
    var d: seq<Block> := disk[x];
    JoinedStaysOk(d, b, i);
    forall m, n: nat
      ensures Has(d[b := Joined(d[b], i)], m, n) <==> Has(d, m, n) && m != d[b][i].name
    {
      HasAfterJoined(d, b, i, m, n);
    }
  }

  lemma NoHint(h: Dir, d: seq<Block>)
    requires h.lastOff == 0
    ensures HintOk(h, d)
  {
  }

  lemma JoinedNeighbours(d: seq<Block>, b: nat, i: nat)
    requires Ok(d) && Live(d, b, i) && 0 < i
    ensures
      var e: seq<Block> := d[b := Joined(d[b], i)];
      var len := d[b][i - 1].reclen + d[b][i].reclen;
      && (d[b][i - 1].ino != 0 ==>
          Live(e, b, i - 1) && e[b][i - 1].name == d[b][i - 1].name && e[b][i - 1].reclen == len)
      && (i + 1 < |d[b]| ==> EntryIs(e, b, i, d[b][i + 1].name, len))
  {
    assert BlockOk(d[b]);
    TrueAfterJoined(d, b, i, b, i - 1);
    if i + 1 < |d[b]| {
      TrueAfterJoined(d, b, i, b, i);
    }
  }

  /** The answer to a lookup is an entry that the directory does not have. */
  ghost predicate Stale(d: seq<Block>, n: string, e: Option<Entry>) {
    e.Some? && !Has(d, n, e.value.ino)
  }

  lemma OkOf(disk: map<nat, seq<Block>>, x: nat)
    requires AllOk(disk) && x in disk
    ensures Ok(disk[x])
  {
  }

  lemma OneInode(d: seq<Block>, name: string)
    requires Ok(d)
    ensures forall m: nat, n: nat :: Has(d, name, m) && Has(d, name, n) ==> m == n
  {
  }

  lemma OneName(d: seq<Block>, name: string, ino: nat)
    requires Has(d, name, ino)
    ensures Names(d, name)
  {
  }

  /** Another directory under an inode: all is in step exactly if what is cached of the inode is. */
  lemma ReusedIs(disk: map<nat, seq<Block>>, dirs: map<nat, Dir>, was: nat, d: seq<Block>)
    requires Good(disk, dirs) && was in disk && Ok(d)
    ensures Good(disk[was := d], dirs) <==> was !in dirs || InStep(dirs[was], d)
  {
    hide Ok, InStep;
    AllStillOk(disk, was, d);
  }

  /** Whatever is cached of a directory, there is one it is not in step with. */
  lemma NeverForAll(h: Dir)
    ensures exists d :: Ok(d) && !InStep(h, d)
  {
    if h.table == map[] {
      var d: seq<Block> := [[Rec(2, "a", DIRBLKSIZ)]];
      assert Before(d[0], 1) == Before(d[0], 0) + DIRBLKSIZ;
      assert Ok(d) && Live(d, 0, 0) && !InStep(h, d);
    } else {
      var d: seq<Block> := [];
      var n :| n in h.table;
      assert Ok(d) && !Names(d, n);
    }
  }

  lemma EmptyOk()
    ensures Ok([])
  {
  }

  /** A table that was in step with a directory answers for a name the directory had. */
  lemma StillKnown(h: Dir, d: seq<Block>, n: string)
    requires InStep(h, d) && Names(d, n)
    ensures First(h.table, n).Some? && Has(d, n, First(h.table, n).value.ino)
  {
    Truth(h, d, n);
    var b, i :| Live(d, b, i) && d[b][i].name == n && First(h.table, n).value == True(d, b, i);
    NamedAt(d, b, i);
  }

  lemma DoubledWhere(u: Table, d: seq<Block>, name: string) returns (t: Table, b: nat, i: nat)
    requires Doubled(u, d, name)
    ensures DoubledAt(t, u, d, b, i, name) && Live(d, b, i) && 0 < i && d[b][i].name == name
      && First(u, name) == Some(True(d, b, i))
    ensures Has(d, name, d[b][i].ino)
  {
    t, b, i :| DoubledAt(t, u, d, b, i, name);
    NamedAt(d, b, i);
  }

  lemma StaleIs(d: seq<Block>, n: string, e: Option<Entry>)
    requires e.Some? && !Has(d, n, e.value.ino)
    ensures Stale(d, n, e)
  {
  }

  /** After the edits of dirremove the second of two entries for a name answers for it. */
  lemma SecondEntryAnswers(t: Table, u: Table, d: seq<Block>, b: nat, i: nat, name: string)
    requires DoubledAt(t, u, d, b, i, name) && Ok(d)
    ensures First(JoinedTable(u, d, b, i), name) == Some(True(d, b, i))
  {
    hide Ok, Agrees, True;
    var len := d[b][i - 1].reclen + d[b][i].reclen;
    var before, more := d[b][i - 1].ino != 0, i + 1 < |d[b]|;
    NextAt(t, d, b, i);
    if before {
      OnlyAt(d, b, i - 1, b, i);
    }
    if more {
      OnlyAt(d, b, i + 1, b, i);
    }
    SecondLeft(u, True(d, b, i), name, before, d[b][i - 1].name, more, if more then d[b][i + 1].name else "", len);
  }

  lemma SecondLeft(u: Table, e: Entry, name: string, before: bool, a: string, more: bool, m: string, len: nat)
    requires name in u && u[name] == [e, e] && (before ==> a != name) && (more ==> m != name)
    ensures
      var v := if before then Relength(u, a, len) else u;
      var w := if more then Reprev(v, m, len) else v;
      First(Dropped(w, name), name) == Some(e)
  {
  }

  /**
   A directory that was thrown out of the cache, of one block that holds itself and its parent: direnter leaves the
   new name twice.
   */
  method EntersTwice() returns (c: NameCache)
    ensures fresh(c) && AllOk(c.disk) && !c.Valid()
  {
    var k := [Rec(2, ".", 12), Rec(2, "..", 500)];
    TwoRecords(k);
    c := new NameCache(map[2 := [k]], _ => {});
    var panic := c.Direnter(2, "a", 3);
  }

  /**
   A directory 2 with an entry "d" for a directory 5, whose names are cached: "d" is rewritten, another directory with
   no "a" comes under 5, and the cache still has the "a" of the first.
   */
  method AnswersForAnother() returns (c: NameCache, e: Option<Entry>)
    ensures fresh(c) && AllOk(c.disk) && !c.Valid() && 5 in c.disk && Stale(c.disk[5], "a", e)
  {
    var d := [Rec(5, ".", 12), Rec(9, "a", 500)];
    c := KnowsOne([[Rec(2, ".", 12), Rec(5, "d", 500)]], [d]);
    hide Ok, AllOk, Good, InStep, Has, Names, Stale;
    TwoEntries(d);
    OneEntry([Rec(5, ".", 512)]);
    e := c.AnswersForOld(2, "d", 7, 5, [[Rec(5, ".", 512)]], "a");
  }

  /** Directories 2 and 5, the second cached. */
  method KnowsOne(k: seq<Block>, d: seq<Block>) returns (c: NameCache)
    requires k == [[Rec(2, ".", 12), Rec(5, "d", 500)]] && d == [[Rec(5, ".", 12), Rec(9, "a", 500)]]
    ensures fresh(c) && c.Valid() && c.disk == map[2 := k, 5 := d] && c.dirs.Keys == {5} && InStep(c.dirs[5], d)
    ensures Has(k, "d", 5) && c.Left(2) == {2, 5}
  {
    hide Ok, InStep, Has, Names, First;
    TwoEntries(k[0]);
    TwoEntries(d[0]);
    c := new NameCache(map[2 := k, 5 := d], _ => {});
    var e := c.FileLookup(5, "a");
    FewerGood(c.disk, map[], 5, c.dirs);
    assert c.Left(2) == {2, 5};
  }

  lemma StaleOnce(h: Dir, d: seq<Block>, n: string)
    requires First(h.table, n).Some? && !Names(d, n)
    ensures !InStep(h, d) && Stale(d, n, First(h.table, n))
  {
    if InStep(h, d) {
      Truth(h, d, n);
    }
    var e := First(h.table, n).value.ino;
    assert !Has(d, n, e);
  }

  lemma OneEntry(k: Block)
    requires k == [Rec(5, ".", 512)]
    ensures Ok([k]) && !Names([k], "a")
  {
    assert Before(k, 1) == Before(k, 0) + 512;
    assert Dirsiz(".") == 12;
    assert BlockOk(k);
  }

  lemma TwoEntries(k: Block)
    requires |k| == 2 && k[0].name == "." && k[0].reclen == 12 && |k[1].name| == 1 && k[1].name != "."
      && k[1].reclen == 500 && k[0].ino != 0 && k[1].ino != 0
    ensures Ok([k]) && Has([k], k[1].name, k[1].ino) && Names([k], k[1].name)
  {
    assert Before(k, 1) == Before(k, 0) + 12 && Before(k, 2) == Before(k, 1) + 500;
    assert Dirsiz(".") == 12 && Dirsiz(k[1].name) == 12;
    assert BlockOk(k);
    assert Live([k], 0, 1);
  }

  lemma TwoRecords(k: Block)
    requires k == [Rec(2, ".", 12), Rec(2, "..", 500)]
    ensures Ok([k]) && !Names([k], "a") && FirstFitIsUsed([k], Dirsiz("a"))
  {
    assert Before(k, 1) == Before(k, 0) + 12 && Before(k, 2) == Before(k, 1) + 500;
    assert Dirsiz(".") == 12 && Dirsiz("..") == 12 && Dirsiz("a") == 12;
    assert BlockOk(k);
    assert k[0].name != k[1].name;
    assert Fits([k], 0, 1, 12) && !Fits([k], 0, 0, 12);
  }
}
