/**
 bin/awk/tran.c: the hash table behind awk's variables and arrays, as a finite map from names
 to cells. A bucket's chain of cells is a sequence, its head first.
 */
module AwkSymtab {
  /** Characters are C chars without the terminating zero; they may be negative. */
  type Name = seq<int>

  const FullTab: nat := 2
  const GrowTab: nat := 4

  class Cell {
    const nval: Name
    var sval: seq<int>
    var fval: real
    var tval: nat

    constructor (n: Name, s: seq<int>, f: real, t: nat)
      ensures nval == n && sval == s && fval == f && tval == t
    {
      nval, sval, fval, tval := n, s, f, t;
    }
  }

  /** The 32-bit hash before it is reduced to the table size. */
  function HashVal(s: Name): nat {
    if s == [] then 0 else (s[|s| - 1] + 31 * HashVal(s[..|s| - 1])) % 0x1_0000_0000
  }

  function Bucket(s: Name, n: nat): (h: nat)
    requires n > 0
    ensures h < n
  {
    HashVal(s) % n
  }

  /** `hash`. */
  method Hash(s: Name, n: nat) returns (h: nat)
    requires n > 0
    ensures h == Bucket(s, n)
  {
    var hashval := 0;
    for i := 0 to |s|
      invariant hashval == HashVal(s[..i])
    {
      assert s[..i + 1][..i] == s[..i];
      hashval := (s[i] + 31 * hashval) % 0x1_0000_0000;
    }
    assert s[..|s|] == s;
    h := hashval % n;
  }

  function Power31(n: nat): nat { if n == 0 then 1 else 31 * Power31(n - 1) }

  /** The characters as the digits of a number to the base 31, the first one foremost. */
  function ToBase31(s: Name): int {
    if s == [] then 0 else s[0] * Power31(|s| - 1) + ToBase31(s[1..])
  }

  lemma {:induction false} Base31Snoc(s: Name, c: int)
    ensures ToBase31(s + [c]) == 31 * ToBase31(s) + c
  {
    if s == [] {
      assert ToBase31([c]) == c * Power31(0) + ToBase31([c][1..]);
      assert s + [c] == [c] && [c][1..] == [];
    } else {
      var t := s + [c];
      assert t[0] == s[0] && t[1..] == s[1..] + [c];
      Base31Snoc(s[1..], c);
      PowerStep(s[0], |s| - 1);
    }
  }

  lemma PowerStep(x: int, n: nat)
    ensures x * Power31(n + 1) == 31 * (x * Power31(n))
  {
  }

  /** Reduction may be put off to the end. */
  lemma ReduceLater(a: int, c: int)
    ensures (c + 31 * (a % 4294967296)) % 4294967296 == (c + 31 * a) % 4294967296
  {
    var q, m := a / 4294967296, 4294967296;
    assert a == q * m + a % m;
    ModShift(c + 31 * (a % m), 31 * q);
    assert c + 31 * a == c + 31 * (a % m) + 31 * q * m;
  }

  lemma ModShift(x: int, k: int)
    ensures (x + k * 4294967296) % 4294967296 == x % 4294967296
  {
  }

  /** The hash of a name, and its bucket, in closed form. */
  lemma {:induction false} HashClosed(s: Name)
    ensures HashVal(s) == ToBase31(s) % 4294967296
    ensures forall n: nat :: n > 0 ==> Bucket(s, n) == ToBase31(s) % 4294967296 % n
  {
    if s != [] {
      var init, c := s[..|s| - 1], s[|s| - 1];
      HashClosed(init);
      assert s == init + [c];
      Base31Snoc(init, c);
      ReduceLater(ToBase31(init), c);
    }
  }

  // ---------- the buckets and the map ----------

  predicate Distinct(chain: seq<Cell>) { forall i, j :: 0 <= i < j < |chain| ==> chain[i] != chain[j] }

  /** Cell `p` belongs in bucket `h`. */
  predicate Sits(p: Cell, h: int, n: nat, table: map<Name, Cell>)
    requires n > 0
  {
    p.nval in table && table[p.nval] == p && Bucket(p.nval, n) == h
  }

  /** The buckets hold exactly the cells of the map, each once and where its name hashes. */
  ghost predicate Filed(tab: seq<seq<Cell>>, table: map<Name, Cell>) {
    && |tab| > 0
    && (forall h, k :: 0 <= h < |tab| && 0 <= k < |tab[h]| ==> Sits(tab[h][k], h, |tab|, table))
    && (forall n :: n in table ==> table[n].nval == n && table[n] in tab[Bucket(n, |tab|)])
    && (forall h :: 0 <= h < |tab| ==> Distinct(tab[h]))
  }

  lemma FiledInsert(tab: seq<seq<Cell>>, table: map<Name, Cell>, p: Cell)
    requires Filed(tab, table) && p.nval !in table
    ensures var h := Bucket(p.nval, |tab|); Filed(tab[h := [p] + tab[h]], table[p.nval := p])
  {
    var b := Bucket(p.nval, |tab|);
    var tab', table' := tab[b := [p] + tab[b]], table[p.nval := p];
    forall h, k | 0 <= h < |tab'| && 0 <= k < |tab'[h]| ensures Sits(tab'[h][k], h, |tab'|, table') {
      if h != b { assert Sits(tab[h][k], h, |tab|, table); }
      else if k > 0 { assert Sits(tab[h][k - 1], h, |tab|, table); }
    }
    forall h | 0 <= h < |tab'| ensures Distinct(tab'[h]) {
      if h == b {
        forall k | 0 <= k < |tab[b]| ensures tab[b][k] != p { assert Sits(tab[b][k], b, |tab|, table); }
      }
    }
    forall n | n in table' ensures table'[n].nval == n && table'[n] in tab'[Bucket(n, |tab'|)] {
      if n != p.nval { assert table[n] in tab[Bucket(n, |tab|)]; }
    }
  }

  /** The cell put at the head of its chain. */
  function WithFirst(tab: seq<seq<Cell>>, p: Cell): seq<seq<Cell>>
    requires |tab| > 0
  {
    var h := Bucket(p.nval, |tab|);
    tab[h := [p] + tab[h]]
  }

  /** The chain without its cell `k`. */
  function Without(chain: seq<Cell>, k: nat): seq<Cell>
    requires k < |chain|
  {
    chain[..k] + chain[k + 1..]
  }

  lemma RemovedSize(table: map<Name, Cell>, s: Name)
    requires s in table
    ensures |table| > 0 && |table - {s}| == |table| - 1
  {
    assert table.Keys == (table - {s}).Keys + {s};
  }

  lemma StillDistinct(chain: seq<Cell>, k: nat)
    requires Distinct(chain) && k < |chain|
    ensures Distinct(Without(chain, k)) && chain[k] !in Without(chain, k)
  {
    var rest := Without(chain, k);
    assert forall i :: 0 <= i < |rest| ==> rest[i] == chain[if i < k then i else i + 1];
  }

  lemma FiledRemove(tab: seq<seq<Cell>>, table: map<Name, Cell>, b: nat, k: nat)
    requires Filed(tab, table) && b < |tab| && k < |tab[b]|
    ensures tab[b][k].nval in table
    ensures Filed(tab[b := Without(tab[b], k)], table - {tab[b][k].nval})
  {
    var p := tab[b][k];
    assert Sits(p, b, |tab|, table);
    var chain := Without(tab[b], k);
    var tab', table' := tab[b := chain], table - {p.nval};
    assert forall i :: 0 <= i < |chain| ==> chain[i] == tab[b][if i < k then i else i + 1];
    StillDistinct(tab[b], k);
    forall h, i | 0 <= h < |tab'| && 0 <= i < |tab'[h]| ensures Sits(tab'[h][i], h, |tab'|, table') {
      if h != b {
        assert Sits(tab[h][i], h, |tab|, table);
      } else {
        assert Sits(tab[b][if i < k then i else i + 1], b, |tab|, table);
      }
    }
    forall n | n in table' ensures table'[n].nval == n && table'[n] in tab'[Bucket(n, |tab'|)] {
      var i :| 0 <= i < |tab[Bucket(n, |tab|)]| && tab[Bucket(n, |tab|)][i] == table[n];
      if Bucket(n, |tab|) == b { assert chain[if i < k then i else i - 1] == table[n]; }
    }
  }

  /** What has been moved when buckets below `i` and `k` cells of bucket `i` are done. */
  ghost predicate Moved(tab: seq<seq<Cell>>, table: map<Name, Cell>, i: nat, k: nat, done: map<Name, Cell>)
    requires |tab| > 0
  {
    forall n :: n in done <==> n in table && IsDone(tab, table[n], i, k)
  }

  predicate IsDone(tab: seq<seq<Cell>>, p: Cell, i: nat, k: nat)
    requires |tab| > 0
  {
    || Bucket(p.nval, |tab|) < i
    || (Bucket(p.nval, |tab|) == i < |tab| && p in tab[i][..if k <= |tab[i]| then k else |tab[i]|])
  }

  /** The map agrees with a part of it. */
  ghost predicate Part(done: map<Name, Cell>, table: map<Name, Cell>) {
    forall n :: n in done ==> n in table && done[n] == table[n]
  }

  /** One more cell moved. */
  lemma MovedStep(tab: seq<seq<Cell>>, table: map<Name, Cell>, i: nat, k: nat, done: map<Name, Cell>)
    requires Filed(tab, table) && i < |tab| && k < |tab[i]| && Moved(tab, table, i, k, done) && Part(done, table)
    ensures var p := tab[i][k];
      p.nval !in done && Moved(tab, table, i, k + 1, done[p.nval := p]) && Part(done[p.nval := p], table)
  {
    var p := tab[i][k];
    assert Sits(p, i, |tab|, table);
    assert p !in tab[i][..k];
    assert tab[i][..k + 1] == tab[i][..k] + [p];
    forall n | n in table ensures n in done[p.nval := p] <==> IsDone(tab, table[n], i, k + 1) {
      assert n == p.nval <==> table[n] == p;
    }
  }

  /** A bucket finished. */
  lemma MovedBucket(tab: seq<seq<Cell>>, table: map<Name, Cell>, i: nat, done: map<Name, Cell>)
    requires Filed(tab, table) && i < |tab| && Moved(tab, table, i, |tab[i]|, done)
    ensures Moved(tab, table, i + 1, 0, done)
  {
    assert tab[i][..|tab[i]|] == tab[i];
    forall n | n in table ensures IsDone(tab, table[n], i, |tab[i]|) <==> IsDone(tab, table[n], i + 1, 0) {
      assert table[n] in tab[Bucket(n, |tab|)];
    }
  }

  /** Everything moved. */
  lemma AllMoved(tab: seq<seq<Cell>>, table: map<Name, Cell>, done: map<Name, Cell>)
    requires |tab| > 0 && Moved(tab, table, |tab|, 0, done) && Part(done, table)
    ensures done == table
  {
    forall n | n in table ensures n in done { assert IsDone(tab, table[n], |tab|, 0); }
  }

  /** A name that is not in its bucket is not in the map. */
  lemma NotFiled(tab: seq<seq<Cell>>, table: map<Name, Cell>, s: Name)
    requires Filed(tab, table)
    requires forall k :: 0 <= k < |tab[Bucket(s, |tab|)]| ==> tab[Bucket(s, |tab|)][k].nval != s
    ensures s !in table
  {
    forall n | n in table ensures n != s { assert table[n] in tab[Bucket(n, |tab|)]; }
  }

  /** The cells of a table in the order `rehash` comes to them: bucket by bucket, along the chains. */
  function Walked(tab: seq<seq<Cell>>): seq<Cell> {
    if tab == [] then [] else Walked(tab[..|tab| - 1]) + tab[|tab| - 1]
  }

  /** The chain of bucket `b` when the cells have been put at the head of their chains one after the other. */
  function ChainFrom(cells: seq<Cell>, b: nat, n: nat): seq<Cell>
    requires n > 0
  {
    if cells == [] then [] else
      var p, before := cells[|cells| - 1], ChainFrom(cells[..|cells| - 1], b, n);
      if Bucket(p.nval, n) == b then [p] + before else before
  }

  /** Every bucket holds its cells, the last one put in coming first. */
  ghost predicate Stacked(np: seq<seq<Cell>>, cells: seq<Cell>) {
    |np| > 0 && forall b: nat :: b < |np| ==> np[b] == ChainFrom(cells, b, |np|)
  }

  lemma StackedStep(np: seq<seq<Cell>>, cells: seq<Cell>, p: Cell)
    requires Stacked(np, cells)
    ensures var h := Bucket(p.nval, |np|); Stacked(np[h := [p] + np[h]], cells + [p])
  {
    var h := Bucket(p.nval, |np|);
    var np' := np[h := [p] + np[h]];
    assert (cells + [p])[..|cells|] == cells;
    forall b: nat | b < |np'| ensures np'[b] == ChainFrom(cells + [p], b, |np'|) {
      assert np[b] == ChainFrom(cells, b, |np|);
    }
  }

  lemma OneFurther(before: seq<Cell>, chain: seq<Cell>, k: nat)
    requires k < |chain|
    ensures before + chain[..k + 1] == before + chain[..k] + [chain[k]]
  {
  }

  lemma WalkedStep(tab: seq<seq<Cell>>, i: nat)
    requires i < |tab|
    ensures Walked(tab[..i + 1]) == Walked(tab[..i]) + tab[i]
  {
    assert tab[..i + 1][..i] == tab[..i];
  }

  /** How the chains change when a cell is entered: a table that is full is first made four times as large. */
  ghost predicate Entered(was: seq<seq<Cell>>, now: seq<seq<Cell>>, p: Cell, grown: bool) {
    && |was| > 0
    && if grown then |now| == 4 * |was| && Stacked(now, Walked(was) + [p]) else now == WithFirst(was, p)
  }

  lemma NowEntered(was: seq<seq<Cell>>, mid: seq<seq<Cell>>, now: seq<seq<Cell>>, p: Cell, grown: bool)
    requires |was| > 0 && |mid| > 0 && now == WithFirst(mid, p)
    requires if grown then |mid| == 4 * |was| && Stacked(mid, Walked(was)) else mid == was
    ensures Entered(was, now, p, grown)
  {
    if grown { StackedStep(mid, Walked(was), p); }
  }

  /** How they change when the cell of a name is taken out. */
  ghost predicate TakenOut(was: seq<seq<Cell>>, now: seq<seq<Cell>>, s: Name) {
    exists h: nat, k: nat :: h < |was| && k < |was[h]| && was[h][k].nval == s && now == was[h := Without(was[h], k)]
  }

  /** One cell to the head of its new chain. */
  method MoveCell(np: array<seq<Cell>>, cp: Cell, ghost done: map<Name, Cell>, ghost cells: seq<Cell>)
    requires np.Length > 0 && cp.nval !in done && Filed(np[..], done) && Stacked(np[..], cells)
    modifies np
    ensures Filed(np[..], done[cp.nval := cp]) && Stacked(np[..], cells + [cp])
  {
    StackedStep(np[..], cells, cp);
    FiledInsert(np[..], done, cp);
    var nh := Hash(cp.nval, np.Length);
    ghost var was: seq<seq<Cell>> := np[..];
    np[nh] := [cp] + np[nh];
    assert np[..] == was[nh := [cp] + was[nh]];
  }

  /** The inner loop of `rehash`: the cells of one chain go to the new buckets. */
  method MoveBucket(np: array<seq<Cell>>, chain: seq<Cell>, ghost tab: seq<seq<Cell>>, ghost table: map<Name, Cell>,
                    ghost i: nat, ghost done0: map<Name, Cell>) returns (ghost done: map<Name, Cell>)
    requires Filed(tab, table) && i < |tab| && chain == tab[i] && np.Length > 0
    requires Filed(np[..], done0) && Part(done0, table) && Moved(tab, table, i, 0, done0)
    requires Stacked(np[..], Walked(tab[..i]))
    modifies np
    ensures Filed(np[..], done) && Part(done, table) && Moved(tab, table, i + 1, 0, done)
    ensures Stacked(np[..], Walked(tab[..i + 1]))
  {
    done := done0;
    ghost var before := Walked(tab[..i]);
    assert before + chain[..0] == before;
    for k := 0 to |chain|
      invariant Filed(np[..], done) && Part(done, table) && Moved(tab, table, i, k, done)
      invariant Stacked(np[..], before + chain[..k])
    {
      var cp := chain[k];
      MovedStep(tab, table, i, k, done);
      MoveCell(np, cp, done, before + chain[..k]);
      OneFurther(before, chain, k);
      done := done[cp.nval := cp];
    }
    assert chain[..|chain|] == chain;
    WalkedStep(tab, i);
    MovedBucket(tab, table, i, done);
  }

  /** The loops of `rehash`. */
  method MoveAll(np: array<seq<Cell>>, tab: seq<seq<Cell>>, ghost table: map<Name, Cell>)
    requires Filed(tab, table) && np.Length > 0 && forall h :: 0 <= h < np.Length ==> np[h] == []
    modifies np
    ensures Filed(np[..], table) && Stacked(np[..], Walked(tab))
  {
    ghost var done: map<Name, Cell> := map[];
    for i := 0 to |tab|
      invariant Filed(np[..], done) && Part(done, table) && Moved(tab, table, i, 0, done)
      invariant Stacked(np[..], Walked(tab[..i]))
    {
      done := MoveBucket(np, tab[i], tab, table, i, done);
    }
    assert tab[..|tab|] == tab;
    AllMoved(tab, table, done);
  }

  // ---------- the table ----------

  class Symtab {
    var nelem: nat
    var size: nat
    var tab: array<seq<Cell>>
    ghost var table: map<Name, Cell>

    ghost predicate Valid()
      reads this, tab
    {
      tab.Length == size && Filed(tab[..], table) && nelem == |table|
    }

    /** `makesymtab`. */
    constructor (n: nat)
      requires n > 0
      ensures Valid() && fresh(tab) && table == map[] && size == n
    {
      nelem, size, table := 0, n, map[];
      tab := new seq<Cell>[n](_ => []);
    }

    /** `lookup`. */
    method Lookup(s: Name) returns (p: Cell?)
      requires Valid()
      ensures p == if s in table then table[s] else null
    {
      var h := Hash(s, size);
      var chain := tab[h];
      ghost var tab0: seq<seq<Cell>> := tab[..];
      for k := 0 to |chain|
        invariant forall j :: 0 <= j < k ==> chain[j].nval != s
      {
        assert Sits(tab0[h][k], h, |tab0|, table);
        if chain[k].nval == s { return chain[k]; }
      }
      p := null;
      NotFiled(tab0, table, s);
    }

    /** `rehash`: every cell moves to a table four times as large; it does nothing if there is no memory. */
    method Rehash(memory: bool)
      requires Valid()
      modifies this`tab, this`size
      ensures Valid()
      ensures if memory then fresh(tab) && size == 4 * old(size) else tab == old(tab) && size == old(size)
      ensures memory ==> Stacked(tab[..], Walked(old(tab[..])))
    {
      if !memory { return; }
      var nsz := GrowTab * size;
      var np := new seq<Cell>[nsz](_ => []);
      MoveAll(np, tab[..], table);
      tab, size := np, nsz;
    }

    /** `setsymtab`: the cell there is, or a new one. */
    method Setsymtab(n: Name, s: seq<int>, f: real, t: nat, memory: bool) returns (p: Cell)
      requires Valid()
      modifies this, tab
      ensures Valid() && n in table && p == table[n]
      ensures n in old(table) ==> table == old(table) && nelem == old(nelem)
      ensures n !in old(table) ==> fresh(p) && p.sval == s && p.fval == f && p.tval == t && table == old(table)[n := p]
      ensures memory && old(nelem) <= 2 * old(size) ==> nelem <= 2 * size
      ensures tab == old(tab) || fresh(tab)
      ensures n in old(table) ==> tab == old(tab) && tab[..] == old(tab[..])
      ensures n !in old(table) ==> Entered(old(tab[..]), tab[..], p, memory && old(nelem) >= 2 * old(size))
    {
      var q := Lookup(n);
      if q != null { return q; }
      p := new Cell(n, s, f, t);
      Enter(p, memory);
    }

    /** The second half of `setsymtab`: the table grows if it would be too full, and the cell goes in. */
    method Enter(p: Cell, memory: bool)
      requires Valid() && p.nval !in table
      modifies this, tab
      ensures Valid() && table == old(table)[p.nval := p]
      ensures memory && old(nelem) <= 2 * old(size) ==> nelem <= 2 * size
      ensures tab == old(tab) || fresh(tab)
      ensures Entered(old(tab[..]), tab[..], p, memory && old(nelem) >= 2 * old(size))
    {
      ghost var was: seq<seq<Cell>> := tab[..];
      ghost var grown := memory && nelem >= 2 * size;
      if nelem + 1 > FullTab * size {
        Rehash(memory);
      }
      ghost var now: seq<seq<Cell>> := tab[..];
      PutFront(p);
      NowEntered(was, now, tab[..], p, grown);
    }

    /** A new cell counted and put at the head of its chain. */
    method PutFront(p: Cell)
      requires Valid() && p.nval !in table
      modifies this`nelem, this`table, tab
      ensures Valid() && table == old(table)[p.nval := p]
      ensures |old(tab[..])| > 0 && tab[..] == WithFirst(old(tab[..]), p)
    {
      nelem := nelem + 1;
      var h := Hash(p.nval, size);
      FiledInsert(tab[..], table, p);
      ghost var was: seq<seq<Cell>> := tab[..];
      tab[h] := [p] + tab[h];
      assert tab[..] == was[h := [p] + was[h]];
      table := table[p.nval := p];
    }

    /** Cell `k` of chain `h` taken out and no longer counted. */
    method Unlink(h: nat, k: nat)
      requires h < tab.Length && k < |tab[h]| && nelem > 0
      modifies this`nelem, tab
      ensures nelem == old(nelem) - 1
      ensures tab[..] == old(tab[..])[h := Without(old(tab[h]), k)]
    {
      tab[h] := tab[h][..k] + tab[h][k + 1..];
      nelem := nelem - 1;
    }

    /** The walk along the chain in `freeelem`: where the name is, or -1. */
    method Position(s: Name) returns (h: nat, k: int)
      requires Valid()
      ensures h < size && -1 <= k < |tab[h]| && (k == -1 <==> s !in table)
      ensures k != -1 ==> tab[h][k].nval == s
    {
      h := Hash(s, size);
      ghost var tab0: seq<seq<Cell>> := tab[..];
      var chain := tab[h];
      k := 0;
      while k < |chain|
        invariant 0 <= k <= |chain| && forall j :: 0 <= j < k ==> chain[j].nval != s
      {
        assert Sits(tab0[h][k], h, |tab0|, table);
        if chain[k].nval == s { return; }
        k := k + 1;
      }
      k := -1;
      NotFiled(tab0, table, s);
    }

    /** `freeelem`: one element deleted, if it is there. */
    method Freeelem(s: Name)
      requires Valid()
      modifies this`nelem, this`table, tab
      ensures Valid() && table == old(table) - {s}
      ensures if s in old(table) then TakenOut(old(tab[..]), tab[..], s) else tab[..] == old(tab[..])
    {
      var h, k := Position(s);
      if k == -1 {
        assert table - {s} == table;
      } else {
        Remove(h, k);
      }
    }

    /** Cell `k` of chain `h` is deleted. */
    method Remove(h: nat, k: nat)
      requires Valid() && h < tab.Length && k < |tab[h]|
      modifies this`nelem, this`table, tab
      ensures Valid() && table == old(table - {tab[h][k].nval})
      ensures tab[..] == old(tab[..])[h := Without(old(tab[h]), k)]
    {
      ghost var gone: Name := tab[h][k].nval;
      FiledRemove(tab[..], table, h, k);
      RemovedSize(table, gone);
      Unlink(h, k);
      table := table - {gone};
    }
  }
}
