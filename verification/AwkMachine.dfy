/**
 The lazily built automaton of bin/awk/b.c: `cgoto` with its 32-state table and recycling,
 and `makeinit`.  The automaton is that of any linear tree `root`; position 0 is its ALL
 leaf and `accept` its FINAL leaf.
 */
module AwkMachine {
  import opened Positions
  import opened AwkTree
  import opened AwkRuns
  import opened AwkTable
  import opened AwkCalls

  // ---------- position lists ----------

  lemma HeadMember(t: seq<nat>)
    ensures t == [] || t[0] in ToSet(t)
  {
  }

  /** A set has one descending list. */
  lemma {:induction false} ListUnique(s: seq<nat>, t: seq<nat>)
    requires Descending(s) && Descending(t) && ToSet(s) == ToSet(t)
    ensures s == t
    decreases |s|
  {
    if s == [] {
      HeadMember(t);
    } else {
      assert s[0] in ToSet(s);
      assert s[0] in t;
      assert t[0] in ToSet(t);
      assert t[0] in s;
      assert s[0] == t[0];
      forall x ensures x in s[1..] <==> x in t[1..] {
        if x in s[1..] { assert x in ToSet(s); assert x in t && x != t[0]; }
        if x in t[1..] { assert x in ToSet(t); assert x in s && x != s[0]; }
      }
      assert ToSet(s[1..]) == ToSet(t[1..]);
      ListUnique(s[1..], t[1..]);
    }
  }

  /** Dropping the last entry of a list that holds 0 removes exactly position 0. */
  lemma DropZero(s: seq<nat>)
    requires Descending(s) && 0 in s
    ensures |s| > 0 && Descending(s[..|s|-1]) && ToSet(s[..|s|-1]) == ToSet(s) - {0}
  {
    var n := |s| - 1;
    var k :| 0 <= k < |s| && s[k] == 0;
    assert forall i :: 0 <= i < n ==> s[i] > s[n];
    assert s[n] == 0 && s == s[..n] + [s[n]];
    assert forall x :: x in s[..n] ==> x != 0;
  }

  /** The largest possible position can only be at the head of a list. */
  lemma HeadIsMax(s: seq<nat>, m: nat)
    requires Descending(s) && forall x :: x in s ==> x <= m
    ensures m in s <==> s != [] && s[0] == m
  {
    if m in s {
      var k :| 0 <= k < |s| && s[k] == m;
      assert s[0] in s;
    }
  }

  // ---------- successor sets from the rows ----------

  /** The positions reached from `list` on `c`, as `cgoto` gathers them from the rows. */
  ghost function Gather(rows: seq<Row>, list: seq<nat>, c: int): set<nat>
    requires Bounded(list, |rows|)
  {
    if list == [] then {}
    else
      var x := list[|list|-1];
      Gather(rows, list[..|list|-1], c) + (if Accepts(rows[x].sym, c) then ToSet(rows[x].lfollow) else {})
  }

  predicate Bounded(list: seq<nat>, n: nat) {
    forall k :: 0 <= k < |list| ==> list[k] < n
  }

  lemma {:induction false} GatherMembers(rows: seq<Row>, list: seq<nat>, c: int, q: nat)
    requires Bounded(list, |rows|)
    ensures q in Gather(rows, list, c) <==>
      exists x :: x in list && Accepts(rows[x].sym, c) && q in rows[x].lfollow
    decreases |list|
  {
    if list != [] {
      var n := |list| - 1;
      assert list == list[..n] + [list[n]];
      GatherMembers(rows, list[..n], c, q);
    }
  }

  /** The rows describe the tree `root`, whose positions are 0 .. |rows| - 1. */
  ghost predicate RowsFor(rows: seq<Row>, root: Re) {
    && Linear(root)
    && (forall i: nat :: i in Pos(root) <==> i < |rows|)
    && forall i: nat :: i < |rows| ==> RowOk(rows[i], root, i)
  }

  lemma GatherIsDelta(rows: seq<Row>, root: Re, list: seq<nat>, c: int)
    requires RowsFor(rows, root) && Bounded(list, |rows|)
    ensures Gather(rows, list, c) == Delta(root, ToSet(list), c)
  {
    forall q: nat
      ensures q in Gather(rows, list, c) <==> q in Delta(root, ToSet(list), c)
    {
      GatherMembers(rows, list, c, q);
      forall x | x in list
        ensures Accepts(rows[x].sym, c) <==> Hits(false, root, x, c)
        ensures q in rows[x].lfollow <==> q in Follow(root, x)
        ensures q in Follow(root, x) ==> q in Pos(root)
      {
        assert RowOk(rows[x], root, x);
        LeafAtHits(false, root, x, rows[x].sym, c);
        SetsInPos(root, x);
      }
      if q in Gather(rows, list, c) {
        var x :| x in list && Accepts(rows[x].sym, c) && q in rows[x].lfollow;
        assert x in ToSet(list);
        assert Leads(root, ToSet(list), c, q);
      }
    }
  }

  lemma FollowBounded(rows: seq<Row>, root: Re, i: nat)
    requires RowsFor(rows, root) && i < |rows|
    ensures Bounded(rows[i].lfollow, |rows|) && ToSet(rows[i].lfollow) == Follow(root, i)
  {
    assert RowOk(rows[i], root, i);
    SetsInPos(root, i);
    assert forall k :: 0 <= k < |rows[i].lfollow| ==> rows[i].lfollow[k] in Follow(root, i);
  }

  lemma GatherSnoc(rows: seq<Row>, p: seq<nat>, i: nat, c: int)
    requires Bounded(p, |rows|) && i < |p|
    ensures Accepts(rows[p[i]].sym, c) ==>
      Gather(rows, p[..i+1], c) == Gather(rows, p[..i], c) + ToSet(rows[p[i]].lfollow)
    ensures !Accepts(rows[p[i]].sym, c) ==> Gather(rows, p[..i+1], c) == Gather(rows, p[..i], c)
  {
    assert p[..i+1][..i] == p[..i];
  }

  /** The first loop of `cgoto`: mark everything reached from the positions `p`. */
  method MarkSuccessors(work: PosSet, rows: seq<Row>, p: seq<nat>, c: int, ghost root: Re)
    requires RowsFor(rows, root) && Bounded(p, |rows|)
    requires work.Valid() && work.setvec.Length == |rows| && work.marked == {}
    modifies work`setcnt, work`marked, work.setvec
    ensures work.Valid() && work.marked == Gather(rows, p, c)
  {
    for i := 0 to |p|
      invariant work.Valid() && work.marked == Gather(rows, p[..i], c)
    {
      GatherSnoc(rows, p, i, c);
      if Accepts(rows[p[i]].sym, c) {
        FollowBounded(rows, root, p[i]);
        work.MarkAll(rows[p[i]].lfollow);
      }
    }
    assert p[..|p|] == p;
  }

  /** The successors of the positions `p` on `c`, as a descending list. */
  method Successor(rows: seq<Row>, p: seq<nat>, c: int, ghost root: Re) returns (tmpset: seq<nat>)
    requires RowsFor(rows, root) && Bounded(p, |rows|)
    ensures Descending(tmpset) && ToSet(tmpset) == Delta(root, ToSet(p), c) && Bounded(tmpset, |rows|)
  {
    var work := new PosSet(|rows|);
    MarkSuccessors(work, rows, p, c, root);
    tmpset := SetToList(work);
    GatherIsDelta(rows, root, p, c);
    assert forall k :: 0 <= k < |tmpset| ==> tmpset[k] in work.marked;
  }

  // ---------- the table ----------

  lemma DeltaOfNone(root: Re)
    ensures forall c :: Delta(root, {}, c) == {}
  {
  }

  class Fa {
    const rows: seq<Row>
    const accept: nat
    const anchor: bool
    const gototab: array2<int>
    const posns: array<seq<nat>>
    const out: array<bool>
    var initstat: nat
    var curstat: nat
    var reset: bool

    /** The compiled tree, and a closed family its automaton lives in. */
    ghost const root: Re
    ghost const reach: set<set<nat>>
    /** The live states, as a value. */
    ghost var tab: Tab

    constructor (rows: seq<Row>, anchor: bool, ghost root: Re, ghost reach: set<set<nat>>)
      requires |rows| > 0 && RowsFor(rows, root) && Closed(reach, root) && Searches(root, |rows| - 1)
      ensures Base() && fresh(gototab) && fresh(posns) && fresh(out)
      ensures accept == |rows| - 1
      ensures this.rows == rows && this.anchor == anchor && this.root == root && this.reach == reach
    {
      this.rows, this.accept, this.anchor, this.root, this.reach := rows, |rows| - 1, anchor, root, reach;
      gototab := new int[NSTATES, NCHARS]((_, _) => 0);
      posns := new seq<nat>[NSTATES](_ => []);
      out := new bool[NSTATES](_ => false);
      initstat, curstat, reset, tab := 0, 0, false, Tab([], NoLoop, false);
    }

    ghost predicate Table() {
      && RowsFor(rows, root) && |rows| == accept + 1 && Closed(reach, root) && Searches(root, accept)
      && gototab.Length0 == NSTATES && gototab.Length1 == NCHARS
      && posns.Length == NSTATES && out.Length == NSTATES
    }

    /** What `makeinit` relies on: the rows and the dead state 1. */
    ghost predicate Base()
      reads posns, out, gototab
    {
      Table() && posns[1] == [] && !out[1] && forall c :: 0 <= c < NCHARS ==> 0 <= gototab[1, c] <= 1
    }

    ghost function Set(i: nat): set<nat>
      reads posns
      requires i < posns.Length
    {
      ToSet(posns[i])
    }

    /** State `i` is a proper state: a member of the family, listed in order, with its flag. */
    ghost predicate StateOk(i: nat)
      reads posns, out
      requires i < posns.Length && i < out.Length
    {
      && Descending(posns[i]) && Bounded(posns[i], |rows|)
      && Set(i) in reach && out[i] == (accept in posns[i])
    }

    /** The live states are proper, and those of `tab`, which are pairwise different. */
    ghost predicate States()
      reads this, posns, out, gototab
    {
      && Base()
      && 2 <= curstat < NSTATES
      && (forall i :: 1 <= i <= curstat ==> StateOk(i))
      && TabOk(tab) && |tab.sets| == curstat && tab.reset == reset
      && (forall i :: 1 <= i <= curstat ==> Set(i) == tab.sets[i - 1])
      && (forall s, c :: 2 <= s <= curstat && 0 <= c < NCHARS ==> 0 <= gototab[s, c] <= curstat)
    }

    /** The cached transition (s, c) leads to the true successor set, if there is one. */
    ghost predicate EntryExact(s: nat, c: int)
      reads posns, gototab
      requires posns.Length == NSTATES && gototab.Length0 == NSTATES && gototab.Length1 == NCHARS
      requires s < NSTATES && 0 <= c < NCHARS && 0 <= gototab[s, c] < NSTATES
    {
      gototab[s, c] != 0 ==> Set(gototab[s, c]) == Delta(root, Set(s), c)
    }

    /** Every cached transition of a live state on a text character is exact. */
    ghost predicate Exact()
      reads this, posns, out, gototab
      requires States()
    {
      forall s, c :: 2 <= s <= curstat && 0 <= c < HAT ==> EntryExact(s, c)
    }

    /** All but the entry that recycling from state 2 left, which leads to state 2 itself. */
    ghost predicate Valid()
      reads this, posns, out, gototab
    {
      && States()
      && (forall s, c :: 2 <= s <= curstat && 0 <= c < HAT && !Loops(Conf(tab, s), c) ==> EntryExact(s, c))
      && (tab.loop == NoLoop || (0 <= tab.loop < HAT && gototab[2, tab.loop] == 2))
    }

    lemma DeadRow(c: int)
      requires Base() && 0 <= c < NCHARS
      ensures Set(1) == {} && Delta(root, Set(1), c) == {}
    {
      DeltaOfNone(root);
    }

    /** The second loop of `cgoto`: a live state with these positions, or 0. */
    method FindState(tmpset: seq<nat>) returns (i: nat)
      requires States() && Descending(tmpset)
      ensures i <= curstat
      ensures if i == 0 then ToSet(tmpset) !in tab.sets else Set(i) == ToSet(tmpset)
    {
      i := 1;
      while i <= curstat
        invariant 1 <= i <= curstat + 1
        invariant forall k :: 1 <= k < i ==> Set(k) != ToSet(tmpset)
      {
        assert StateOk(i);
        if posns[i] == tmpset {
          return;
        }
        if Set(i) == ToSet(tmpset) { ListUnique(posns[i], tmpset); }
        i := i + 1;
      }
      i := 0;
      forall k | 0 <= k < |tab.sets| ensures tab.sets[k] != ToSet(tmpset) { assert Set(k + 1) == tab.sets[k]; }
    }

    method ClearRow(k: nat)
      requires k < gototab.Length0
      modifies gototab
      ensures forall c :: 0 <= c < gototab.Length1 ==> gototab[k, c] == 0
      ensures forall s, c :: 0 <= s < gototab.Length0 && s != k && 0 <= c < gototab.Length1 ==>
        gototab[s, c] == old(gototab[s, c])
    {
      for i := 0 to gototab.Length1
        invariant forall c :: 0 <= c < i ==> gototab[k, c] == 0
        invariant forall s, c :: 0 <= s < gototab.Length0 && s != k && 0 <= c < gototab.Length1 ==>
          gototab[s, c] == old(gototab[s, c])
      {
        gototab[k, i] := 0;
      }
    }

    /** The tail of `cgoto`: a fresh row and the new set for state `k`. */
    method Install(k: nat, tmpset: seq<nat>, accepting: bool)
      requires k < gototab.Length0 && k < posns.Length && k < out.Length
      modifies gototab, posns, out
      ensures posns[k] == tmpset && out[k] == accepting
      ensures forall i :: 0 <= i < posns.Length && i != k ==> posns[i] == old(posns[i])
      ensures forall i :: 0 <= i < out.Length && i != k ==> out[i] == old(out[i])
      ensures forall c :: 0 <= c < gototab.Length1 ==> gototab[k, c] == 0
      ensures forall s, c :: 0 <= s < gototab.Length0 && s != k && 0 <= c < gototab.Length1 ==>
        gototab[s, c] == old(gototab[s, c])
    {
      ClearRow(k);
      posns[k] := tmpset;
      out[k] := accepting;
    }

    /** Of the live rows only entry (s, c) may have changed. */
    twostate predicate OnlyEntry(s: nat, c: int)
      reads this, gototab
      requires gototab.Length0 == NSTATES && gototab.Length1 == NCHARS && old(curstat) < NSTATES
    {
      forall s', c' :: 1 <= s' <= old(curstat) && 0 <= c' < NCHARS && (s' != s || c' != c) ==>
        gototab[s', c'] == old(gototab[s', c'])
    }

    /** The table before a step of `cgoto`: an entry that is computed afresh is no longer wrong. */
    ghost function Unlooped(t: Tab, s: nat, c: int): Tab { if Loops(Conf(t, s), c) then t.(loop := NoLoop) else t }

    /** Writing down a state found in the table. */
    method NoteGoto(s: nat, c: int, i: nat)
      requires Valid() && 1 <= s <= curstat && 0 <= c < NCHARS && 1 <= i <= curstat
      requires Set(i) == Delta(root, Set(s), c)
      modifies gototab, `tab
      ensures Valid() && OnlyEntry(s, c) && tab == Unlooped(old(tab), s, c)
    {
      if s == 1 {
        DeadRow(c);
        assert Set(i) == tab.sets[i - 1] && Set(1) == tab.sets[0];
      }
      gototab[s, c] := i;
      tab := Unlooped(tab, s, c);
      forall s', c' | 2 <= s' <= curstat && 0 <= c' < HAT && !Loops(Conf(tab, s'), c') ensures EntryExact(s', c') {
        assert (s' == s && c' == c) || old(EntryExact(s', c'));
      }
    }

    /** Room left: a new last state with an empty row. */
    method Append(tmpset: seq<nat>)
      requires Valid() && curstat < NSTATES - 1
      requires Descending(tmpset) && Bounded(tmpset, |rows|) && ToSet(tmpset) in reach && ToSet(tmpset) !in tab.sets
      modifies `curstat, `tab, gototab, posns, out
      ensures Valid() && curstat == old(curstat) + 1 && Set(curstat) == ToSet(tmpset)
      ensures tab == old(tab).(sets := old(tab).sets + [ToSet(tmpset)])
      ensures forall i :: 0 <= i <= old(curstat) ==> posns[i] == old(posns[i]) && out[i] == old(out[i])
      ensures OnlyEntry(0, 0) && forall c' :: 0 <= c' < NCHARS ==> gototab[curstat, c'] == 0
    {
      ghost var n := curstat;
      curstat := curstat + 1;
      Install(curstat, tmpset, accept in tmpset);
      tab := tab.(sets := tab.sets + [ToSet(tmpset)]);
      forall i | 1 <= i <= n ensures StateOk(i) && Set(i) == old(Set(i)) { assert old(StateOk(i)); }
      assert StateOk(curstat);
      assert States();
      forall s', c' | 2 <= s' <= curstat && 0 <= c' < HAT && !Loops(Conf(tab, s'), c') ensures EntryExact(s', c') {
        assert s' == curstat || old(EntryExact(s', c'));
      }
    }

    /** Start the table over with the dead state and a state 2 with positions `list`. */
    method StartOver(list: seq<nat>, accepting: bool)
      requires accepting == (accept in list)
      requires Base() && Descending(list) && Bounded(list, |rows|) && ToSet(list) in reach && list != []
      modifies `curstat, `tab, gototab, posns, out
      ensures Valid() && Exact() && curstat == 2 && posns[2] == list && tab == Tab([{}, ToSet(list)], NoLoop, reset)
      ensures posns[0] == old(posns[0]) && out[0] == old(out[0])
      ensures forall c :: 0 <= c < NCHARS ==> gototab[2, c] == 0
    {
      curstat, tab := 2, Tab([{}, ToSet(list)], NoLoop, reset);
      Install(2, list, accepting);
      HeadMember(list);
      DeadRow(0);
      assert list[0] in Set(2);
      assert StateOk(1) && StateOk(2);
      assert States();
    }

    /** Table full: forget every state but 1 and start over at 2. */
    method Recycle(s: nat, c: int, tmpset: seq<nat>, ghost d: set<nat>)
      requires Valid() && 1 < s <= curstat && 0 <= c < NCHARS && curstat == NSTATES - 1
      requires Descending(tmpset) && Bounded(tmpset, |rows|) && d == ToSet(tmpset) == Delta(root, Set(s), c)
      requires d !in tab.sets
      modifies `curstat, `reset, `tab, gototab, posns, out
      ensures Valid() && curstat == 2 && reset && Set(2) == d
      ensures posns[0] == old(posns[0]) && out[0] == old(out[0])
      ensures tab == Tab([{}, d], if s == 2 && c < HAT then c else NoLoop, true)
      ensures Exact() <==> !(s == 2 && c < HAT && Delta(root, d, c) != d)
    {
      assert Set(s) in reach by { assert StateOk(s); }
      assert tmpset != [] by { DeadRow(c); assert Set(1) == tab.sets[0]; }
      reset := true;
      StartOver(tmpset, accept in tmpset);
      NoteRecycled(s, c, d);
    }

    /** The entry written after a table has been recycled, into the row of a state that may be gone. */
    method NoteRecycled(s: nat, c: int, ghost d: set<nat>)
      requires Valid() && curstat == 2 && reset && tab == Tab([{}, d], NoLoop, true)
      requires 1 < s < NSTATES && 0 <= c < NCHARS && forall c' :: 0 <= c' < NCHARS ==> gototab[2, c'] == 0
      modifies `tab, gototab
      ensures Valid() && tab == Tab([{}, d], if s == 2 && c < HAT then c else NoLoop, true)
      ensures Exact() <==> !(s == 2 && c < HAT && Delta(root, d, c) != d)
    {
      assert Set(2) == tab.sets[1];
      gototab[s, c] := 2;
      tab := tab.(loop := if s == 2 && c < HAT then c else NoLoop);
      assert StateOk(1) && StateOk(2);
      assert States();
      assert s == 2 && c < HAT ==> (EntryExact(2, c) <==> Delta(root, d, c) == d);
    }

    /** The successor set of `s` on `c` and the live state that has it, or 0. */
    method Lookup(s: nat, c: int) returns (tmpset: seq<nat>, r: nat)
      requires Valid() && 1 <= s <= curstat && 0 <= c < NCHARS
      ensures Descending(tmpset) && Bounded(tmpset, |rows|) && ToSet(tmpset) == Delta(root, Set(s), c)
      ensures r <= curstat && (if r == 0 then ToSet(tmpset) !in tab.sets else Set(r) == ToSet(tmpset))
    {
      assert StateOk(s);
      tmpset := Successor(rows, posns[s], c, root);
      r := FindState(tmpset);
    }

    /** A table whose only exception is right is exact, and conversely. */
    lemma ExactIff()
      requires Valid()
      ensures Exact() <==> Sound(StepOf(root), tab)
    {
      if tab.loop != NoLoop {
        assert EntryExact(2, tab.loop) <==> Set(2) == Delta(root, Set(2), tab.loop);
      }
    }

    /** The successor is not in the table and there is room: it is added. */
    method Insert(s: nat, c: int, tmpset: seq<nat>, ghost d: set<nat>)
      requires Valid() && 1 < s <= curstat < NSTATES - 1 && 0 <= c < NCHARS
      requires Descending(tmpset) && Bounded(tmpset, |rows|) && d == ToSet(tmpset) == Delta(root, Set(s), c)
      requires d !in tab.sets
      modifies `curstat, `tab, gototab, posns, out
      ensures Valid() && curstat == old(curstat) + 1
      ensures tab == Unlooped(old(tab), s, c).(sets := old(tab).sets + [d])
      ensures posns[0] == old(posns[0]) && out[0] == old(out[0])
      ensures OnlyEntry(s, c) && forall c' :: 0 <= c' < NCHARS && c' != c ==> gototab[curstat, c'] == 0
    {
      assert Set(s) in reach by { assert StateOk(s); }
      Append(tmpset);
      NoteGoto(s, c, curstat);
    }

    /** The successor is not in the table: it is added, or the table is recycled for it. */
    method AddState(s: nat, c: int, tmpset: seq<nat>, ghost d: set<nat>) returns (r: nat)
      requires Valid() && 1 < s <= curstat && 0 <= c < NCHARS
      requires Descending(tmpset) && Bounded(tmpset, |rows|) && d == ToSet(tmpset) == Delta(root, Set(s), c)
      requires d !in tab.sets
      modifies `curstat, `reset, `tab, gototab, posns, out
      ensures Valid() && 1 <= r <= curstat
      ensures Conf(tab, r) == Add(StepOf(root), Conf(Unlooped(old(tab), s, c), s), c)
      ensures posns[0] == old(posns[0]) && out[0] == old(out[0])
      ensures old(curstat) < NSTATES - 1 ==>
        && OnlyEntry(s, c)
        && (curstat > old(curstat) ==> forall c' :: 0 <= c' < NCHARS && c' != c ==> gototab[curstat, c'] == 0)
    {
      assert Set(s) == tab.sets[s - 1];
      if curstat >= NSTATES - 1 {
        Recycle(s, c, tmpset, d);
        r := 2;
      } else {
        Insert(s, c, tmpset, d);
        r := curstat;
      }
    }

    /** `cgoto`: the state reached from `s` on `c`, computed and cached. */
    method Cgoto(s: nat, c: int) returns (r: nat)
      requires Valid() && 1 <= s <= curstat && 0 <= c < NCHARS
      modifies `curstat, `reset, `tab, gototab, posns, out
      ensures Valid() && 1 <= r <= curstat
      ensures Conf(tab, r) == Add(StepOf(root), Conf(Unlooped(old(tab), s, c), s), c)
      ensures Exact() <==> Sound(StepOf(root), tab)
      ensures posns[0] == old(posns[0]) && out[0] == old(out[0])
      ensures !old(Overflows(StepOf(root), Conf(tab, s), c)) ==>
        && OnlyEntry(s, c)
        && (curstat > old(curstat) ==> forall c' :: 0 <= c' < NCHARS && c' != c ==> gototab[curstat, c'] == 0)
    {
      assert Set(s) == tab.sets[s - 1];
      var tmpset: seq<nat>;
      tmpset, r := Lookup(s, c);
      if r != 0 {
        assert Set(r) == tab.sets[r - 1];
        NoteGoto(s, c, r);
      } else {
        assert s != 1 by { DeadRow(c); }
        r := AddState(s, c, tmpset, ToSet(tmpset));
      }
      ExactIff();
    }

    ghost function Start(): set<nat> { StartOf(root, anchor) }

    ghost function Init(): set<nat> { InitOf(root, anchor) }

    /** The saved copy of an anchored automaton's starting set in the slot of state 0. */
    ghost predicate Saved()
      reads posns, out
      requires 0 < posns.Length && 0 < out.Length
    {
      anchor ==>
        && Descending(posns[0]) && Bounded(posns[0], |rows|)
        && Set(0) == Start() && out[0] == (accept in posns[0])
    }

    /** Leave position 0 out of state `k`. */
    method DropAll(k: nat)
      requires k < posns.Length && Descending(posns[k]) && 0 in posns[k] && Bounded(posns[k], |rows|)
      modifies posns
      ensures Descending(posns[k]) && Bounded(posns[k], |rows|) && Set(k) == old(Set(k)) - {0}
      ensures accept != 0 ==> (accept in posns[k] <==> accept in old(posns[k]))
      ensures forall i :: 0 <= i < posns.Length && i != k ==> posns[i] == old(posns[i])
    {
      DropZero(posns[k]);
      assert accept in posns[k] <==> accept in Set(k);
      posns[k] := posns[k][..|posns[k]| - 1];
      assert accept in posns[k] <==> accept in Set(k);
    }

    /** A table of at most three states with no cached text transitions is in order. */
    lemma SmallTable()
      requires Base() && 2 <= curstat <= 3 && TabOk(tab) && |tab.sets| == curstat
      requires tab.reset == reset && tab.loop == NoLoop
      requires StateOk(1) && StateOk(2) && StateOk(curstat)
      requires Set(1) == tab.sets[0] && Set(2) == tab.sets[1] && Set(curstat) == tab.sets[curstat - 1]
      requires forall s, c :: 2 <= s <= curstat && 0 <= c < NCHARS ==>
        0 <= gototab[s, c] <= curstat && (c < HAT ==> gototab[s, c] == 0)
      ensures Valid()
    {
    }

    /** Position 0 left out of both starting states, and state 2 saved in slot 0. */
    method DropZeros()
      requires Base() && anchor && 2 <= curstat <= 3 && StateOk(2)
      requires StateOk(curstat) && 0 in Set(2) && 0 in Set(curstat)
      requires Set(2) - {0} == Start() && Start() in reach && Set(curstat) - {0} in reach
      modifies posns, out
      ensures Base() && Saved() && StateOk(2) && StateOk(curstat)
      ensures Set(2) == old(Set(2)) - {0} && Set(curstat) == old(Set(curstat)) - {0}
    {
      DropAll(2);
      posns[0] := posns[2];
      out[0] := out[2];
      if curstat != 2 {
        DropAll(curstat);
      }
    }

    /** The anchored part of `makeinit`. */
    method LeaveOutZero()
      requires Valid() && anchor && tab == Fresh(root, false) && !reset
      requires forall s, c :: 2 <= s <= curstat && 0 <= c < HAT ==> gototab[s, c] == 0
      modifies posns, out, `tab
      ensures Valid() && Saved() && tab == Fresh(root, anchor)
    {
      assert StateOk(1) && StateOk(2) && StateOk(curstat);
      assert Set(2) == tab.sets[1] && Set(curstat) == tab.sets[curstat - 1];
      DropZeros();
      tab := Fresh(root, true);
      FreshOk(root, accept, true);
      DeadRow(0);
      assert StateOk(1) && Set(1) == tab.sets[0];
      assert Set(2) == tab.sets[1] && Set(curstat) == tab.sets[curstat - 1];
      SmallTable();
    }

    lemma FirstList()
      requires Table()
      ensures Descending(rows[0].lfollow) && Bounded(rows[0].lfollow, |rows|)
      ensures ToSet(rows[0].lfollow) == StartOf(root, false)
      ensures rows[0].lfollow != [] && (rows[0].lfollow[0] == accept <==> accept in rows[0].lfollow)
    {
      FollowBounded(rows, root, 0);
      assert RowOk(rows[0], root, 0);
      HeadIsMax(rows[0].lfollow, accept);
    }

    /** The part of `makeinit` common to searching and anchored automata. */
    method MakeSearching() returns (r: nat)
      requires Base() && !reset
      modifies `curstat, `reset, `tab, gototab, posns, out
      ensures Valid() && !reset && tab == Fresh(root, false) && r == curstat == InitNo(root)
      ensures forall s, c :: 2 <= s <= curstat && 0 <= c < HAT ==> gototab[s, c] == 0
    {
      FirstList();
      var first := rows[0].lfollow;
      StartOver(first, first[0] == accept);
      r := AfterHat();
    }

    /** The state after HAT, found or made right after starting over. */
    method AfterHat() returns (r: nat)
      requires Valid() && tab == Tab([{}, StartOf(root, false)], NoLoop, false)
      requires forall c :: 0 <= c < NCHARS ==> gototab[2, c] == 0
      modifies `curstat, `reset, `tab, gototab, posns, out
      ensures Valid() && tab == Fresh(root, false) && r == curstat == InitNo(root)
      ensures forall s, c :: 2 <= s <= curstat && 0 <= c < HAT ==> gototab[s, c] == 0
    {
      FreshOk(root, accept, false);
      assert 0 in InitOf(root, false);
      r := Cgoto(2, HAT);
    }

    /** `makeinit`: rebuild state 2 and the state after HAT; returns the latter. */
    method MakeInit() returns (r: nat)
      requires Base()
      modifies `curstat, `reset, `tab, gototab, posns, out
      ensures Valid() && Saved() && tab == Fresh(root, anchor) && r == InitNo(root)
    {
      reset := false;
      r := MakeSearching();
      if anchor {
        LeaveOutZero();
      }
    }

    /** One character of a driver's inner loop: the cached transition, or `cgoto`. */
    method Advance(s: nat, c: int) returns (r: nat)
      requires Valid() && 1 <= s <= curstat && 0 <= c < HAT
      modifies `curstat, `reset, `tab, gototab, posns, out
      ensures Valid() && 1 <= r <= curstat && Conf(tab, r) == Take(StepOf(root), Conf(old(tab), s), c)
      ensures out[r] == (accept in Now(Conf(tab, r)))
      ensures posns[0] == old(posns[0]) && out[0] == old(out[0])
    {
      assert Set(s) == tab.sets[s - 1];
      r := gototab[s, c];
      if r == 0 {
        r := Cgoto(s, c);
      } else if s == 1 {
        DeadRow(c);
        assert Set(1) == tab.sets[0];
      } else if !Loops(Conf(tab, s), c) {
        assert EntryExact(s, c);
        assert Set(r) == tab.sets[r - 1];
      }
      assert StateOk(r) && Set(r) == tab.sets[r - 1];
    }

    /** Between calls. */
    ghost predicate Ready()
      reads this, posns, out, gototab
    {
      Valid() && Saved() && AutoOk(root, accept, anchor, Auto(tab, initstat))
    }

    /** The first line of the drivers: the state to begin in. */
    method Begin() returns (s: nat)
      requires Ready()
      modifies `curstat, `reset, `tab, gototab, posns, out
      ensures Valid() && Saved() && 1 <= s <= curstat
      ensures Conf(tab, s) == BeginConf(root, accept, anchor, old(Auto(tab, initstat)))
      ensures out[s] == (accept in Now(Conf(tab, s)))
    {
      if reset {
        s := MakeInit();
      } else {
        s := initstat;
      }
      assert StateOk(s) && Set(s) == tab.sets[s - 1];
    }

    /** `nextin`: go back to state 2, rebuilt from the saved copy if the table was recycled. */
    method NextStart() returns (s: nat)
      requires Valid() && Saved() && anchor
      modifies `initstat, `curstat, `tab, gototab, posns, out
      ensures Valid() && Saved() && s == 2
      ensures Conf(tab, s) == NextConf(Start(), old(tab)) && out[s] == (accept in Now(Conf(tab, s)))
      ensures initstat == if reset then 2 else old(initstat)
    {
      s := 2;
      if reset {
        HeadMember(posns[0]);
        StartOver(posns[0], out[0]);
        initstat := 2;
      }
      assert StateOk(2) && Set(2) == tab.sets[1];
    }
  }
}
