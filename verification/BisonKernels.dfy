/**
 bin/bison/LR0.c, `allocate_itemsets` and `new_itemsets`: all kernels reached from a closure
 by one symbol, kept in one array with a fixed region per symbol.
 */
module BisonKernels {
  import opened BisonGrammar
  import opened BisonClosure

  /** How often symbol `x` occurs among the first `n` items. */
  ghost function Occurs(g: Grammar, x: int, n: nat): nat
    requires n <= |g.ritem|
  {
    if n == 0 then 0 else Occurs(g, x, n - 1) + (if g.ritem[n - 1] == x then 1 else 0)
  }

  /** Where the region of symbol `x` begins. */
  ghost function Base(g: Grammar, x: nat): nat
    requires |g.ritem| >= 1
  {
    if x == 0 then 0 else Base(g, x - 1) + SlotCount(g, x - 1)
  }

  /** The slots a symbol gets; the end marker and symbol 0 are not counted. */
  ghost function SlotCount(g: Grammar, x: nat): nat
    requires |g.ritem| >= 1
  {
    if x == 0 then 0 else Occurs(g, x, g.nitems())
  }

  lemma {:induction false} BaseMono(g: Grammar, x: nat, y: nat)
    requires |g.ritem| >= 1 && x < y
    ensures Base(g, x) + SlotCount(g, x) <= Base(g, y)
  {
    if x + 1 < y { BaseMono(g, x, y - 1); }
  }

  lemma {:induction false} OccursMono(g: Grammar, x: int, m: nat, n: nat)
    requires m <= n <= |g.ritem|
    ensures Occurs(g, x, m) <= Occurs(g, x, n)
  {
    if m < n { OccursMono(g, x, m, n - 1); }
  }

  /** The first loop of `allocate_itemsets`: how often each symbol occurs. */
  method CountSymbols(g: Grammar) returns (symbolCount: array<int>)
    requires WellFormed(g)
    ensures fresh(symbolCount) && symbolCount.Length == g.nsyms()
    ensures forall x: nat :: x < g.nsyms() ==> symbolCount[x] == SlotCount(g, x)
  {
    symbolCount := new int[g.nsyms()](_ => 0);
    var itemp := 0;
    while g.ritem[itemp] != 0
      invariant 0 <= itemp <= g.nitems()
      invariant symbolCount.Length > 0 ==> symbolCount[0] == 0
      invariant forall x: nat :: 0 < x < g.nsyms() ==> symbolCount[x] == Occurs(g, x, itemp)
      decreases g.nitems() - itemp
    {
      var symbol := g.ritem[itemp];
      if symbol > 0 {
        symbolCount[symbol] := symbolCount[symbol] + 1;
      }
      itemp := itemp + 1;
    }
  }

  /** Where the regions of the first symbols begin. */
  ghost predicate AreBases(g: Grammar, bases: seq<int>)
    requires |g.ritem| >= 1
  {
    forall x: nat :: x < |bases| ==> bases[x] == Base(g, x)
  }

  lemma BasesSnoc(g: Grammar, bases: seq<int>, base: int)
    requires |g.ritem| >= 1 && AreBases(g, bases) && base == Base(g, |bases|)
    ensures AreBases(g, bases + [base])
  {
  }

  /** `allocate_itemsets`: one region of `kernelItems` per symbol. */
  method AllocateItemsets(g: Grammar) returns (kernelItems: array<int>, kernelBase: seq<int>)
    requires WellFormed(g)
    ensures fresh(kernelItems) && kernelItems.Length == Base(g, g.nsyms())
    ensures |kernelBase| == g.nsyms() && forall x: nat :: x < g.nsyms() ==> kernelBase[x] == Base(g, x)
  {
    var symbolCount := CountSymbols(g);
    kernelBase := [];
    var count := 0;
    for i := 0 to g.nsyms()
      invariant count == Base(g, i) && |kernelBase| == i && AreBases(g, kernelBase)
      invariant forall x: nat :: x < g.nsyms() ==> symbolCount[x] == SlotCount(g, x)
    {
      BasesSnoc(g, kernelBase, count);
      assert Base(g, i + 1) == Base(g, i) + SlotCount(g, i) && symbolCount[i] == SlotCount(g, i);
      kernelBase := kernelBase + [count];
      count := count + symbolCount[i];
    }
    kernelItems := new int[count](_ => 0);
  }

  /** The kernel after `x`: the items of the list that stand before `x`, moved past it. */
  ghost function KernelOf(g: Grammar, items: seq<int>, x: int): seq<int>
    requires forall k :: 0 <= k < |items| ==> IsItem(g, items[k])
  {
    if items == [] then []
    else
      var n := |items| - 1;
      assert IsItem(g, items[n]);
      KernelOf(g, items[..n], x) + (if g.ritem[items[n]] == x then [items[n] + 1] else [])
  }

  ghost predicate ItemList(g: Grammar, items: seq<int>) {
    Increasing(items) && forall k :: 0 <= k < |items| ==> IsItem(g, items[k])
  }

  /** A kernel never outgrows its region. */
  lemma {:induction false} KernelFits(g: Grammar, items: seq<int>, x: int)
    requires ItemList(g, items)
    ensures |KernelOf(g, items, x)| <= Occurs(g, x, if items == [] then 0 else items[|items|-1] + 1)
  {
    if items != [] {
      var n := |items| - 1;
      KernelFits(g, items[..n], x);
      OccursMono(g, x, if n == 0 then 0 else items[n-1] + 1, items[n]);
    }
  }

  /** `k` comes from an item of the list that stands before `x`. */
  ghost predicate FromItem(g: Grammar, items: seq<int>, x: int, k: int) {
    IsItem(g, k - 1) && k - 1 in items && g.ritem[k - 1] == x
  }

  lemma {:induction false} KernelMember(g: Grammar, items: seq<int>, x: int, k: int)
    requires ItemList(g, items)
    ensures k in KernelOf(g, items, x) <==> FromItem(g, items, x, k)
  {
    if items != [] {
      var n := |items| - 1;
      KernelMember(g, items[..n], x, k);
      InSnoc(items, k - 1);
      assert IsItem(g, items[n]);
    }
  }

  lemma InSnoc(s: seq<int>, y: int)
    requires s != []
    ensures y in s <==> y in s[..|s| - 1] || y == s[|s| - 1]
  {
    assert s == s[..|s| - 1] + [s[|s| - 1]];
  }

  lemma {:induction false} KernelIncreasing(g: Grammar, items: seq<int>, x: int)
    requires ItemList(g, items)
    ensures Increasing(KernelOf(g, items, x))
  {
    if items != [] {
      var n := |items| - 1;
      var rest := items[..n];
      KernelIncreasing(g, rest, x);
      var k := KernelOf(g, rest, x);
      forall t | 0 <= t < |k| ensures k[t] < items[n] + 1 {
        KernelMember(g, rest, x, k[t]);
        var u :| 0 <= u < n && items[u] == k[t] - 1;
      }
    }
  }

  // ---------- new_itemsets ----------

  /** The scratch arrays hold the kernels of `items`: end -1 stands for NULL. */
  ghost predicate Holds(g: Grammar, items: seq<int>, kernelItems: seq<int>, kernelBase: seq<int>, kernelEnd: seq<int>) {
    && ItemList(g, items) && |kernelBase| == |kernelEnd| == g.nsyms()
    && forall x: nat :: 0 < x < g.nsyms() ==> HoldsFor(g, items, kernelItems, kernelBase, kernelEnd, x)
  }

  ghost predicate HoldsFor(g: Grammar, items: seq<int>, kernelItems: seq<int>, kernelBase: seq<int>,
                           kernelEnd: seq<int>, x: nat)
    requires ItemList(g, items) && x < |kernelBase| && x < |kernelEnd|
  {
    var k := KernelOf(g, items, x);
    if k == [] then kernelEnd[x] == -1
    else
      && 0 <= kernelBase[x] <= kernelEnd[x] <= |kernelItems|
      && kernelEnd[x] == kernelBase[x] + |k| && kernelItems[kernelBase[x]..kernelEnd[x]] == k
  }

  /** The symbols that can be shifted, each once. */
  ghost predicate ShiftSymbols(g: Grammar, items: seq<int>, symbols: seq<int>)
    requires ItemList(g, items)
  {
    && (forall i, j :: 0 <= i < j < |symbols| ==> symbols[i] != symbols[j])
    && forall x :: x in symbols <==> 0 < x < g.nsyms() && KernelOf(g, items, x) != []
  }

  lemma KernelSnoc(g: Grammar, items: seq<int>, t: nat, x: int)
    requires ItemList(g, items) && t < |items|
    ensures ItemList(g, items[..t]) && ItemList(g, items[..t+1])
    ensures KernelOf(g, items[..t+1], x) ==
      KernelOf(g, items[..t], x) + (if g.ritem[items[t]] == x then [items[t] + 1] else [])
  {
    assert items[..t+1][..t] == items[..t];
  }

  /** A place in the region of `x` that is still free. */
  lemma SlotFree(g: Grammar, items: seq<int>, t: nat, x: nat)
    requires WellFormed(g) && ItemList(g, items) && t < |items| && 0 < x < g.nsyms() && g.ritem[items[t]] == x
    ensures ItemList(g, items[..t]) && |KernelOf(g, items[..t], x)| < SlotCount(g, x)
  {
    KernelSnoc(g, items, t, x);
    KernelFits(g, items[..t+1], x);
    OccursMono(g, x, items[t] + 1, g.nitems());
  }

  /** Regions do not overlap. */
  lemma RegionsApart(g: Grammar, x: nat, y: nat)
    requires |g.ritem| >= 1 && x < g.nsyms() && y < g.nsyms() && x != y
    ensures Base(g, x) + SlotCount(g, x) <= Base(g, y) || Base(g, y) + SlotCount(g, y) <= Base(g, x)
    ensures Base(g, x) + SlotCount(g, x) <= Base(g, g.nsyms())
  {
    BaseMono(g, x, g.nsyms());
    if x < y { BaseMono(g, x, y); } else { BaseMono(g, y, x); }
  }

  /** Distinct numbers below `n` are at most `n` many. */
  lemma {:induction false} DistinctBelow(s: seq<int>, n: nat)
    requires forall i :: 0 <= i < |s| ==> 0 <= s[i] < n
    requires forall i, j :: 0 <= i < j < |s| ==> s[i] != s[j]
    ensures |s| <= n
    decreases n
  {
    if s != [] {
      assert 0 <= s[0] < n;
      if k :| 0 <= k < |s| && s[k] == n - 1 {
        DistinctBelow(s[..k] + s[k+1..], n - 1);
      } else {
        DistinctBelow(s, n - 1);
      }
    }
  }

  /** One item put into the region of the symbol it stands before. */
  method PutItem(g: Grammar, items: seq<int>, t: nat, symbol: nat,
                 kernelItems: array<int>, kernelBase: seq<int>, kernelEnd: array<int>)
    requires WellFormed(g) && ItemList(g, items) && t < |items| && symbol == g.ritem[items[t]] && 0 < symbol
    requires kernelItems != kernelEnd && kernelItems.Length == Base(g, g.nsyms()) && kernelEnd.Length == g.nsyms()
    requires |kernelBase| == g.nsyms() && forall x: nat :: x < g.nsyms() ==> kernelBase[x] == Base(g, x)
    requires Holds(g, items[..t], kernelItems[..], kernelBase, kernelEnd[..])
    modifies kernelItems, kernelEnd
    ensures Holds(g, items[..t+1], kernelItems[..], kernelBase, kernelEnd[..])
  {
    SlotFree(g, items, t, symbol);
    RegionsApart(g, symbol, 0);
    ghost var was, wasEnd := kernelItems[..], kernelEnd[..];
    assert HoldsFor(g, items[..t], was, kernelBase, wasEnd, symbol);
    var ksp := kernelEnd[symbol];
    if ksp == -1 {
      ksp := kernelBase[symbol];
    }
    kernelItems[ksp] := items[t] + 1;
    kernelEnd[symbol] := ksp + 1;
    ghost var now, nowEnd, some := kernelItems[..], kernelEnd[..], items[..t+1];
    KernelSnoc(g, items, t, symbol);
    forall x: nat | 0 < x < g.nsyms() ensures HoldsFor(g, some, now, kernelBase, nowEnd, x) {
      KernelSnoc(g, items, t, x);
      assert HoldsFor(g, items[..t], was, kernelBase, wasEnd, x);
      if x != symbol {
        OtherRegion(g, items, t, was, kernelItems[..], kernelBase, wasEnd, kernelEnd[..], x, symbol, ksp);
      } else {
        var k := KernelOf(g, items[..t], x);
        assert kernelItems[kernelBase[x]..ksp] == k;
        assert kernelItems[..][kernelBase[x]..ksp+1] == k + [items[t] + 1];
      }
    }
  }

  lemma KernelWithin(g: Grammar, items: seq<int>, x: nat)
    requires WellFormed(g) && ItemList(g, items) && 0 < x
    ensures |KernelOf(g, items, x)| <= SlotCount(g, x)
  {
    KernelFits(g, items, x);
    OccursMono(g, x, if items == [] then 0 else items[|items|-1] + 1, g.nitems());
  }

  lemma OtherRegion(g: Grammar, items: seq<int>, t: nat, was: seq<int>, now: seq<int>, kernelBase: seq<int>,
                    wasEnd: seq<int>, nowEnd: seq<int>, x: nat, symbol: nat, ksp: nat)
    requires WellFormed(g) && ItemList(g, items) && t < |items| && symbol == g.ritem[items[t]]
    requires 0 < x < g.nsyms() && 0 < symbol < g.nsyms() && x != symbol
    requires |kernelBase| == g.nsyms() && forall x: nat :: x < g.nsyms() ==> kernelBase[x] == Base(g, x)
    requires |was| == |now| && ksp < |was| && now == was[ksp := now[ksp]]
    requires Base(g, symbol) <= ksp < Base(g, symbol) + SlotCount(g, symbol)
    requires |wasEnd| == |nowEnd| == g.nsyms() && nowEnd[x] == wasEnd[x]
    requires ItemList(g, items[..t]) && HoldsFor(g, items[..t], was, kernelBase, wasEnd, x)
    ensures ItemList(g, items[..t+1]) && HoldsFor(g, items[..t+1], now, kernelBase, nowEnd, x)
  {
    KernelSnoc(g, items, t, x);
    RegionsApart(g, x, symbol);
    KernelWithin(g, items[..t], x);
    var k := KernelOf(g, items[..t], x);
    assert KernelOf(g, items[..t+1], x) == k;
    if k != [] {
      assert now[kernelBase[x]..wasEnd[x]] == was[kernelBase[x]..wasEnd[x]];
    }
  }

  lemma SymbolsSnoc(g: Grammar, items: seq<int>, t: nat, symbols: seq<int>)
    requires WellFormed(g) && ItemList(g, items) && t < |items|
    requires ItemList(g, items[..t]) && ItemList(g, items[..t+1]) && ShiftSymbols(g, items[..t], symbols)
    ensures var x := g.ritem[items[t]];
      ShiftSymbols(g, items[..t+1], if x > 0 && KernelOf(g, items[..t], x) == [] then symbols + [x] else symbols)
  {
    forall y { KernelSnoc(g, items, t, y); }
  }

  /** The body of the loop of `new_itemsets`. */
  method TakeItem(g: Grammar, items: seq<int>, isp: nat, kernelItems: array<int>, kernelBase: seq<int>,
                  kernelEnd: array<int>, shiftSymbol: array<int>, nshifts0: nat) returns (nshifts: nat)
    requires WellFormed(g) && ItemList(g, items) && isp < |items|
    requires kernelItems != kernelEnd && kernelItems != shiftSymbol && kernelEnd != shiftSymbol
    requires kernelItems.Length == Base(g, g.nsyms()) && kernelEnd.Length == shiftSymbol.Length == g.nsyms()
    requires |kernelBase| == g.nsyms() && forall x: nat :: x < g.nsyms() ==> kernelBase[x] == Base(g, x)
    requires Holds(g, items[..isp], kernelItems[..], kernelBase, kernelEnd[..])
    requires nshifts0 <= g.nsyms() && ShiftSymbols(g, items[..isp], shiftSymbol[..nshifts0])
    modifies kernelItems, kernelEnd, shiftSymbol
    ensures Holds(g, items[..isp+1], kernelItems[..], kernelBase, kernelEnd[..])
    ensures nshifts <= g.nsyms() && ShiftSymbols(g, items[..isp+1], shiftSymbol[..nshifts])
  {
    nshifts := nshifts0;
    assert IsItem(g, items[isp]);
    var symbol := g.ritem[items[isp]];
    KernelSnoc(g, items, isp, symbol);
    ghost var was := shiftSymbol[..nshifts];
    SymbolsSnoc(g, items, isp, was);
    if symbol > 0 {
      assert HoldsFor(g, items[..isp], kernelItems[..], kernelBase, kernelEnd[..], symbol);
      if kernelEnd[symbol] == -1 {
        RoomForSymbol(g, items[..isp], was, symbol);
        shiftSymbol[nshifts] := symbol;
        nshifts := nshifts + 1;
        assert shiftSymbol[..nshifts] == was + [symbol];
      }
      PutItem(g, items, isp, symbol, kernelItems, kernelBase, kernelEnd);
    } else {
      Unmoved(g, items, isp, kernelItems[..], kernelBase, kernelEnd[..]);
    }
  }

  /** An item at the end of a rule adds to no kernel. */
  lemma Unmoved(g: Grammar, items: seq<int>, t: nat, kernelItems: seq<int>, kernelBase: seq<int>, kernelEnd: seq<int>)
    requires WellFormed(g) && ItemList(g, items) && t < |items| && g.ritem[items[t]] <= 0
    requires Holds(g, items[..t], kernelItems, kernelBase, kernelEnd)
    ensures Holds(g, items[..t+1], kernelItems, kernelBase, kernelEnd)
  {
    KernelSnoc(g, items, t, 1);
    var some := items[..t+1];
    forall x: nat | 0 < x < g.nsyms() ensures HoldsFor(g, some, kernelItems, kernelBase, kernelEnd, x) {
      KernelSnoc(g, items, t, x);
      assert HoldsFor(g, items[..t], kernelItems, kernelBase, kernelEnd, x);
    }
  }

  /** `new_itemsets`. */
  method NewItemsets(g: Grammar, items: seq<int>, kernelItems: array<int>, kernelBase: seq<int>,
                     kernelEnd: array<int>, shiftSymbol: array<int>) returns (nshifts: nat)
    requires WellFormed(g) && ItemList(g, items)
    requires kernelItems != kernelEnd && kernelItems != shiftSymbol && kernelEnd != shiftSymbol
    requires kernelItems.Length == Base(g, g.nsyms()) && kernelEnd.Length == shiftSymbol.Length == g.nsyms()
    requires |kernelBase| == g.nsyms() && forall x: nat :: x < g.nsyms() ==> kernelBase[x] == Base(g, x)
    modifies kernelItems, kernelEnd, shiftSymbol
    ensures Holds(g, items, kernelItems[..], kernelBase, kernelEnd[..])
    ensures nshifts <= g.nsyms() && ShiftSymbols(g, items, shiftSymbol[..nshifts])
  {
    for i := 0 to kernelEnd.Length
      invariant forall x :: 0 <= x < i ==> kernelEnd[x] == -1
    {
      kernelEnd[i] := -1;
    }
    nshifts := 0;
    assert items[..0] == [];
    for isp := 0 to |items|
      invariant Holds(g, items[..isp], kernelItems[..], kernelBase, kernelEnd[..])
      invariant nshifts <= g.nsyms() && ShiftSymbols(g, items[..isp], shiftSymbol[..nshifts])
    {
      nshifts := TakeItem(g, items, isp, kernelItems, kernelBase, kernelEnd, shiftSymbol, nshifts);
    }
    assert items[..|items|] == items;
  }

  lemma RoomForSymbol(g: Grammar, items: seq<int>, symbols: seq<int>, x: int)
    requires ItemList(g, items) && ShiftSymbols(g, items, symbols) && 0 < x < g.nsyms() && KernelOf(g, items, x) == []
    ensures |symbols| < g.nsyms()
  {
    var more := symbols + [x];
    assert x !in symbols;
    forall i | 0 <= i < |more| ensures 0 <= more[i] < g.nsyms() {
      if i < |symbols| { assert symbols[i] in symbols; }
    }
    DistinctBelow(more, g.nsyms());
  }
}
