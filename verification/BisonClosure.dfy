/**
 bin/bison/derives.c and bin/bison/closure.c: rules grouped by left-hand side, the bit
 matrices `firsts` and `fderives`, and `closure`, which merges a kernel with the starts of
 all left-reachable rules into one sorted item list.
 */
module BisonClosure {
  import opened BisonWarshall
  import opened BisonGrammar

  predicate Increasing(s: seq<int>) {
    forall i, j :: 0 <= i < j < |s| ==> s[i] < s[j]
  }

  // ---------- set_derives ----------

  /** `rules` lists the live rules for variable `v` (an offset) from `lo` up, in order. */
  ghost predicate RulesFor(g: Grammar, v: int, rules: seq<int>, lo: int) {
    && Increasing(rules)
    && forall r :: r in rules <==> g.Live(r) && lo <= r && g.rlhs[r] == g.ntokens + v
  }

  /** `set_derives`: walking down through the rules, each is put in front of its variable's list. */
  method SetDerives(g: Grammar) returns (derives: seq<seq<int>>)
    requires WellFormed(g)
    ensures |derives| == g.nvars && forall v :: 0 <= v < g.nvars ==> RulesFor(g, v, derives[v], 1)
  {
    var dset := new seq<int>[g.nvars](_ => []);
    var i := g.nrules();
    while i > 0
      invariant 0 <= i <= g.nrules()
      invariant forall v :: 0 <= v < g.nvars ==> RulesFor(g, v, dset[v], i + 1)
    {
      var lhs := g.rlhs[i];
      if lhs >= 0 {
        assert RuleOk(g, i);
        var v := lhs - g.ntokens;
        assert RulesFor(g, v, dset[v], i + 1);
        assert forall k :: 0 <= k < |dset[v]| ==> dset[v][k] in dset[v];
        dset[v] := [i] + dset[v];
      }
      i := i - 1;
    }
    derives := dset[..];
  }

  // ---------- set_firsts, set_fderives ----------

  ghost predicate DerivesOk(g: Grammar, derives: seq<seq<int>>) {
    |derives| == g.nvars && forall v :: 0 <= v < g.nvars ==> RulesFor(g, v, derives[v], 1)
  }

  /** The head variables of the rules for `v` noted in row `v`. */
  method SetFirstsRow(g: Grammar, derives: seq<seq<int>>, row: array2<bool>, v: nat)
    requires WellFormed(g) && DerivesOk(g, derives) && v < g.nvars
    requires row.Length0 == row.Length1 == g.nvars && forall b :: 0 <= b < g.nvars ==> !row[v, b]
    modifies row
    ensures forall b: nat :: b < g.nvars ==> (row[v, b] <==> Heads(g, v, b))
    ensures forall a, b :: 0 <= a < g.nvars && a != v && 0 <= b < g.nvars ==> row[a, b] == old(row[a, b])
  {
    var rules := derives[v];
    for sp := 0 to |rules|
      invariant forall b: nat :: b < g.nvars ==>
        (row[v, b] <==> exists k :: 0 <= k < sp && HeadsRule(g, v, b, rules[k]))
      invariant forall a, b :: 0 <= a < g.nvars && a != v && 0 <= b < g.nvars ==> row[a, b] == old(row[a, b])
    {
      assert rules[sp] in rules;
      assert RuleOk(g, rules[sp]);
      var symbol := g.ritem[g.rrhs[rules[sp]]];
      if g.IsVar(symbol) {
        row[v, symbol - g.ntokens] := true;
        assert HeadsRule(g, v, symbol - g.ntokens, rules[sp]);
      }
    }
    forall b: nat | b < g.nvars ensures row[v, b] <==> Heads(g, v, b) {
      if Heads(g, v, b) {
        var r :| HeadsRule(g, v, b, r);
        assert r in rules;
        var k :| 0 <= k < |rules| && rules[k] == r;
      }
    }
  }

  /** `set_firsts`. */
  method SetFirsts(g: Grammar, derives: seq<seq<int>>) returns (firsts: array2<bool>)
    requires WellFormed(g) && DerivesOk(g, derives)
    ensures fresh(firsts) && firsts.Length0 == firsts.Length1 == g.nvars
    ensures forall a: nat, b: nat :: a < g.nvars && b < g.nvars ==> (firsts[a, b] <==> Reach(HeadRel(g), a, b))
  {
    firsts := new bool[g.nvars, g.nvars]((_, _) => false);
    for v := 0 to g.nvars
      invariant forall a: nat, b: nat :: a < v && b < g.nvars ==> (firsts[a, b] <==> Heads(g, a, b))
      invariant forall a, b :: v <= a < g.nvars && 0 <= b < g.nvars ==> !firsts[a, b]
    {
      SetFirstsRow(g, derives, firsts, v);
    }
    RTC(firsts, HeadRel(g));
  }

  /** Rule `r` can help derive the beginning of variable `a` (an offset). */
  ghost predicate CanBegin(g: Grammar, a: int, r: int) {
    g.Live(r) && LeftReach(g, g.ntokens + a, g.rlhs[r])
  }

  ghost predicate FderivesOk(g: Grammar, fderives: array2<bool>)
    reads fderives
  {
    && fderives.Length0 == g.nvars && fderives.Length1 == |g.rlhs|
    && forall a, r :: 0 <= a < g.nvars && 0 <= r < |g.rlhs| ==> (fderives[a, r] <==> CanBegin(g, a, r))
  }

  /** All rules for variable `j` set in row `i`. */
  method SetBits(g: Grammar, rules: seq<int>, fderives: array2<bool>, i: nat)
    requires fderives.Length0 == g.nvars && fderives.Length1 == |g.rlhs| && i < g.nvars
    requires forall r :: r in rules ==> 0 <= r < |g.rlhs|
    modifies fderives
    ensures forall r :: 0 <= r < |g.rlhs| ==> (fderives[i, r] <==> old(fderives[i, r]) || r in rules)
    ensures forall a, r :: 0 <= a < g.nvars && a != i && 0 <= r < |g.rlhs| ==> fderives[a, r] == old(fderives[a, r])
  {
    for k := 0 to |rules|
      invariant forall r :: 0 <= r < |g.rlhs| ==> (fderives[i, r] <==> old(fderives[i, r]) || r in rules[..k])
      invariant forall a, r :: 0 <= a < g.nvars && a != i && 0 <= r < |g.rlhs| ==> fderives[a, r] == old(fderives[a, r])
    {
      assert rules[k] in rules;
      assert rules[..k+1] == rules[..k] + [rules[k]];
      fderives[i, rules[k]] := true;
    }
    assert rules[..|rules|] == rules;
  }

  /** One row of `set_fderives`. */
  method SetFderivesRow(g: Grammar, derives: seq<seq<int>>, firsts: array2<bool>, fderives: array2<bool>, i: nat)
    requires WellFormed(g) && DerivesOk(g, derives) && i < g.nvars && firsts != fderives
    requires firsts.Length0 == firsts.Length1 == g.nvars
    requires forall a: nat, b: nat :: a < g.nvars && b < g.nvars ==> (firsts[a, b] <==> Reach(HeadRel(g), a, b))
    requires fderives.Length0 == g.nvars && fderives.Length1 == |g.rlhs|
    requires forall r :: 0 <= r < |g.rlhs| ==> !fderives[i, r]
    modifies fderives
    ensures forall r :: 0 <= r < |g.rlhs| ==> (fderives[i, r] <==> CanBegin(g, i, r))
    ensures forall a, r :: 0 <= a < g.nvars && a != i && 0 <= r < |g.rlhs| ==> fderives[a, r] == old(fderives[a, r])
  {
    for j := 0 to g.nvars
      invariant forall r :: 0 <= r < |g.rlhs| ==> (fderives[i, r] <==> CanBegin(g, i, r) && g.rlhs[r] < g.ntokens + j)
      invariant forall a, r :: 0 <= a < g.nvars && a != i && 0 <= r < |g.rlhs| ==> fderives[a, r] == old(fderives[a, r])
    {
      assert RulesFor(g, j, derives[j], 1);
      if firsts[i, j] {
        SetBits(g, derives[j], fderives, i);
      }
    }
    forall r | g.Live(r) ensures g.rlhs[r] < g.nsyms() { assert RuleOk(g, r); }
  }

  /** `set_fderives`. */
  method SetFderives(g: Grammar, derives: seq<seq<int>>) returns (fderives: array2<bool>)
    requires WellFormed(g) && DerivesOk(g, derives)
    ensures fresh(fderives) && FderivesOk(g, fderives)
  {
    fderives := new bool[g.nvars, |g.rlhs|]((_, _) => false);
    var firsts := SetFirsts(g, derives);
    for i := 0 to g.nvars
      invariant forall a, r :: 0 <= a < i && 0 <= r < |g.rlhs| ==> (fderives[a, r] <==> CanBegin(g, a, r))
      invariant forall a, r :: i <= a < g.nvars && 0 <= r < |g.rlhs| ==> !fderives[a, r]
      invariant forall a: nat, b: nat :: a < g.nvars && b < g.nvars ==> (firsts[a, b] <==> Reach(HeadRel(g), a, b))
    {
      SetFderivesRow(g, derives, firsts, fderives, i);
    }
  }

  // ---------- closure ----------

  /** A kernel: items in order, each just after a symbol. */
  ghost predicate KernelOk(g: Grammar, core: seq<int>) {
    Increasing(core) && forall k :: 0 <= k < |core| ==> AfterSymbol(g, core[k])
  }

  ghost predicate AfterSymbol(g: Grammar, k: int) {
    1 <= k && IsItem(g, k) && g.ritem[k - 1] > 0
  }

  /** Rule `r` is one the kernel makes active. */
  ghost predicate Wanted(g: Grammar, core: seq<int>, r: int) {
    && g.Live(r)
    && if core == [] then LeftReach(g, g.start, g.rlhs[r])
       else exists k :: 0 <= k < |core| && WantedBy(g, core[k], r)
  }

  ghost predicate WantedBy(g: Grammar, i: int, r: int) {
    g.Live(r) && IsItem(g, i) && LeftReach(g, g.ritem[i], g.rlhs[r])
  }

  /** The first part of `closure`: the set of wanted rules. */
  method Ruleset(g: Grammar, fderives: array2<bool>, core: seq<int>) returns (ruleset: array<bool>)
    requires WellFormed(g) && FderivesOk(g, fderives) && KernelOk(g, core)
    ensures fresh(ruleset) && ruleset.Length == |g.rlhs|
    ensures forall r :: 0 <= r < |g.rlhs| ==> (ruleset[r] <==> Wanted(g, core, r))
  {
    ruleset := new bool[|g.rlhs|](_ => false);
    if core == [] {
      for r := 0 to |g.rlhs|
        invariant forall s :: 0 <= s < r ==> (ruleset[s] <==> Wanted(g, core, s))
      {
        ruleset[r] := fderives[g.start - g.ntokens, r];
        assert CanBegin(g, g.start - g.ntokens, r) <==> Wanted(g, core, r);
      }
    } else {
      for csp := 0 to |core|
        invariant forall r :: 0 <= r < |g.rlhs| ==>
          (ruleset[r] <==> exists k :: 0 <= k < csp && WantedBy(g, core[k], r))
      {
        assert AfterSymbol(g, core[csp]);
        var symbol := g.ritem[core[csp]];
        ghost var was := ruleset[..];
        if g.IsVar(symbol) {
          OrRules(g, fderives, symbol - g.ntokens, ruleset);
        }
        forall r | 0 <= r < |g.rlhs| ensures ruleset[r] <==> was[r] || WantedBy(g, core[csp], r) {
          assert g.IsVar(symbol) ==> (CanBegin(g, symbol - g.ntokens, r) <==> WantedBy(g, core[csp], r));
        }
      }
    }
  }

  method OrRules(g: Grammar, fderives: array2<bool>, a: nat, ruleset: array<bool>)
    requires FderivesOk(g, fderives) && a < g.nvars && ruleset.Length == |g.rlhs|
    modifies ruleset
    ensures forall r :: 0 <= r < |g.rlhs| ==> (ruleset[r] <==> old(ruleset[r]) || CanBegin(g, a, r))
  {
    for r := 0 to |g.rlhs|
      invariant forall s :: 0 <= s < r ==> (ruleset[s] <==> old(ruleset[s]) || CanBegin(g, a, s))
      invariant forall s :: r <= s < |g.rlhs| ==> ruleset[s] == old(ruleset[s])
    {
      ruleset[r] := ruleset[r] || fderives[a, r];
    }
  }

  /** The items merged so far: the kernel's first `csp` and the starts of wanted rules below `ruleno`. */
  ghost predicate Merged(g: Grammar, core: seq<int>, wanted: seq<bool>, csp: nat, ruleno: nat, itemset: seq<int>)
    requires csp <= |core| && ruleno <= |wanted| == |g.rlhs| == |g.rrhs|
  {
    && Increasing(itemset)
    && (forall j :: j in itemset <==> j in core[..csp] || exists r :: 0 <= r < ruleno && wanted[r] && g.rrhs[r] == j)
    && (forall t, k :: 0 <= t < |itemset| && csp <= k < |core| ==> itemset[t] < core[k])
    && (forall t, r :: 0 <= t < |itemset| && ruleno <= r < |wanted| && wanted[r] ==> itemset[t] < g.rrhs[r])
  }

  /** What the bits of the rule set are like. */
  ghost predicate RuleBits(g: Grammar, wanted: seq<bool>) {
    |wanted| == |g.rlhs| && forall r :: 0 <= r < |wanted| && wanted[r] ==> g.Live(r)
  }

  /** Copy kernel items that come before item `itemno`, then `itemno` itself. */
  method MergeRule(g: Grammar, core: seq<int>, wanted: seq<bool>, csp: nat, ruleno: nat, itemset: seq<int>)
      returns (csp': nat, itemset': seq<int>)
    requires WellFormed(g) && KernelOk(g, core) && RuleBits(g, wanted)
    requires csp <= |core| && ruleno < |wanted| && wanted[ruleno] && Merged(g, core, wanted, csp, ruleno, itemset)
    ensures csp' <= |core| && Merged(g, core, wanted, csp', ruleno + 1, itemset')
  {
    assert RuleOk(g, ruleno);
    var itemno := g.rrhs[ruleno];
    csp', itemset' := csp, itemset;
    while csp' < |core| && core[csp'] < itemno
      invariant csp <= csp' <= |core| && Merged(g, core, wanted, csp', ruleno, itemset')
    {
      TakeKernelItem(g, core, wanted, csp', ruleno, itemset');
      itemset' := itemset' + [core[csp']];
      csp' := csp' + 1;
    }
    forall k | csp' <= k < |core| ensures itemno < core[k] {
      assert AfterSymbol(g, core[csp']);
    }
    forall t | 0 <= t < |itemset'| ensures itemset'[t] < itemno {}
    itemset' := itemset' + [itemno];
  }

  lemma TakeKernelItem(g: Grammar, core: seq<int>, wanted: seq<bool>, csp: nat, ruleno: nat, itemset: seq<int>)
    requires WellFormed(g) && KernelOk(g, core) && RuleBits(g, wanted)
    requires csp < |core| && ruleno <= |wanted| && Merged(g, core, wanted, csp, ruleno, itemset)
    requires forall r :: ruleno <= r < |wanted| && wanted[r] ==> core[csp] < g.rrhs[r]
    ensures Merged(g, core, wanted, csp + 1, ruleno, itemset + [core[csp]])
  {
    assert core[..csp+1] == core[..csp] + [core[csp]];
  }

  /** The second part of `closure`: the merge. */
  method Merge(g: Grammar, core: seq<int>, wanted: seq<bool>) returns (itemset: seq<int>)
    requires WellFormed(g) && KernelOk(g, core) && RuleBits(g, wanted)
    ensures Increasing(itemset)
    ensures forall j :: j in itemset <==> j in core || exists r :: 0 <= r < |wanted| && wanted[r] && g.rrhs[r] == j
  {
    itemset := [];
    var csp: nat := 0;
    for ruleno := 0 to |wanted|
      invariant csp <= |core| && Merged(g, core, wanted, csp, ruleno, itemset)
    {
      if wanted[ruleno] {
        csp, itemset := MergeRule(g, core, wanted, csp, ruleno, itemset);
      }
    }
    while csp < |core|
      invariant csp <= |core| && Merged(g, core, wanted, csp, |wanted|, itemset)
    {
      TakeKernelItem(g, core, wanted, csp, |wanted|, itemset);
      itemset := itemset + [core[csp]];
      csp := csp + 1;
    }
    assert core[..csp] == core;
  }

  /** `closure`: the kernel's closure as a strictly increasing item list. */
  method Closure(g: Grammar, fderives: array2<bool>, core: seq<int>) returns (itemset: seq<int>)
    requires WellFormed(g) && FderivesOk(g, fderives) && KernelOk(g, core)
    ensures Increasing(itemset) && forall j :: j in itemset ==> IsItem(g, j)
    ensures forall j :: j in itemset <==> InClosure(g, core, j)
  {
    var ruleset := Ruleset(g, fderives, core);
    var wanted := ruleset[..];
    itemset := Merge(g, core, wanted);
    forall j ensures j in itemset <==> InClosure(g, core, j) {
      WantedMeaning(g, core, wanted, j);
    }
    forall j | j in itemset ensures IsItem(g, j) {
      if j in core {
        var k :| 0 <= k < |core| && core[k] == j;
        assert AfterSymbol(g, core[k]);
      } else {
        var r :| 0 <= r < |wanted| && wanted[r] && g.rrhs[r] == j;
        assert RuleOk(g, r);
      }
    }
  }

  lemma WantedMeaning(g: Grammar, core: seq<int>, wanted: seq<bool>, j: int)
    requires WellFormed(g) && |wanted| == |g.rlhs| && KernelOk(g, core)
    requires forall r :: 0 <= r < |wanted| ==> (wanted[r] <==> Wanted(g, core, r))
    ensures InClosure(g, core, j) <==>
      j in core || exists r :: 0 <= r < |wanted| && wanted[r] && g.rrhs[r] == j
  {
    if r :| 0 <= r < |wanted| && wanted[r] && g.rrhs[r] == j {
      if core == [] {
        assert LeftStartRule(g, g.start, j, r);
      } else {
        var k :| 0 <= k < |core| && WantedBy(g, core[k], r);
        assert LeftStartRule(g, g.ritem[core[k]], j, r);
        assert core[k] in core;
      }
    }
    if InClosure(g, core, j) && j !in core {
      if core == [] {
        var r :| LeftStartRule(g, g.start, j, r);
        assert wanted[r];
      } else {
        var i :| i in core && IsItem(g, i) && LeftStart(g, g.ritem[i], j);
        var r :| LeftStartRule(g, g.ritem[i], j, r);
        var k :| 0 <= k < |core| && core[k] == i;
        assert WantedBy(g, core[k], r);
        assert wanted[r];
      }
    }
  }
}
