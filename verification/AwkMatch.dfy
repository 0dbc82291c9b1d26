/**
 The drivers of bin/awk/b.c: `match` (is there a match), `pmatch` (leftmost-longest) and
 `nematch` (leftmost-longest among the non-empty ones), over the lazily built automaton.
 */
module AwkMatch {
  import opened Positions
  import opened AwkTree
  import opened AwkRuns
  import opened AwkTable
  import opened AwkCalls
  import opened AwkMachine

  /** `f` is the automaton of `pat`. */
  ghost predicate For(f: Fa, pat: Re) {
    WellNumbered(pat, f.accept) && f.root == Compiled(pat, f.accept)
  }

  /** What `f` keeps between calls. */
  ghost function AutoOf(f: Fa): Auto
    reads f
  {
    Auto(f.tab, f.initstat)
  }

  /** Where a call begins. */
  ghost function FirstConf(f: Fa): Conf
    reads f, f.posns, f.out, f.gototab
    requires f.Ready()
  {
    BeginConf(f.root, f.accept, f.anchor, AutoOf(f))
  }

  /** A table that begins a call lives in the family. */
  lemma BeginInside(f: Fa)
    requires f.Ready()
    ensures Inside(f.reach, FirstConf(f).tab)
  {
    var t := FirstConf(f).tab;
    if !f.reset {
      forall i | 0 <= i < |t.sets| ensures t.sets[i] in f.reach {
        assert f.StateOk(i + 1) && f.Set(i + 1) == t.sets[i];
      }
    }
  }

  // ---------- match ----------

  /** The loop of `match` from state `s0`. */
  method TakeText(f: Fa, s0: nat, text: seq<int>) returns (r: bool)
    requires Running(f, s0) && IsText(text)
    modifies f`curstat, f`reset, f`tab, f.gototab, f.posns, f.out
    ensures f.Valid() && f.Saved()
    ensures r == MatchFrom(StepOf(f.root), f.accept, Conf(old(f.tab), s0), text, 0)
    ensures f.tab == MatchEnd(StepOf(f.root), f.accept, Conf(old(f.tab), s0), text, 0)
  {
    ghost var k := Conf(f.tab, s0);
    var s, p := s0, 0;
    r := f.out[s];
    while !r && p <= |text|
      invariant 0 <= p <= |text| + 1 && Running(f, s) && r == f.out[s]
      invariant MatchFrom(StepOf(f.root), f.accept, k, text, 0) ==
        MatchFrom(StepOf(f.root), f.accept, Conf(f.tab, s), text, p)
      invariant MatchEnd(StepOf(f.root), f.accept, k, text, 0) ==
        MatchEnd(StepOf(f.root), f.accept, Conf(f.tab, s), text, p)
    {
      s := f.Advance(s, CharAt(text, p));
      r := f.out[s];
      p := p + 1;
    }
  }

  /** `match`, as a statement about the table alone. */
  method MatchRun(f: Fa, text: seq<int>) returns (r: bool)
    requires f.Ready() && IsText(text)
    modifies f`curstat, f`reset, f`tab, f.gototab, f.posns, f.out
    ensures f.Ready()
    ensures r == MatchFrom(StepOf(f.root), f.accept, old(FirstConf(f)), text, 0)
    ensures f.tab == MatchEnd(StepOf(f.root), f.accept, old(FirstConf(f)), text, 0)
  {
    MatchEndOk(f.root, f.accept, f.anchor, AutoOf(f), text);
    var s := f.Begin();
    r := TakeText(f, s, text);
  }

  /** `match`: is some factor of HAT text NUL a word of the pattern? */
  method Match(f: Fa, text: seq<int>, ghost pat: Re) returns (r: bool)
    requires f.Ready() && !f.anchor && For(f, pat) && IsText(text)
    modifies f`curstat, f`reset, f`tab, f.gototab, f.posns, f.out
    ensures f.Ready()
    ensures r == MatchFrom(StepOf(f.root), f.accept, old(FirstConf(f)), text, 0)
    ensures !MatchSlips(StepOf(f.root), f.accept, old(FirstConf(f)), text, 0) ==> (r <==> Matches(pat, text))
    ensures |f.reach| < 32 ==> (r <==> Matches(pat, text))
  {
    MatchMeaning(pat, f.accept, AutoOf(f), text);
    if |f.reach| < 32 {
      BeginInside(f);
      SmallMatch(f.root, f.accept, f.reach, FirstConf(f), text, 0);
    }
    r := MatchRun(f, text);
  }

  /** If no step slips, `match` is right. */
  lemma MatchMeaning(pat: Re, acc: nat, a: Auto, text: seq<int>)
    requires WellNumbered(pat, acc) && IsText(text) && AutoOk(Compiled(pat, acc), acc, false, a)
    ensures var root := Compiled(pat, acc); var k := BeginConf(root, acc, false, a);
      !MatchSlips(StepOf(root), acc, k, text, 0) ==> (MatchFrom(StepOf(root), acc, k, text, 0) <==> Matches(pat, text))
  {
    var root := Compiled(pat, acc);
    var k := BeginConf(root, acc, false, a);
    if !MatchSlips(StepOf(root), acc, k, text, 0) {
      MatchIsAccepts(StepOf(root), acc, k, text);
      AcceptedForm(pat, acc, text);
      AcceptedIffMatches(pat, acc, text);
    }
  }

  lemma AcceptedForm(pat: Re, acc: nat, text: seq<int>)
    ensures Accepted(pat, acc, text) <==>
      AcceptsSome(StepOf(Compiled(pat, acc)), acc, InitOf(Compiled(pat, acc), false), text)
  {
    var w := text + [NUL];
    forall j: nat | j <= |text| + 1 ensures w[0..j] == w[..j] {}
    forall j: nat | j <= |text| + 1 { RunByIs(Compiled(pat, acc), InitOf(Compiled(pat, acc), false), w[0..j]); }
    if Accepted(pat, acc, text) {
      var j: nat :| j <= |text| + 1 && acc in Run(Compiled(pat, acc), SearchInit(pat, acc), w[..j]);
      assert AcceptsAt(StepOf(Compiled(pat, acc)), acc, InitOf(Compiled(pat, acc), false), text, 0, j);
    }
  }

  // ---------- leftmost-longest ----------

  /** The machine is in state `s` with its flag and the saved start as they should be. */
  ghost predicate Running(f: Fa, s: nat)
    reads f, f.gototab, f.posns, f.out
  {
    f.Valid() && f.Saved() && 1 <= s <= f.curstat && f.out[s] == (f.accept in Now(Conf(f.tab, s)))
  }

  /** One round of the inner loop: a match that ends here is noted, and the next character taken. */
  method ScanStep(f: Fa, s0: nat, text: seq<int>, p: nat, q: nat, len: int) returns (s: nat, patlen: int)
    requires Running(f, s0) && p <= q <= |text| && IsText(text)
    modifies f`curstat, f`reset, f`tab, f.gototab, f.posns, f.out
    ensures Running(f, s) && Conf(f.tab, s) == Take(StepOf(f.root), Conf(old(f.tab), s0), CharAt(text, q))
    ensures patlen == Noted(f.accept, Conf(old(f.tab), s0), p, q, len)
  {
    patlen := if f.out[s0] then q - p else len;
    s := f.Advance(s0, CharAt(text, q));
  }

  /** The scan will come to length `total` and leave the table `end`. */
  ghost predicate Scanning(f: Fa, s: nat, text: seq<int>, p: nat, q: nat, len: int, total: int, end: Tab)
    reads f, f.gototab, f.posns, f.out
  {
    && Running(f, s) && p <= q <= |text| + 1
    && ScanLen(StepOf(f.root), f.accept, Conf(f.tab, s), text, p, q, len) == total
    && ScanEnd(StepOf(f.root), Conf(f.tab, s), text, q) == end
  }

  /** One round, with what the scan will come to. */
  method ScanOne(f: Fa, s0: nat, text: seq<int>, p: nat, q: nat, len: int, ghost total: int, ghost end: Tab)
      returns (s: nat, patlen: int)
    requires Scanning(f, s0, text, p, q, len, total, end) && q <= |text| && IsText(text)
    modifies f`curstat, f`reset, f`tab, f.gototab, f.posns, f.out
    ensures Running(f, s)
    ensures if s == 1 then patlen == total && f.tab == end else Scanning(f, s, text, p, q + 1, patlen, total, end)
  {
    ghost var k := Conf(f.tab, s0);
    s, patlen := ScanStep(f, s0, text, p, q, len);
    ScanGoesOn(StepOf(f.root), f.accept, k, text, p, q, len, Conf(f.tab, s), patlen);
  }

  /** The inner loop of `pmatch` and `nematch`. */
  method Scan(f: Fa, s0: nat, text: seq<int>, p: nat, len: int) returns (patlen: int)
    requires Running(f, s0) && p <= |text| && IsText(text)
    modifies f`curstat, f`reset, f`tab, f.gototab, f.posns, f.out
    ensures f.Valid() && f.Saved()
    ensures patlen == ScanLen(StepOf(f.root), f.accept, Conf(old(f.tab), s0), text, p, p, len)
    ensures f.tab == ScanEnd(StepOf(f.root), Conf(old(f.tab), s0), text, p)
  {
    ghost var total := ScanLen(StepOf(f.root), f.accept, Conf(f.tab, s0), text, p, p, len);
    ghost var end := ScanEnd(StepOf(f.root), Conf(f.tab, s0), text, p);
    var s, q := s0, p;
    patlen := len;
    while q <= |text|
      invariant Scanning(f, s, text, p, q, patlen, total, end)
    {
      s, patlen := ScanOne(f, s, text, p, q, patlen, total, end);
      q := q + 1;
      if s == 1 { return; }
    }
    if f.out[s] {
      patlen := q - p - 1;
    }
  }

  function OutcomeOf(r: bool, patbeg: nat, patlen: int): Outcome { if r then Found(patbeg, patlen) else Missed }

  /** The outer loop of `pmatch` (least == -1) and of `nematch` (least == 0), from state `s0`. */
  method TryStarts(f: Fa, s0: nat, text: seq<int>, least: int) returns (r: bool, patbeg: nat, patlen: int)
    requires Running(f, s0) && f.anchor && IsText(text)
    modifies f`initstat, f`curstat, f`reset, f`tab, f.gototab, f.posns, f.out
    ensures f.Valid() && f.Saved()
    ensures OutcomeOf(r, patbeg, patlen) ==
      SearchFrom(StepOf(f.root), f.accept, f.Start(), Conf(old(f.tab), s0), text, 0, least, -1)
    ensures AutoOf(f) ==
      SearchEnd(StepOf(f.root), f.accept, f.Start(), Conf(old(f.tab), s0), text, 0, least, -1, old(f.initstat))
  {
    ghost var k, start, init0 := Conf(f.tab, s0), f.Start(), f.initstat;
    var s := s0;
    patbeg, patlen := 0, -1;
    var p: nat := 0;
    while p <= LastStart(text, least)
      invariant p <= |text| + 1 && Running(f, s)
      invariant SearchFrom(StepOf(f.root), f.accept, start, k, text, 0, least, -1) ==
        SearchFrom(StepOf(f.root), f.accept, start, Conf(f.tab, s), text, p, least, patlen)
      invariant SearchEnd(StepOf(f.root), f.accept, start, k, text, 0, least, -1, init0) ==
        SearchEnd(StepOf(f.root), f.accept, start, Conf(f.tab, s), text, p, least, patlen, f.initstat)
    {
      ghost var k0, len0, init1 := Conf(f.tab, s), patlen, f.initstat;
      patlen := Scan(f, s, text, p, patlen);
      if patlen > least {
        patbeg := p;
        return true, patbeg, patlen;
      }
      SearchGoesOn(StepOf(f.root), f.accept, start, k0, text, p, least, len0, init1, patlen, f.tab);
      s := f.NextStart();
      p := p + 1;
    }
    r := false;
  }

  /** `pmatch` and `nematch`, as a statement about the table alone. */
  method Search(f: Fa, text: seq<int>, least: int) returns (r: bool, patbeg: nat, patlen: int)
    requires f.Ready() && f.anchor && IsText(text)
    modifies f`initstat, f`curstat, f`reset, f`tab, f.gototab, f.posns, f.out
    ensures f.Ready()
    ensures OutcomeOf(r, patbeg, patlen) ==
      SearchFrom(StepOf(f.root), f.accept, f.Start(), old(FirstConf(f)), text, 0, least, -1)
    ensures AutoOf(f) ==
      SearchEnd(StepOf(f.root), f.accept, f.Start(), old(FirstConf(f)), text, 0, least, -1, old(f.initstat))
  {
    SearchEndOk(f.root, f.accept, AutoOf(f), text, least, -1);
    var s := f.Begin();
    r, patbeg, patlen := TryStarts(f, s, text, least);
  }

  // ---------- in terms of the pattern ----------

  /** `w` is a word of the pattern; with `hat`, a `^` may have consumed the HAT before it. */
  ghost predicate WordAt(pat: Re, hat: bool, w: seq<int>) {
    if hat then InAtStart(pat, w) else In(false, pat, w)
  }

  /**
   The pattern matches `k` characters of the text at index `i`, a final `$` consuming the NUL.
   With `hat`, a `^` matches at index 0; without it no `^` matches.
   */
  ghost predicate MatchesAt(pat: Re, text: seq<int>, hat: bool, i: nat, k: nat) {
    && i + k <= |text|
    && (WordAt(pat, hat && i == 0, text[i..i+k]) || (i + k == |text| && WordAt(pat, hat && i == 0, text[i..] + [NUL])))
  }

  /** The automaton of the pattern as sets; with `hat` it starts after the HAT. */
  ghost function MachineOf(pat: Re, acc: nat, hat: bool): Machine {
    Machine(StepOf(Compiled(pat, acc)), acc, if hat then AnchorInit(pat, acc) else AnchorStart(pat, acc),
      AnchorStart(pat, acc))
  }

  lemma ArrivesMeaning(pat: Re, acc: nat, hat: bool, text: seq<int>, i: nat, j: nat)
    requires WellNumbered(pat, acc) && i <= j <= |text| + 1
    ensures Arrives(MachineOf(pat, acc, hat), text, i, j) <==> WordAt(pat, hat && i == 0, (text + [NUL])[i..j])
  {
    var w := (text + [NUL])[i..j];
    RunAccepts(pat, acc, From(MachineOf(pat, acc, hat), i), w);
    RunByIs(Compiled(pat, acc), From(MachineOf(pat, acc, hat), i), w);
    AnchorInitCompletes(pat, acc, w);
    AnchorCompletes(pat, acc, w);
  }

  lemma SpansMeaning(pat: Re, acc: nat, hat: bool, text: seq<int>, i: nat, k: nat)
    requires WellNumbered(pat, acc)
    ensures Spans(MachineOf(pat, acc, hat), text, i, k) <==> MatchesAt(pat, text, hat, i, k)
  {
    if i + k <= |text| {
      var w := text + [NUL];
      ArrivesMeaning(pat, acc, hat, text, i, i + k);
      ArrivesMeaning(pat, acc, hat, text, i, |text| + 1);
      assert w[i..i+k] == text[i..i+k];
      assert w[i..|text|+1] == text[i..] + [NUL];
    }
  }

  /** The outcome is the leftmost match longer than `least` and the longest one there, or there is none. */
  ghost predicate IsBest(pat: Re, text: seq<int>, hat: bool, least: int, o: Outcome) {
    match o
    case Found(beg, len) =>
      && len > least && len >= 0 && MatchesAt(pat, text, hat, beg, len)
      && (forall k: nat :: MatchesAt(pat, text, hat, beg, k) ==> k <= len)
      && (forall i: nat, k: nat :: i < beg && k > least ==> !MatchesAt(pat, text, hat, i, k))
    case Missed => forall i: nat, k: nat :: k > least ==> !MatchesAt(pat, text, hat, i, k)
  }

  lemma ResultMeaning(pat: Re, acc: nat, hat: bool, text: seq<int>, least: int, o: Outcome)
    requires WellNumbered(pat, acc) && IsResult(MachineOf(pat, acc, hat), text, least, o)
    ensures IsBest(pat, text, hat, least, o)
  {
    var m := MachineOf(pat, acc, hat);
    forall i: nat, k: nat ensures Spans(m, text, i, k) <==> MatchesAt(pat, text, hat, i, k) {
      SpansMeaning(pat, acc, hat, text, i, k);
    }
    forall i: nat, k: nat | k > least && Spans(m, text, i, k) ensures SpansOver(m, text, i, least) {}
  }

  /** Every match at index 0 that uses the HAT is no longer than one that does not. */
  ghost predicate HatNotNeeded(pat: Re, text: seq<int>, least: int) {
    forall k: nat :: k > least && MatchesAt(pat, text, true, 0, k) ==> MatchesAsLong(pat, text, k)
  }

  ghost predicate MatchesAsLong(pat: Re, text: seq<int>, k: nat) {
    exists k': nat :: k <= k' && MatchesAt(pat, text, false, 0, k')
  }

  lemma HatAdds(pat: Re, text: seq<int>, i: nat, k: nat)
    ensures MatchesAt(pat, text, false, i, k) ==> MatchesAt(pat, text, true, i, k)
    ensures i > 0 ==> (MatchesAt(pat, text, false, i, k) <==> MatchesAt(pat, text, true, i, k))
  {
  }

  lemma BestNeedsNoHat(pat: Re, text: seq<int>, least: int, o: Outcome)
    requires IsBest(pat, text, false, least, o) && IsBest(pat, text, true, least, o)
    ensures HatNotNeeded(pat, text, least)
  {
    forall k: nat | k > least && MatchesAt(pat, text, true, 0, k) ensures MatchesAsLong(pat, text, k) {
      assert o.Found? && o.beg == 0;
      assert MatchesAt(pat, text, false, 0, o.len);
    }
  }

  lemma NoHatBest(pat: Re, text: seq<int>, least: int, o: Outcome)
    requires IsBest(pat, text, false, least, o) && HatNotNeeded(pat, text, least)
    ensures IsBest(pat, text, true, least, o)
  {
    forall k: nat | k > least && MatchesAt(pat, text, true, 0, k) ensures o.Found? && o.beg == 0 && k <= o.len {
      assert MatchesAsLong(pat, text, k);
      var k': nat :| k <= k' && MatchesAt(pat, text, false, 0, k');
    }
    forall i: nat, k: nat | i > 0 ensures MatchesAt(pat, text, false, i, k) <==> MatchesAt(pat, text, true, i, k) {
      HatAdds(pat, text, i, k);
    }
    if o.Found? { HatAdds(pat, text, o.beg, o.len); }
  }

  /** The best match without `^` is the best match exactly when the HAT is not needed. */
  lemma BestWithoutHat(pat: Re, text: seq<int>, least: int, o: Outcome)
    requires IsBest(pat, text, false, least, o)
    ensures IsBest(pat, text, true, least, o) <==> HatNotNeeded(pat, text, least)
  {
    if IsBest(pat, text, true, least, o) { BestNeedsNoHat(pat, text, least, o); }
    if HatNotNeeded(pat, text, least) { NoHatBest(pat, text, least, o); }
  }

  /** The state of a search of `least` that begins from `a`. */
  ghost predicate CallSlips(pat: Re, acc: nat, a: Auto, text: seq<int>, least: int)
    requires AutoOk(Compiled(pat, acc), acc, true, a)
  {
    var root := Compiled(pat, acc);
    SearchSlips(StepOf(root), acc, StartOf(root, true), BeginConf(root, acc, true, a), text, 0, least, -1)
  }

  ghost function CallOutcome(pat: Re, acc: nat, a: Auto, text: seq<int>, least: int): Outcome
    requires AutoOk(Compiled(pat, acc), acc, true, a)
  {
    var root := Compiled(pat, acc);
    SearchFrom(StepOf(root), acc, StartOf(root, true), BeginConf(root, acc, true, a), text, 0, least, -1)
  }

  ghost function CallEnd(pat: Re, acc: nat, a: Auto, text: seq<int>, least: int): (a': Auto)
    requires AutoOk(Compiled(pat, acc), acc, true, a)
    ensures AutoOk(Compiled(pat, acc), acc, true, a')
  {
    var root := Compiled(pat, acc);
    SearchEndOk(root, acc, a, text, least, -1);
    SearchEnd(StepOf(root), acc, StartOf(root, true), BeginConf(root, acc, true, a), text, 0, least, -1, a.initstat)
  }

  /** Without slips the outcome is best for the state the call began in. */
  lemma CallMeaning(pat: Re, acc: nat, a: Auto, text: seq<int>, least: int)
    requires WellNumbered(pat, acc) && AutoOk(Compiled(pat, acc), acc, true, a) && (least == -1 || least == 0)
    requires !CallSlips(pat, acc, a, text, least)
    ensures IsBest(pat, text, BeginsRight(Compiled(pat, acc), a), least, CallOutcome(pat, acc, a, text, least))
  {
    var root := Compiled(pat, acc);
    var hat := BeginsRight(root, a);
    var m := MachineOf(pat, acc, hat);
    NothingFromNothing(root);
    SearchIsResult(m, root, BeginConf(root, acc, true, a), text, 0, least, -1);
    ResultMeaning(pat, acc, hat, text, least, CallOutcome(pat, acc, a, text, least));
  }

  /** Without slips the call is right exactly when it begins right or the HAT is not needed. */
  lemma CallRight(pat: Re, acc: nat, a: Auto, text: seq<int>, least: int)
    requires WellNumbered(pat, acc) && AutoOk(Compiled(pat, acc), acc, true, a) && (least == -1 || least == 0)
    requires !CallSlips(pat, acc, a, text, least)
    ensures IsBest(pat, text, true, least, CallOutcome(pat, acc, a, text, least)) <==>
      BeginsRight(Compiled(pat, acc), a) || HatNotNeeded(pat, text, least)
  {
    CallMeaning(pat, acc, a, text, least);
    if !BeginsRight(Compiled(pat, acc), a) {
      BestWithoutHat(pat, text, least, CallOutcome(pat, acc, a, text, least));
    }
  }

  lemma SmallCall(f: Fa, pat: Re, text: seq<int>, least: int)
    requires f.Ready() && f.anchor && For(f, pat) && IsText(text) && |f.reach| < 32
    ensures !CallSlips(pat, f.accept, AutoOf(f), text, least)
  {
    BeginInside(f);
    SmallSearch(f.root, f.accept, f.reach, FirstConf(f), text, 0, least, -1);
  }

  /** `pmatch`: the leftmost-longest match. */
  method Pmatch(f: Fa, text: seq<int>, ghost pat: Re) returns (r: bool, patbeg: nat, patlen: int)
    requires f.Ready() && f.anchor && For(f, pat) && IsText(text)
    modifies f`initstat, f`curstat, f`reset, f`tab, f.gototab, f.posns, f.out
    ensures f.Ready() && AutoOf(f) == CallEnd(pat, f.accept, old(AutoOf(f)), text, -1)
    ensures OutcomeOf(r, patbeg, patlen) == CallOutcome(pat, f.accept, old(AutoOf(f)), text, -1)
    ensures !CallSlips(pat, f.accept, old(AutoOf(f)), text, -1) || |f.reach| < 32 ==>
      (IsBest(pat, text, true, -1, OutcomeOf(r, patbeg, patlen)) <==>
       old(BeginsRight(f.root, AutoOf(f))) || HatNotNeeded(pat, text, -1))
  {
    if |f.reach| < 32 { SmallCall(f, pat, text, -1); }
    if !CallSlips(pat, f.accept, AutoOf(f), text, -1) { CallRight(pat, f.accept, AutoOf(f), text, -1); }
    r, patbeg, patlen := Search(f, text, -1);
  }

  /** `nematch`: the leftmost-longest non-empty match. */
  method Nematch(f: Fa, text: seq<int>, ghost pat: Re) returns (r: bool, patbeg: nat, patlen: int)
    requires f.Ready() && f.anchor && For(f, pat) && IsText(text)
    modifies f`initstat, f`curstat, f`reset, f`tab, f.gototab, f.posns, f.out
    ensures f.Ready() && AutoOf(f) == CallEnd(pat, f.accept, old(AutoOf(f)), text, 0)
    ensures OutcomeOf(r, patbeg, patlen) == CallOutcome(pat, f.accept, old(AutoOf(f)), text, 0)
    ensures !CallSlips(pat, f.accept, old(AutoOf(f)), text, 0) || |f.reach| < 32 ==>
      (IsBest(pat, text, true, 0, OutcomeOf(r, patbeg, patlen)) <==>
       old(BeginsRight(f.root, AutoOf(f))) || HatNotNeeded(pat, text, 0))
  {
    if |f.reach| < 32 { SmallCall(f, pat, text, 0); }
    if !CallSlips(pat, f.accept, AutoOf(f), text, 0) { CallRight(pat, f.accept, AutoOf(f), text, 0); }
    r, patbeg, patlen := Search(f, text, 0);
  }

  // ---------- building the automaton ----------

  lemma {:induction false} FirstNonempty(re: Re)
    ensures First(re) != {}
  {
    match re
    case Leaf(p, _) => assert p in First(re);
    case Cat(l, _) => FirstNonempty(l);
    case Or(l, _) => FirstNonempty(l);
    case _ => FirstNonempty(re.sub);
  }

  lemma CompiledSearches(pat: Re, acc: nat)
    requires WellNumbered(pat, acc)
    ensures Searches(Compiled(pat, acc), acc)
  {
    Numbering(pat, acc);
    StartSets(pat, acc);
    AnchorInitSplit(pat, acc);
    FirstNonempty(pat);
  }

  /** All sets of positions form a closed family, so every automaton lives in one. */
  lemma AllSetsClosed(root: Re)
    ensures Closed((set s | s <= Pos(root)), root)
  {
    SetsInPos(root, 0);
  }

  /** FINAL after a tree. */
  lemma FinishedFacts(root: Node, fin: Node, b: Shape)
    requires Describes(b) && NoFinal(b) && Numbered(b, 0) && root != fin && root !in Nodes(b) && fin !in Nodes(b)
    requires root.op == CatOp && root.left == b.n && root.right == fin && fin.op == LeafOp(Final)
    ensures var w := Binary(root, b, Tip(fin, LeafCount(b)));
      && Describes(w) && Finished(w) && Numbered(w, 0) && Nodes(w) == {root, fin} + Nodes(b)
      && LeafCount(w) == LeafCount(b) + 1 && Abs(w) == Cat(Abs(b), Leaf(LeafCount(b), Final))
  {
    var tip := Tip(fin, LeafCount(b));
    assert Nodes(tip) == {fin} && LeafCount(tip) == 1 && Describes(tip) && Numbered(tip, LeafCount(b));
  }

  /** ALL STAR in front of the pattern. */
  lemma FrontFacts(cat: Node, star: Node, all: Node, t: Shape)
    requires Describes(t) && NoFinal(t) && Numbered(t, 1)
    requires cat.op == CatOp && cat.left == star && cat.right == t.n
    requires star.op == StarOp && star.left == all && all.op == LeafOp(All)
    requires cat !in Nodes(t) && star !in Nodes(t) && all !in Nodes(t) && cat != star && cat != all && star != all
    ensures var b := Binary(cat, Unary(star, Tip(all, 0)), t);
      && Describes(b) && NoFinal(b) && Numbered(b, 0) && Nodes(b) == {cat, star, all} + Nodes(t)
      && LeafCount(b) == LeafCount(t) + 1 && Abs(b) == Searching(Abs(t))
  {
    var tip := Tip(all, 0);
    assert LeafCount(tip) == 1 && Abs(tip) == Leaf(0, All) && Describes(tip) && Numbered(tip, 0) && NoFinal(tip);
    var u := Unary(star, tip);
    assert Nodes(u) == {star, all};
    assert Describes(u) && NoFinal(u) && Numbered(u, 0) && LeafCount(u) == 1 && Abs(u) == Star(Leaf(0, All));
  }

  /** `penter` and `cfoll`: one row per leaf of an entered tree. */
  method Tables(root: Node, ghost w: Shape) returns (rows: seq<Row>)
    requires Describes(w) && root == w.n && Finished(w) && Numbered(w, 0)
    modifies Nodes(w)
    ensures |rows| == LeafCount(w) && RowsFor(rows, Abs(w))
  {
    NodesAllocated(w);
    var poscnt := Penter(root, 0, w);
    var re := new Row[poscnt](_ => Row(Final, []));
    var work := new PosSet(poscnt);
    NumberedLinear(w, 0);
    Cfoll(work, re, root, w, Root, w);
    rows := re[..];
  }

  /** The two `op2` lines of `mkdfa`: ALL STAR in front of the pattern, FINAL after it. */
  method Extend(p: Node, ghost t: Shape) returns (root: Node, ghost w: Shape)
    requires Describes(t) && p == t.n && NoFinal(t) && Numbered(t, 1)
    ensures root == w.n && Describes(w) && Finished(w) && Numbered(w, 0)
    ensures LeafCount(w) == LeafCount(t) + 2 && Abs(w) == Compiled(Abs(t), LeafCount(t) + 1)
    ensures forall o :: o in Nodes(w) ==> o in Nodes(t) || fresh(o)
  {
    NodesAllocated(t);
    var all := new Node(LeafOp(All), null, null);
    var star := new Node(StarOp, all, null);
    var cat := new Node(CatOp, star, p);
    var fin := new Node(LeafOp(Final), null, null);
    root := new Node(CatOp, cat, fin);
    ghost var b := Binary(cat, Unary(star, Tip(all, 0)), t);
    FrontFacts(cat, star, all, t);
    FinishedFacts(root, fin, b);
    w := Binary(root, b, Tip(fin, LeafCount(b)));
  }

  /** The last lines of `mkdfa`: an automaton with its starting states. */
  method Initial(rows: seq<Row>, anchor: bool, ghost root: Re, ghost reach: set<set<nat>>) returns (f: Fa)
    requires |rows| > 0 && RowsFor(rows, root) && Closed(reach, root) && Searches(root, |rows| - 1)
    ensures fresh(f) && fresh(f.gototab) && fresh(f.posns) && fresh(f.out)
    ensures f.root == root && f.accept == |rows| - 1 && f.anchor == anchor && f.reach == reach
    ensures f.Ready() && AutoOf(f) == Auto(Fresh(f.root, anchor), InitNo(f.root))
  {
    f := new Fa(rows, anchor, root, reach);
    var s := f.MakeInit();
    f.initstat := s;
  }

  /** `mkdfa` on the tree `p` of a pattern. */
  method MkDfa(p: Node, anchor: bool, ghost t: Shape, ghost reach: set<set<nat>>) returns (f: Fa)
    requires Describes(t) && p == t.n && NoFinal(t) && Numbered(t, 1)
    requires Closed(reach, Compiled(Abs(t), LeafCount(t) + 1))
    modifies Nodes(t)
    ensures fresh(f) && fresh(f.gototab) && fresh(f.posns) && fresh(f.out)
    ensures For(f, Abs(t)) && f.anchor == anchor && f.reach == reach
    ensures f.Ready() && AutoOf(f) == Auto(Fresh(f.root, anchor), InitNo(f.root))
  {
    var root, w := Extend(p, t);
    var rows := Tables(root, w);
    NumberedLinear(w, 0);
    CompiledSearches(Abs(t), LeafCount(t) + 1);
    f := Initial(rows, anchor, Abs(w), reach);
  }
}
