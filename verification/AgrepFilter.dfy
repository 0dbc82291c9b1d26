/**
 The filter of bin/agrep/sgrep.c: `prep` builds the skip tables from the D+1 trailing blocks
 of the pattern, and the first loop of `agrep` skips through the text collecting candidate
 windows around every place where a block may occur.
 */
module AgrepFilter {
  import opened AgrepEdit
  import opened AgrepRows

  const MAXMEMBER := 8192

  /** What the filter is set up for: `d >= 1` errors, and `d + 1` blocks of length `m` in the pattern. */
  ghost predicate Setup(p: seq<int>, d: nat, m: nat) {
    IsPattern(p) && 1 <= d < |p| && m >= 1 && 0 <= BlockStart(|p|, m, d)
  }

  /** The block length agrep uses. */
  lemma BlockLength(p: seq<int>, d: nat)
    requires IsPattern(p) && 1 <= d < |p|
    ensures Setup(p, d, |p| / (d + 1))
  {
    var m := |p| / (d + 1);
    DivFacts(|p|, d + 1);
    BlockStartIs(|p|, m, d);
  }

  lemma DivFacts(n: nat, k: nat)
    requires 1 <= k <= n
    ensures n / k >= 1 && (n / k) * k <= n
  {
  }

  /** The last index of block `b` of the pattern, counted from the end. */
  function BlockEnd(n: int, m: nat, b: nat): int { BlockStart(n, m, b) + m - 1 }

  lemma {:induction false} BlockOrder(n: int, m: nat, b: nat, d: nat)
    requires b <= d
    ensures BlockStart(n, m, d) <= BlockStart(n, m, b) <= n - m
    decreases b
  {
    if b == 0 {
      BlockStartBound(n, m, d);
    } else {
      BlockOrder(n - m, m, b - 1, d - 1);
    }
  }

  /** The character `k` places before the end of block `b`. */
  ghost predicate InBlock(p: seq<int>, d: nat, m: nat, b: nat, k: nat, c: int) {
    && b <= d && k < m && 0 <= BlockEnd(|p|, m, b) - k < |p|
    && p[BlockEnd(|p|, m, b) - k] == c
  }

  /** Some block has `c` at `k` places before its end. */
  ghost predicate SomeBlockHas(p: seq<int>, d: nat, m: nat, k: int, c: int) {
    k >= 0 && exists b: nat :: InBlock(p, d, m, b, k, c)
  }

  /** SHIFT is the least distance of a character from the end of a block, or the block length. */
  ghost predicate ShiftOk(shift: seq<int>, p: seq<int>, d: nat, m: nat) {
    && |shift| == MAXSYM
    && (forall c :: 0 <= c < MAXSYM ==> 0 <= shift[c] <= m)
    && (forall b: nat, k: nat, c :: InBlock(p, d, m, b, k, c) && 0 <= c < MAXSYM ==> shift[c] <= k)
    && (forall c :: 0 <= c < MAXSYM ==> shift[c] == m || SomeBlockHas(p, d, m, shift[c], c))
  }

  /** Some block's last character is also at `k` places before the end of a block. */
  ghost predicate Repeats(p: seq<int>, d: nat, m: nat, k: int) {
    k > 0 && exists b: nat, b': nat, c :: InBlock(p, d, m, b, k, c) && InBlock(p, d, m, b', 0, c)
  }

  /** `shift_1`: the least distance from a block's end of another block's last character, or the block length. */
  ghost predicate ShiftOneOk(shift1: int, p: seq<int>, d: nat, m: nat) {
    && 1 <= shift1 <= m && (shift1 == m || Repeats(p, d, m, shift1))
    && forall b: nat, b': nat, k: nat, c ::
      k > 0 && InBlock(p, d, m, b, k, c) && InBlock(p, d, m, b', 0, c) ==> shift1 <= k
  }

  /** The hash of the `r` characters up to index `e`, read backwards. */
  function Hash(s: seq<int>, e: int, r: nat): int
    requires 1 <= r <= e + 1 <= |s|
  {
    if r == 1 then s[e] else Hash(s, e, r - 1) * 4 + s[e - (r - 1)]
  }

  predicate AreBytes(s: seq<int>) { forall i :: 0 <= i < |s| ==> 0 <= s[i] < MAXSYM }

  lemma HashBound(s: seq<int>, e: int, r: nat)
    requires 1 <= r <= 3 && r <= e + 1 <= |s| && AreBytes(s)
    ensures 0 <= Hash(s, e, r) < MAXMEMBER
  {
    if r == 2 { assert Hash(s, e, 2) == s[e] * 4 + s[e-1]; }
    if r == 3 {
      assert Hash(s, e, 2) == s[e] * 4 + s[e-1];
      assert Hash(s, e, 3) == Hash(s, e, 2) * 4 + s[e-2];
    }
  }

  /** How many characters are hashed. */
  function HashLength(m: nat): nat { if m < 3 then m else 3 }

  ghost predicate MemberOk(member: seq<bool>, p: seq<int>, d: nat, m: nat)
    requires Setup(p, d, m)
  {
    && |member| == MAXMEMBER
    && (forall b: nat :: b <= d ==> HashedIn(member, p, m, b))
    && forall h :: 0 <= h < MAXMEMBER && member[h] ==> SomeBlockHashes(p, d, m, h)
  }

  /** `h` is the hash of the end of a block. */
  ghost predicate SomeBlockHashes(p: seq<int>, d: nat, m: nat, h: int) {
    exists b: nat :: b <= d && BlockHashes(p, m, b, h)
  }

  ghost predicate BlockHashes(p: seq<int>, m: nat, b: nat, h: int) {
    var e, r := BlockEnd(|p|, m, b), HashLength(m);
    1 <= r <= e + 1 <= |p| && Hash(p, e, r) == h
  }

  ghost predicate HashedIn(member: seq<bool>, p: seq<int>, m: nat, b: nat) {
    var e, r := BlockEnd(|p|, m, b), HashLength(m);
    1 <= r <= e + 1 <= |p| && 0 <= Hash(p, e, r) < |member| && member[Hash(p, e, r)]
  }

  // ---------- prep ----------

  lemma MulOrder(m: nat, a: int, b: int)
    requires a <= b
    ensures m * a <= m * b
  {
  }

  lemma DivMod(m: nat, x: nat)
    requires m > 0
    ensures x == m * (x / m) + x % m && 0 <= x % m < m
  {
  }

  /** Division with remainder is unique. */
  lemma {:induction false} DivModUnique(m: nat, b: nat, k: nat)
    requires k < m
    ensures (m * b + k) / m == b && (m * b + k) % m == k
  {
    var x := m * b + k;
    DivMod(m, x);
    var q := x / m;
    assert m * (q + 1) == m * q + m && m * (b + 1) == m * b + m;
    if q < b {
      MulOrder(m, q + 1, b);
    } else if q > b {
      MulOrder(m, b + 1, q);
    }
  }

  lemma {:induction false} QuotientBound(m: nat, x: nat, d: nat)
    requires m > 0 && x < m * (d + 1)
    ensures x / m <= d
  {
    DivMod(m, x);
    if x / m > d { MulOrder(m, d + 1, x / m); }
  }

  /** Every index of the last `d + 1` blocks lies in the block its distance from the end says. */
  lemma {:induction false} BlockOf(p: seq<int>, d: nat, m: nat, i: nat) returns (b: nat, k: nat)
    requires Setup(p, d, m) && BlockStart(|p|, m, d) <= i < |p|
    ensures InBlock(p, d, m, b, k, p[i]) && k == (|p| - 1 - i) % m
  {
    var x := |p| - 1 - i;
    BlockStartIs(|p|, m, d);
    b, k := Quotient(m, x, d);
    PlacedInBlock(p, d, m, i, b, k);
  }

  lemma Quotient(m: nat, x: nat, d: nat) returns (b: nat, k: nat)
    requires m > 0 && x < m * (d + 1)
    ensures b <= d && x == m * b + k && k == x % m && k < m
  {
    QuotientBound(m, x, d);
    DivMod(m, x);
    b, k := x / m, x % m;
  }

  lemma PlacedInBlock(p: seq<int>, d: nat, m: nat, i: nat, b: nat, k: nat)
    requires i < |p| && b <= d && k < m && |p| - 1 - i == m * b + k
    ensures InBlock(p, d, m, b, k, p[i])
  {
    EndIs(|p|, m, b);
  }

  lemma EndIs(n: int, m: nat, b: nat)
    ensures BlockEnd(n, m, b) == n - 1 - m * b
  {
    BlockStartIs(n, m, b);
    assert m * (b + 1) == m * b + m;
  }

  method PrepShift(p: seq<int>, d: nat, m: nat) returns (shift: array<int>)
    requires Setup(p, d, m)
    ensures fresh(shift) && ShiftOk(shift[..], p, d, m)
  {
    shift := new int[MAXSYM](_ => m);
    BlockStartIs(|p|, m, d);
    var lo := |p| - m * (d + 1);
    assert lo == BlockStart(|p|, m, d);
    var i := |p| - 1;
    while i >= lo
      invariant BlockStart(|p|, m, d) == lo && lo - 1 <= i < |p|
      invariant forall c :: 0 <= c < MAXSYM ==> 0 <= shift[c] <= m
      invariant forall x :: i < x < |p| ==> shift[p[x]] <= (|p| - 1 - x) % m
      invariant forall c :: 0 <= c < MAXSYM ==> shift[c] == m || SomeBlockHas(p, d, m, shift[c], c)
    {
      var s := (|p| - 1 - i) % m;
      DivMod(m, |p| - 1 - i);
      var c := p[i];
      ghost var b, k := BlockOf(p, d, m, i);
      assert SomeBlockHas(p, d, m, s, c);
      if shift[c] > s {
        shift[c] := s;
      }
      i := i - 1;
    }
    SkipsSafely(shift[..], p, d, m);
  }

  lemma SkipsSafely(shift: seq<int>, p: seq<int>, d: nat, m: nat)
    requires Setup(p, d, m) && |shift| == MAXSYM
    requires forall x :: BlockStart(|p|, m, d) <= x < |p| ==> shift[p[x]] <= (|p| - 1 - x) % m
    ensures forall b: nat, k: nat, c :: InBlock(p, d, m, b, k, c) && 0 <= c < MAXSYM ==> shift[c] <= k
  {
    forall b: nat, k: nat, c | InBlock(p, d, m, b, k, c) && 0 <= c < MAXSYM ensures shift[c] <= k {
      InBlockIndex(p, d, m, b, k, c);
    }
  }

  lemma InBlockIndex(p: seq<int>, d: nat, m: nat, b: nat, k: nat, c: int)
    requires Setup(p, d, m) && InBlock(p, d, m, b, k, c)
    ensures BlockStart(|p|, m, d) <= BlockEnd(|p|, m, b) - k
    ensures (|p| - 1 - (BlockEnd(|p|, m, b) - k)) % m == k
  {
    BlockOrder(|p|, m, b, d);
    EndIs(|p|, m, b);
    DivModUnique(m, b, k);
  }

  /** Position `l` of block `b` has been compared with the ends of the first `q` blocks. */
  ghost predicate Compared(shift1: int, p: seq<int>, d: nat, m: nat, b: nat, l: nat, q: nat) {
    forall b': nat, c :: b' < q && InBlock(p, d, m, b, l, c) && InBlock(p, d, m, b', 0, c) ==> shift1 <= l
  }

  ghost predicate FullyCompared(shift1: int, p: seq<int>, d: nat, m: nat, b: nat, l: nat) {
    Compared(shift1, p, d, m, b, l, d + 1)
  }

  lemma BlockRange(p: seq<int>, d: nat, m: nat, b: nat)
    requires Setup(p, d, m) && b <= d
    ensures m - 1 <= BlockEnd(|p|, m, b) < |p| && BlockEnd(|p|, m, b) == |p| - 1 - m * b
  {
    BlockOrder(|p|, m, b, d);
    EndIs(|p|, m, b);
  }

  method PrepShiftOne(p: seq<int>, d: nat, m: nat) returns (shift1: int)
    requires Setup(p, d, m)
    ensures ShiftOneOk(shift1, p, d, m)
  {
    shift1 := m;
    for i := 0 to d + 1
      invariant 1 <= shift1 <= m && (shift1 == m || Repeats(p, d, m, shift1))
      invariant forall b: nat, l: nat :: b < i && 0 < l < m ==> FullyCompared(shift1, p, d, m, b, l)
    {
      var j := |p| - 1 - m * i;
      BlockRange(p, d, m, i);
      for k := 1 to m
        invariant 1 <= shift1 <= m && (shift1 == m || Repeats(p, d, m, shift1))
        invariant forall b: nat, l: nat :: b < i && 0 < l < m ==> FullyCompared(shift1, p, d, m, b, l)
        invariant forall l: nat :: 0 < l < k ==> FullyCompared(shift1, p, d, m, i, l)
      {
        ghost var was := shift1;
        shift1 := CompareWithEnds(p, d, m, i, k, p[j - k], shift1);
        forall b: nat, l: nat | (b < i && 0 < l < m) || (b == i && 0 < l < k)
          ensures FullyCompared(shift1, p, d, m, b, l)
        {
          assert FullyCompared(was, p, d, m, b, l);
        }
      }
    }
    forall b: nat, b': nat, k: nat, c | k > 0 && InBlock(p, d, m, b, k, c) && InBlock(p, d, m, b', 0, c)
      ensures shift1 <= k
    {
      assert FullyCompared(shift1, p, d, m, b, k);
    }
  }

  /** The innermost loop of `prep`'s computation of `shift_1`. */
  method CompareWithEnds(p: seq<int>, d: nat, m: nat, i: nat, k: nat, c: int, shift0: int) returns (shift1: int)
    requires Setup(p, d, m) && i <= d && 1 <= k < m && 1 <= shift0 <= m && InBlock(p, d, m, i, k, c)
    ensures 1 <= shift1 <= shift0 && FullyCompared(shift1, p, d, m, i, k)
    ensures shift1 == shift0 || Repeats(p, d, m, shift1)
  {
    shift1 := shift0;
    for q := 0 to d + 1
      invariant 1 <= shift1 <= shift0 && Compared(shift1, p, d, m, i, k, q)
      invariant shift1 == shift0 || Repeats(p, d, m, shift1)
    {
      BlockRange(p, d, m, q);
      if c == p[|p| - 1 - m * q] {
        if k < shift1 {
          assert InBlock(p, d, m, q, 0, c);
          shift1 := k;
        }
      }
    }
  }

  method PrepMember(p: seq<int>, d: nat, m: nat) returns (member: array<bool>)
    requires Setup(p, d, m)
    ensures fresh(member) && MemberOk(member[..], p, d, m)
  {
    member := new bool[MAXMEMBER](_ => false);
    var bSize := HashLength(m);
    for i := 0 to d + 1
      invariant forall b: nat :: b < i ==> HashedIn(member[..], p, m, b)
      invariant forall h :: 0 <= h < MAXMEMBER && member[h] ==> SomeBlockHashes(p, d, m, h)
    {
      var j := |p| - 1 - m * i;
      BlockRange(p, d, m, i);
      var hash := 0;
      for k := 0 to bSize
        invariant hash == if k == 0 then 0 else Hash(p, j, k)
      {
        hash := hash * 4 + p[j - k];
      }
      HashBound(p, j, bSize);
      ghost var was := member[..];
      member[hash] := true;
      forall b: nat | b < i ensures HashedIn(member[..], p, m, b) { assert HashedIn(was, p, m, b); }
      assert HashedIn(member[..], p, m, i);
      assert BlockHashes(p, m, i, hash);
    }
  }

  // ---------- the skip loop ----------

  /** The tables `prep` leaves. */
  datatype Tables = Tables(shift: seq<int>, shift1: int, member: seq<bool>)

  ghost predicate TablesOk(t: Tables, p: seq<int>, d: nat, m: nat) {
    Setup(p, d, m) && ShiftOk(t.shift, p, d, m) && ShiftOneOk(t.shift1, p, d, m) && MemberOk(t.member, p, d, m)
  }

  /** `prep`. */
  method Prep(p: seq<int>, d: nat) returns (t: Tables)
    requires IsPattern(p) && 1 <= d < |p|
    ensures TablesOk(t, p, d, |p| / (d + 1))
  {
    var m := |p| / (d + 1);
    BlockLength(p, d);
    var shift := PrepShift(p, d, m);
    var shift1 := PrepShiftOne(p, d, m);
    var member := PrepMember(p, d, m);
    t := Tables(shift[..], shift1, member[..]);
  }

  /** Block `b` of the pattern occurs in the text, ending at index `e`. */
  ghost predicate BlockAt(text: seq<int>, e: int, p: seq<int>, d: nat, m: nat, b: nat) {
    b <= d && m - 1 <= e < |text| && forall k: nat :: k < m ==> Agree(text, e, p, BlockEnd(|p|, m, b), k)
  }

  /** The characters `k` places before index `e` of the text and index `f` of the pattern agree. */
  predicate Agree(text: seq<int>, e: int, p: seq<int>, f: int, k: nat) {
    0 <= e - k < |text| && 0 <= f - k < |p| && text[e - k] == p[f - k]
  }

  ghost predicate SomeBlockAt(text: seq<int>, e: int, p: seq<int>, d: nat, m: nat) {
    exists b: nat :: BlockAt(text, e, p, d, m, b)
  }

  /** The text buffer: `n` characters to search, and further on `|p|` copies of the pattern's last character. */
  ghost predicate Buffer(text: seq<int>, n: nat, sent: nat, p: seq<int>) {
    && AreBytes(text) && n < sent && sent + |p| <= |text| && |p| > 0
    && forall j :: sent <= j < sent + |p| ==> text[j] == p[|p| - 1]
  }

  /** No block can end strictly between `t` and `t + shift[text[t]]`. */
  lemma SkipIsSafe(text: seq<int>, t: nat, p: seq<int>, d: nat, m: nat, tab: Tables, e: int)
    requires AreBytes(text) && TablesOk(tab, p, d, m) && t < |text| && SomeBlockAt(text, e, p, d, m) && t <= e
    ensures t + tab.shift[text[t]] <= e
  {
    var b: nat :| BlockAt(text, e, p, d, m, b);
    if e - t < m {
      assert Agree(text, e, p, BlockEnd(|p|, m, b), e - t);
      assert InBlock(p, d, m, b, e - t, text[t]);
    }
  }

  /** From a block's last character no block ends before `shift1` further on. */
  lemma ShiftOneIsSafe(text: seq<int>, t: nat, p: seq<int>, d: nat, m: nat, tab: Tables, e: int)
    requires AreBytes(text) && TablesOk(tab, p, d, m) && t < |text| && tab.shift[text[t]] == 0
    requires SomeBlockAt(text, e, p, d, m) && t < e
    ensures t + tab.shift1 <= e
  {
    var b: nat :| BlockAt(text, e, p, d, m, b);
    if e - t < m {
      assert Agree(text, e, p, BlockEnd(|p|, m, b), e - t);
      assert InBlock(p, d, m, b, e - t, text[t]);
      var b': nat :| InBlock(p, d, m, b', 0, text[t]);
    }
  }

  /** The sentinel stops the skip loop. */
  lemma SentinelStops(p: seq<int>, d: nat, m: nat, tab: Tables)
    requires TablesOk(tab, p, d, m)
    ensures tab.shift[p[|p| - 1]] == 0
  {
    BlockRange(p, d, m, 0);
    assert InBlock(p, d, m, 0, 0, p[|p| - 1]);
  }

  lemma {:induction false} SameHash(text: seq<int>, e: int, p: seq<int>, f: int, r: nat)
    requires 1 <= r <= e + 1 <= |text| && r <= f + 1 <= |p|
    requires forall k: nat :: k < r ==> Agree(text, e, p, f, k)
    ensures Hash(text, e, r) == Hash(p, f, r)
  {
    assert Agree(text, e, p, f, r - 1);
    if r > 1 { SameHash(text, e, p, f, r - 1); }
  }

  /** A block passes the hash test. */
  lemma BlockIsMember(text: seq<int>, e: int, p: seq<int>, d: nat, m: nat, tab: Tables)
    requires TablesOk(tab, p, d, m) && SomeBlockAt(text, e, p, d, m)
    ensures var r := HashLength(m); 1 <= r <= e + 1 && 0 <= Hash(text, e, r) < MAXMEMBER && tab.member[Hash(text, e, r)]
  {
    var b: nat :| BlockAt(text, e, p, d, m, b);
    var f, r := BlockEnd(|p|, m, b), HashLength(m);
    assert HashedIn(tab.member, p, m, b);
    SameHash(text, e, p, f, r);
  }

  // ---------- candidate windows ----------

  /** A candidate area of the text, [lo, hi). */
  datatype Window = Window(lo: int, hi: int)

  function Max(a: int, b: int): int { if a < b then b else a }

  /** The window holds everything a match around a block ending at `e` can touch. */
  predicate Covers(w: Window, e: int, reach: nat) {
    w.lo <= Max(0, e - reach - 2) && e + reach <= w.hi
  }

  ghost predicate Covered(cand: seq<Window>, e: int, reach: nat) {
    exists r :: 0 <= r < |cand| && Covers(cand[r], e, reach)
  }

  /** Windows are disjoint and in text order, far enough apart to bound their number. */
  ghost predicate Spread(cand: seq<Window>, reach: nat) {
    && |cand| >= 1 && cand[0].lo == 0
    && (forall r :: 0 <= r < |cand| ==> cand[r].lo <= cand[r].hi)
    && (forall r, q :: 0 <= r < q < |cand| ==> cand[r].hi + 8 < cand[q].lo)
    && 17 * (|cand| - 1) <= cand[|cand| - 1].hi
  }

  /** Every block ending before `t` and before `n` is covered. */
  ghost predicate CoveredUpTo(cand: seq<Window>, text: seq<int>, p: seq<int>, d: nat, m: nat, n: nat, t: int) {
    forall e :: e < t && e < n && SomeBlockAt(text, e, p, d, m) ==> Covered(cand, e, |p| + d)
  }

  /** A stop of the skip loop at `i` whose hash is known: open a window or stretch the last one. */
  method Record(cand: seq<Window>, i: int, reach: nat) returns (next: seq<Window>)
    requires Spread(cand, reach) && reach >= 3 && i >= 0
    requires cand[|cand|-1].lo <= Max(0, i - reach - 2) && cand[|cand|-1].hi <= i + reach
    ensures Spread(next, reach) && Covered(next, i, reach)
    ensures next[|next|-1].lo <= Max(0, i - reach - 2) && next[|next|-1].hi == i + reach
    ensures forall e :: Covered(cand, e, reach) ==> Covered(next, e, reach)
  {
    var cdx := |cand| - 1;
    if i - reach - 10 > cand[cdx].hi {
      next := cand + [Window(i - reach - 2, i + reach)];
      assert Covers(next[cdx + 1], i, reach);
      forall e | Covered(cand, e, reach) ensures Covered(next, e, reach) {
        var r :| 0 <= r < |cand| && Covers(cand[r], e, reach);
        assert Covers(next[r], e, reach);
      }
    } else {
      next := cand[cdx := Window(cand[cdx].lo, i + reach)];
      assert Covers(next[cdx], i, reach);
      forall e | Covered(cand, e, reach) ensures Covered(next, e, reach) {
        var r :| 0 <= r < |cand| && Covers(cand[r], e, reach);
        assert Covers(next[r], e, reach);
      }
    }
  }

  /** The inner skip loop: from index `t0` on to the next index where SHIFT is 0. */
  method Skip(text: seq<int>, n: nat, sent: nat, p: seq<int>, d: nat, m: nat, tab: Tables, t0: nat) returns (t: nat)
    requires TablesOk(tab, p, d, m) && Buffer(text, n, sent, p) && t0 < sent + |p|
    ensures t0 <= t < sent + |p| && tab.shift[text[t]] == 0
    ensures forall e :: t0 <= e < t ==> !SomeBlockAt(text, e, p, d, m)
  {
    SentinelStops(p, d, m, tab);
    BlockOrder(|p|, m, 0, d);
    t := t0;
    var shift := tab.shift[text[t]];
    while shift != 0
      invariant t0 <= t < sent + |p| && shift == tab.shift[text[t]]
      invariant forall e :: t0 <= e < t ==> !SomeBlockAt(text, e, p, d, m)
      decreases sent + |p| - t
    {
      forall e | t <= e < t + shift ensures !SomeBlockAt(text, e, p, d, m) {
        if SomeBlockAt(text, e, p, d, m) { SkipIsSafe(text, t, p, d, m, tab, e); }
      }
      t := t + shift;
      shift := tab.shift[text[t]];
      forall e | t <= e < t + shift ensures !SomeBlockAt(text, e, p, d, m) {
        if SomeBlockAt(text, e, p, d, m) { SkipIsSafe(text, t, p, d, m, tab, e); }
      }
      t := t + shift;
      shift := tab.shift[text[t]];
    }
  }

  /** Hash the last characters up to `t` and look them up. */
  method IsMember(text: seq<int>, t: nat, m: nat, member: seq<bool>) returns (yes: bool)
    requires AreBytes(text) && 1 <= m && m - 1 <= t < |text| && |member| == MAXMEMBER
    ensures 0 <= Hash(text, t, HashLength(m)) < MAXMEMBER && yes == member[Hash(text, t, HashLength(m))]
  {
    var r1 := HashLength(m);
    var j, hash := 1, text[t];
    while j < r1
      invariant 1 <= j <= r1 && hash == Hash(text, t, j)
    {
      hash := hash * 4 + text[t - j];
      j := j + 1;
    }
    HashBound(text, t, r1);
    yes := member[hash];
  }

  /** The first half of `agrep`: the candidate windows. */
  method Candidates(text: seq<int>, n: nat, sent: nat, p: seq<int>, d: nat, m: nat, tab: Tables)
      returns (cand: seq<Window>)
    requires TablesOk(tab, p, d, m) && Buffer(text, n, sent, p)
    ensures Spread(cand, |p| + d) && cand[|cand|-1].hi <= sent + 2 * |p| + d
    ensures CoveredUpTo(cand, text, p, d, m, n, n)
    ensures sent <= 8192 + 2 * 1024 + 1 ==> |cand| <= 2048
  {
    BlockOrder(|p|, m, 0, d);
    cand := [Window(0, 0)];
    var t, shift := 0, m - 1;
    while t < n
      invariant 0 <= t < sent + |p| && 0 <= shift <= m && m - 1 <= t + shift
      invariant shift > 0 || t == 0
      invariant Spread(cand, |p| + d)
      invariant cand[|cand|-1].lo <= Max(0, t - |p| - d - 2) && cand[|cand|-1].hi <= t + |p| + d
      invariant CoveredUpTo(cand, text, p, d, m, n, t + shift)
      decreases n - t, if shift > 0 then 0 else 1
    {
      t := Skip(text, n, sent, p, d, m, tab, t + shift);
      cand := Stop(text, p, d, m, tab, t, n, cand);
      shift := tab.shift1;
    }
  }

  /** What is done at an index where SHIFT is 0: the hash is looked up, and a member recorded. */
  method Stop(text: seq<int>, p: seq<int>, d: nat, m: nat, tab: Tables, t: nat, ghost n: nat, cand0: seq<Window>)
      returns (cand: seq<Window>)
    requires TablesOk(tab, p, d, m) && AreBytes(text) && m - 1 <= t < |text|
    requires tab.shift[text[t]] == 0 && Spread(cand0, |p| + d)
    requires cand0[|cand0|-1].lo <= Max(0, t - |p| - d - 2) && cand0[|cand0|-1].hi <= t + |p| + d
    requires CoveredUpTo(cand0, text, p, d, m, n, t)
    ensures Spread(cand, |p| + d)
    ensures cand[|cand|-1].lo <= Max(0, t - |p| - d - 2) && cand[|cand|-1].hi <= t + |p| + d
    ensures CoveredUpTo(cand, text, p, d, m, n, t + tab.shift1)
  {
    cand := cand0;
    var yes := IsMember(text, t, m, tab.member);
    if yes {
      cand := Record(cand, t, |p| + d);
    }
    forall e | t <= e < t + tab.shift1 && SomeBlockAt(text, e, p, d, m) ensures Covered(cand, e, |p| + d) {
      if e == t {
        BlockIsMember(text, t, p, d, m, tab);
      } else {
        ShiftOneIsSafe(text, t, p, d, m, tab, e);
      }
    }
  }

  // ---------- the filter loses nothing ----------

  /** A factor of the text that holds an untouched block. */
  lemma UntouchedBlockAt(text: seq<int>, a: nat, z: nat, p: seq<int>, d: nat, m: nat, b: nat, y: seq<int>, w: seq<int>)
    requires Setup(p, d, m) && a <= z <= |text| && b <= d
    requires Untouched(p, text[a..z], d, m, BlockStart(|p|, m, b), y, w)
    ensures var e := a + |y| + m - 1;
      && SomeBlockAt(text, e, p, d, m) && e < z
      && e - |p| - d < a && z <= e + |p| + d
  {
    var lo := BlockStart(|p|, m, b);
    var e, x := a + |y| + m - 1, text[a..z];
    forall k: nat | k < m ensures Agree(text, e, p, BlockEnd(|p|, m, b), k) {
      assert x[|y| + m - 1 - k] == p[lo..lo+m][m - 1 - k];
    }
    assert BlockAt(text, e, p, d, m, b);
    assert |x| == |y| + m + |w|;
  }

  /** Every factor of the first `n` characters within `d` edits of the pattern lies in one window. */
  lemma FilterComplete(cand: seq<Window>, text: seq<int>, n: nat, p: seq<int>, d: nat, m: nat, a: nat, z: nat)
    requires Setup(p, d, m) && a <= z <= n <= |text| && Within(p, text[a..z], d)
    requires CoveredUpTo(cand, text, p, d, m, n, n)
    ensures exists r :: 0 <= r < |cand| && cand[r].lo <= a && z <= cand[r].hi
  {
    var s: Script :| Turns(s, p, text[a..z], d);
    var b, y, w := Pigeonhole(s, m, d);
    assert Untouched(p, text[a..z], d, m, BlockStart(|p|, m, b), y, w);
    UntouchedBlockAt(text, a, z, p, d, m, b, y, w);
    var e := a + |y| + m - 1;
    var r :| 0 <= r < |cand| && Covers(cand[r], e, |p| + d);
    assert cand[r].lo <= a && z <= cand[r].hi;
  }
}
