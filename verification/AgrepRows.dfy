/**
 The bit rows of bin/agrep/sgrep.c: `initmask` and the recurrence that `agrep` applies to the
 arrays R1 and R2, against the edit distance of AgrepEdit.
 */
module AgrepRows {
  import opened AgrepEdit

  const WORD := 32
  const MAXSYM := 256
  const NEWLINE := 10
  const CARET := 94
  const DOLLAR := 36

  /** An unsigned 32-bit word, most significant bit first. */
  type Word = w: seq<bool> | |w| == WORD witness seq(WORD, _ => false)

  function Ones(): Word { seq(WORD, _ => true) }

  function Not(a: Word): Word { seq(WORD, i requires 0 <= i < WORD => !a[i]) }

  function And(a: Word, b: Word): Word { seq(WORD, i requires 0 <= i < WORD => a[i] && b[i]) }

  function Or(a: Word, b: Word): Word { seq(WORD, i requires 0 <= i < WORD => a[i] || b[i]) }

  /** `a >> 1`. */
  function Shr(a: Word): Word { [false] + a[..WORD - 1] }

  /** `Bit1 >> j`. */
  function Bit(j: nat): Word
    requires j < WORD
  {
    seq(WORD, i => i == j)
  }

  predicate IsZero(a: Word) { forall i :: 0 <= i < WORD ==> !a[i] }

  // ---------- initmask ----------

  /** Bytes, the first of them no newline. */
  predicate IsPattern(p: seq<int>) {
    0 < |p| <= WORD && p[0] != NEWLINE && forall i :: 0 <= i < |p| ==> 0 <= p[i] < MAXSYM
  }

  /** Bit `j` of the mask of `c` is 0 exactly where the pattern has `c`. */
  ghost predicate MaskOf(w: Word, p: seq<int>, c: int)
    requires |p| <= WORD
  {
    forall j :: 0 <= j < WORD ==> w[j] == !(j < |p| && p[j] == c)
  }

  /** What `initmask` makes of a pattern: `^` and `$` stand for newlines. */
  function Newlined(p: seq<int>): seq<int> {
    seq(|p|, i requires 0 <= i < |p| => if p[i] == CARET || p[i] == DOLLAR then NEWLINE else p[i])
  }

  /** `initmask`. */
  method InitMask(pattern: array<int>) returns (mask: array<Word>, endposition: Word)
    requires 0 < pattern.Length <= WORD && forall i :: 0 <= i < pattern.Length ==> 0 <= pattern[i] < MAXSYM
    modifies pattern
    ensures pattern[..] == Newlined(old(pattern[..]))
    ensures fresh(mask) && mask.Length == MAXSYM
    ensures forall c :: 0 <= c < MAXSYM ==> MaskOf(mask[c], Newlined(old(pattern[..])), c)
    ensures endposition == Bit(pattern.Length - 1)
  {
    endposition := Bit(pattern.Length - 1);
    for i := 0 to pattern.Length
      invariant forall j :: 0 <= j < i ==> pattern[j] == Newlined(old(pattern[..]))[j]
      invariant forall j :: i <= j < pattern.Length ==> pattern[j] == old(pattern[j])
    {
      if pattern[i] == CARET || pattern[i] == DOLLAR { pattern[i] := NEWLINE; }
    }
    mask := FillMask(pattern);
  }

  /** The masks of the characters of the pattern. */
  method FillMask(pattern: array<int>) returns (mask: array<Word>)
    requires pattern.Length <= WORD && forall i :: 0 <= i < pattern.Length ==> 0 <= pattern[i] < MAXSYM
    ensures fresh(mask) && mask.Length == MAXSYM
    ensures forall c :: 0 <= c < MAXSYM ==> MaskOf(mask[c], pattern[..], c)
  {
    ghost var p := pattern[..];
    mask := new Word[MAXSYM](_ => Ones());
    for i := 0 to pattern.Length
      invariant forall c :: 0 <= c < MAXSYM ==>
        if c in p[..i] then MaskOf(mask[c], p, c) else mask[c] == Ones()
    {
      var c := pattern[i];
      for j := 0 to pattern.Length
        invariant forall d :: 0 <= d < MAXSYM && d != c ==>
          if d in p[..i] then MaskOf(mask[d], p, d) else mask[d] == Ones()
        invariant forall l :: 0 <= l < WORD ==>
          mask[c][l] == (if c in p[..i] then !(l < |p| && p[l] == c) else !(l < j && p[l] == c))
      {
        if pattern[j] == c {
          mask[c] := And(mask[c], Not(Bit(j)));
        }
      }
      assert p[..i+1] == p[..i] + [p[i]];
    }
    assert p[..|p|] == p;
  }

  // ---------- the rows ----------

  /** Bit `j` of row `k` is 0 iff pattern[0..j] is within `k` edits of some suffix of `t`. */
  ghost predicate RowMeans(w: Word, p: seq<int>, t: seq<int>, k: nat)
    requires |p| <= WORD
  {
    forall j :: 0 <= j < |p| ==> w[j] == !Near(p, j + 1, t, k)
  }

  ghost predicate RowsMean(rows: seq<Word>, p: seq<int>, t: seq<int>)
    requires |p| <= WORD
  {
    forall k :: 0 <= k < |rows| ==> RowMeans(rows[k], p, t, k)
  }

  lemma ShrMeans(w: Word, p: seq<int>, t: seq<int>, k: nat)
    requires |p| <= WORD && RowMeans(w, p, t, k)
    ensures forall j :: 0 <= j < |p| ==> Shr(w)[j] == !Near(p, j, t, k)
  {
    NearNone(p, t, k);
  }

  /** The exact-match row. */
  lemma RowZero(w: Word, r1: Word, p: seq<int>, t: seq<int>, c: int)
    requires IsPattern(p) && RowMeans(w, p, t, 0) && MaskOf(r1, p, c)
    ensures RowMeans(Or(Shr(w), r1), p, t + [c], 0)
  {
    ShrMeans(w, p, t, 0);
    forall j: nat | j < |p| ensures Or(Shr(w), r1)[j] == !Near(p, j + 1, t + [c], 0) {
      NearStep(p, j, t, c, 0);
    }
  }

  /** The formula for a row that allows errors, from the old rows and the new row before it. */
  function NextRow(oldK: Word, oldK1: Word, newK1: Word, r1: Word): Word {
    And(And(Or(Shr(oldK), r1), oldK1), Shr(And(newK1, oldK1)))
  }

  lemma RowMore(oldK: Word, oldK1: Word, newK1: Word, r1: Word, p: seq<int>, t: seq<int>, c: int, k: nat)
    requires IsPattern(p) && k > 0 && MaskOf(r1, p, c)
    requires RowMeans(oldK, p, t, k) && RowMeans(oldK1, p, t, k - 1) && RowMeans(newK1, p, t + [c], k - 1)
    ensures RowMeans(NextRow(oldK, oldK1, newK1, r1), p, t + [c], k)
  {
    ShrMeans(oldK, p, t, k);
    ShrMeans(oldK1, p, t, k - 1);
    ShrMeans(newK1, p, t + [c], k - 1);
    var w := NextRow(oldK, oldK1, newK1, r1);
    forall j: nat | j < |p| ensures w[j] == !Near(p, j + 1, t + [c], k) {
      NearStep(p, j, t, c, k);
      assert Shr(And(newK1, oldK1))[j] == (Shr(newK1)[j] && Shr(oldK1)[j]);
    }
  }

  /** The rows before any text: row `k` has its first `k` bits 0. */
  lemma InitialMeans(w: Word, p: seq<int>, k: nat)
    requires |p| <= WORD && forall j :: 0 <= j < WORD ==> w[j] == !(j < k)
    ensures RowMeans(w, p, [], k)
  {
    forall j: nat | j < |p| ensures w[j] == !Near(p, j + 1, [], k) {
      NearEmpty(p, j + 1, k);
    }
  }

  /** The start of a window: both row arrays as before any text. */
  method StartRows(r1: array<Word>, r2: array<Word>, d: nat, ghost p: seq<int>)
    requires r1 != r2 && r1.Length == r2.Length == d + 1 && d >= 1 && |p| <= WORD
    modifies r1, r2
    ensures RowsMean(r1[..], p, []) && r2[..] == r1[..]
  {
    r1[0], r2[0] := Ones(), Ones();
    r1[1], r2[1] := Not(Bit(0)), Not(Bit(0));
    for k := 1 to d + 1
      invariant forall i, j :: 0 <= i < k && 0 <= j < WORD ==> r1[i][j] == !(j < i)
      invariant forall i :: 0 <= i < k ==> r2[i] == r1[i]
    {
      var w := And(Shr(r1[k-1]), r1[k-1]);
      r1[k], r2[k] := w, w;
    }
    forall k: nat | k <= d ensures RowMeans(r1[k], p, [], k) {
      InitialMeans(r1[k], p, k);
    }
  }

  /** All errors forgotten: every bit of both arrays 1. */
  method ForgetRows(r1: array<Word>, r2: array<Word>)
    requires r1 != r2 && r1.Length == r2.Length
    modifies r1, r2
    ensures Forgotten(r1[..]) && Forgotten(r2[..])
  {
    for k := 0 to r1.Length
      invariant forall i :: 0 <= i < k ==> r1[i] == Ones() && r2[i] == Ones()
    {
      r1[k], r2[k] := Ones(), Ones();
    }
  }

  predicate Forgotten(rows: seq<Word>) {
    forall k :: 0 <= k < |rows| ==> rows[k] == Ones()
  }

  /**
   One text character: the new rows `s` from the old rows `r`.  After the rows were forgotten
   on a newline, the same formulas bring back the rows of an empty text.
   */
  method NextRows(r: array<Word>, s: array<Word>, r1: Word, ghost p: seq<int>, ghost t: seq<int>, ghost c: int)
    requires r != s && r.Length == s.Length && r.Length > 0 && IsPattern(p) && MaskOf(r1, p, c)
    requires if c == NEWLINE then Forgotten(r[..]) else RowsMean(r[..], p, t)
    modifies s
    ensures RowsMean(s[..], p, if c == NEWLINE then [] else t + [c])
  {
    s[0] := Or(Shr(r[0]), r1);
    assert r[..][0] == r[0];
    if c == NEWLINE {
      InitialMeans(s[0], p, 0);
    } else {
      RowZero(r[0], r1, p, t, c);
    }
    for k := 1 to r.Length
      invariant r[..] == old(r[..])
      invariant c != NEWLINE ==> forall i :: 0 <= i < k ==> RowMeans(s[i], p, t + [c], i)
      invariant c == NEWLINE ==> forall i :: 0 <= i < k ==> RowMeans(s[i], p, [], i)
      invariant c == NEWLINE ==> forall i, j :: 0 <= i < k && 0 <= j < WORD ==> s[i][j] == !(j < i)
    {
      s[k] := NextRow(r[k], r[k-1], s[k-1], r1);
      assert r[..][k] == r[k] && r[..][k-1] == r[k-1];
      if c == NEWLINE {
        InitialMeans(s[k], p, k);
      } else {
        RowMore(r[k], r[k-1], s[k-1], r1, p, t, c, k);
      }
    }
  }
}
