/**
 The second half of `agrep` (bin/agrep/sgrep.c): the candidate windows are scanned with the
 bit rows, two characters per iteration, and matching lines are printed by `s_output`.
 */
module AgrepScan {
  import opened AgrepEdit
  import opened AgrepRows
  import opened AgrepFilter

  /** A line of the text: from `bol` up to the newline at `eol`. */
  datatype Line = Line(bol: int, eol: int)

  /** `l` is one of the lines of the first `n` characters and the newline after them. */
  predicate IsLine(text: seq<int>, n: nat, l: Line)
    requires n < |text|
  {
    && 0 <= l.bol <= l.eol <= n && text[l.eol] == NEWLINE
    && (l.bol == 0 || text[l.bol - 1] == NEWLINE)
    && NoNewline(text, l.bol, l.eol)
  }

  predicate NoNewline(text: seq<int>, lo: int, hi: int)
    requires 0 <= lo && hi <= |text|
  {
    forall j :: lo <= j < hi ==> text[j] != NEWLINE
  }

  /** The factor [a, z) of line `l` is within `d` edits of the pattern. */
  ghost predicate Hit(text: seq<int>, n: nat, p: seq<int>, d: nat, l: Line, a: int, z: int)
    requires n < |text|
  {
    IsLine(text, n, l) && l.bol <= a <= z <= l.eol && Within(p, text[a..z], d)
  }

  ghost predicate Approximates(text: seq<int>, n: nat, p: seq<int>, d: nat, l: Line)
    requires n < |text|
  {
    exists a, z :: Hit(text, n, p, d, l, a, z)
  }

  lemma SameLine(text: seq<int>, n: nat, l: Line, k: Line, i: int)
    requires n < |text| && IsLine(text, n, l) && IsLine(text, n, k)
    requires l.bol <= i < l.eol && k.bol <= i < k.eol
    ensures l == k
  {
  }

  /** A match is never empty. */
  lemma HitLength(text: seq<int>, n: nat, p: seq<int>, d: nat, l: Line, a: int, z: int)
    requires n < |text| && d < |p| && Hit(text, n, p, d, l, a, z)
    ensures a < z
  {
    var s: Script :| Turns(s, p, text[a..z], d);
    Lengths(s);
  }

  /** `s_output`: the line around the character before index `i`. */
  method SOutput(text: seq<int>, n: nat, i: nat) returns (l: Line)
    requires n < |text| && text[n] == NEWLINE && 1 <= i <= n && text[i - 1] != NEWLINE
    ensures IsLine(text, n, l) && l.bol <= i - 1 < l.eol
  {
    var bp: int := i - 1;
    while bp >= 0 && text[bp] != NEWLINE
      invariant -1 <= bp < i
      invariant NoNewline(text, bp + 1, i)
    {
      bp := bp - 1;
    }
    var bol := bp + 1;
    bp := bp + 1;
    while text[bp] != NEWLINE
      invariant bol <= bp <= n && NoNewline(text, bol, bp)
      decreases n - bp
    {
      bp := bp + 1;
    }
    l := Line(bol, bp);
  }

  // ---------- what has been printed ----------

  /** The printed lines match, and are printed in order and once each. */
  ghost predicate Printed(text: seq<int>, n: nat, p: seq<int>, d: nat, output: seq<Line>)
    requires n < |text|
  {
    && (forall u :: 0 <= u < |output| ==> Approximates(text, n, p, d, output[u]) && IsLine(text, n, output[u]))
    && (forall u, v :: 0 <= u < v < |output| ==> output[u].eol < output[v].bol)
  }

  /** Every match that begins at `lo` or later and ends by `hi` is on a printed line. */
  ghost predicate AllPrinted(text: seq<int>, n: nat, p: seq<int>, d: nat, output: seq<Line>, lo: int, hi: int)
    requires n < |text|
  {
    forall l, a, z :: Hit(text, n, p, d, l, a, z) && lo <= a && z <= hi ==> l in output
  }

  /** `lastend` remembers the end of the last printed line, which began by `i`. */
  ghost predicate LastEnd(output: seq<Line>, lastend: int, i: int) {
    if output == [] then lastend == 0
    else lastend == output[|output|-1].eol && output[|output|-1].bol <= i
  }

  // ---------- one character ----------

  /** The stretch of text the rows speak of: from the window start or the last newline up to `i`. */
  ghost predicate Stretch(text: seq<int>, lo: int, st: int, i: int) {
    && 0 <= lo <= st <= i <= |text| && NoNewline(text, st, i)
    && (st == lo || text[st - 1] == NEWLINE)
  }

  /** A match that ends after index `i` is a suffix of the stretch up to there. */
  lemma EndsNear(text: seq<int>, n: nat, p: seq<int>, d: nat, l: Line, a: int, lo: int, st: int, i: int)
    requires n < |text| && d < |p| && 0 <= i < |text| && Hit(text, n, p, d, l, a, i + 1) && lo <= a
    requires Stretch(text, lo, st, i)
    ensures Near(p, |p|, text[st..i+1], d)
  {
    HitLength(text, n, p, d, l, a, i + 1);
    assert a >= st;
    var t := text[st..i+1];
    assert text[a..i+1] == t[a-st..] && p[..|p|] == p;
  }

  /** Nothing ends at index `i + 1`. */
  lemma {:induction false} NothingEnds(text: seq<int>, n: nat, p: seq<int>, d: nat, output: seq<Line>, lo: int, st: int,
                                       i: int)
    requires n < |text| && d < |p| && 0 <= i < |text| && AllPrinted(text, n, p, d, output, lo, i)
    requires text[i] == NEWLINE || (Stretch(text, lo, st, i) && !Near(p, |p|, text[st..i+1], d))
    ensures AllPrinted(text, n, p, d, output, lo, i + 1)
  {
    forall l, a, z | Hit(text, n, p, d, l, a, z) && lo <= a && z <= i + 1 ensures l in output {
      if z == i + 1 {
        HitLength(text, n, p, d, l, a, z);
        if text[i] != NEWLINE { EndsNear(text, n, p, d, l, a, lo, st, i); }
      }
    }
  }

  /** The line of a match approximates the pattern. */
  lemma MatchedLine(text: seq<int>, n: nat, p: seq<int>, d: nat, lo: int, st: int, i: int, l: Line)
    requires n < |text| && i < |text| && Stretch(text, lo, st, i + 1) && Near(p, |p|, text[st..i+1], d)
    requires IsLine(text, n, l) && l.bol <= i < l.eol && d < |p|
    ensures Approximates(text, n, p, d, l)
  {
    var t := text[st..i+1];
    var k: nat :| k <= |t| && Within(p[..|p|], t[k..], d);
    assert t[k..] == text[st+k..i+1] && p[..|p|] == p;
    assert l.bol <= st;
    assert Hit(text, n, p, d, l, st + k, i + 1);
  }

  /** Once its line is printed, all matches up to the end of the line are accounted for. */
  lemma LineDone(text: seq<int>, n: nat, p: seq<int>, d: nat, output: seq<Line>, lo: int, i: int, l: Line)
    requires n < |text| && d < |p| && AllPrinted(text, n, p, d, output, lo, i)
    requires IsLine(text, n, l) && l in output && l.bol <= i < l.eol
    ensures AllPrinted(text, n, p, d, output, lo, l.eol)
  {
    forall k, a, z | Hit(text, n, p, d, k, a, z) && lo <= a && z <= l.eol ensures k in output {
      if z > i {
        HitLength(text, n, p, d, k, a, z);
        SameLine(text, n, l, k, z - 1);
      }
    }
  }

  lemma StillPrinted(text: seq<int>, n: nat, p: seq<int>, d: nat, output: seq<Line>, more: seq<Line>, lo: int, hi: int)
    requires n < |text| && AllPrinted(text, n, p, d, output, lo, hi) && forall l :: l in output ==> l in more
    ensures AllPrinted(text, n, p, d, more, lo, hi)
  {
  }

  lemma EarlierEnd(text: seq<int>, n: nat, p: seq<int>, d: nat, output: seq<Line>, u: nat)
    requires n < |text| && Printed(text, n, p, d, output) && u < |output|
    ensures output[u].eol <= output[|output|-1].eol
  {
    assert IsLine(text, n, output[|output|-1]);
  }

  /** Printing one more line, further on. */
  lemma PrintedMore(text: seq<int>, n: nat, p: seq<int>, d: nat, output: seq<Line>, l: Line)
    requires n < |text| && Printed(text, n, p, d, output) && IsLine(text, n, l) && Approximates(text, n, p, d, l)
    requires output == [] || output[|output|-1].eol < l.bol
    ensures Printed(text, n, p, d, output + [l])
  {
    var more, last := output + [l], |output|;
    forall u | 0 <= u < |more| ensures Approximates(text, n, p, d, more[u]) && IsLine(text, n, more[u]) {
      if u < last { assert more[u] == output[u]; }
    }
    forall u, v | 0 <= u < v < |more| ensures more[u].eol < more[v].bol {
      assert more[u] == output[u];
      if v < last {
        assert more[v] == output[v];
      } else {
        EarlierEnd(text, n, p, d, output, u);
      }
    }
  }

  /** A line that goes beyond the end of an earlier one begins after it. */
  lemma LaterLine(text: seq<int>, n: nat, k: Line, l: Line, i: int)
    requires n < |text| && IsLine(text, n, k) && IsLine(text, n, l) && l.bol <= i < l.eol && k.eol <= i
    ensures k.eol < l.bol
  {
  }

  /** A line that approximates the pattern printed after the others. */
  lemma OneLineMore(text: seq<int>, n: nat, p: seq<int>, d: nat, output: seq<Line>, lo: int, i: int, l: Line)
    requires n < |text| && d < |p| && Printed(text, n, p, d, output) && AllPrinted(text, n, p, d, output, lo, i)
    requires IsLine(text, n, l) && l.bol <= i < l.eol && Approximates(text, n, p, d, l)
    requires output == [] || output[|output|-1].eol < l.bol
    ensures Printed(text, n, p, d, output + [l]) && AllPrinted(text, n, p, d, output + [l], lo, l.eol)
  {
    PrintedMore(text, n, p, d, output, l);
    StillPrinted(text, n, p, d, output, output + [l], lo, i);
    LineDone(text, n, p, d, output + [l], lo, i, l);
  }

  /** A match on the line printed last. */
  lemma LastLineDone(text: seq<int>, n: nat, p: seq<int>, d: nat, output: seq<Line>, lo: int, i: nat, lastend: nat)
    requires n < |text| && d < |p| && 1 <= i <= lastend && LastEnd(output, lastend, i - 1)
    requires Printed(text, n, p, d, output) && AllPrinted(text, n, p, d, output, lo, i - 1)
    ensures lastend <= n && text[lastend] == NEWLINE && AllPrinted(text, n, p, d, output, lo, lastend)
  {
    var l := output[|output|-1];
    assert IsLine(text, n, l);
    LineDone(text, n, p, d, output, lo, i - 1, l);
  }

  /** A match on a line not yet printed. */
  lemma NewLineDone(text: seq<int>, n: nat, p: seq<int>, d: nat, output: seq<Line>, lo: int, st: int, i: nat,
                    lastend: nat, l: Line)
    requires n < |text| && d < |p| && 1 <= i <= n && lastend < i
    requires Stretch(text, lo, st, i) && Near(p, |p|, text[st..i], d)
    requires Printed(text, n, p, d, output) && AllPrinted(text, n, p, d, output, lo, i - 1)
    requires LastEnd(output, lastend, i - 1) && IsLine(text, n, l) && l.bol <= i - 1 < l.eol
    ensures Printed(text, n, p, d, output + [l]) && AllPrinted(text, n, p, d, output + [l], lo, l.eol)
  {
    MatchedLine(text, n, p, d, lo, st, i - 1, l);
    if output != [] {
      assert IsLine(text, n, output[|output|-1]);
      LaterLine(text, n, output[|output|-1], l, i - 1);
    }
    OneLineMore(text, n, p, d, output, lo, i - 1, l);
  }

  /** What is done about a match on the character before `i`: print its line unless it was the last printed. */
  method Report(text: seq<int>, n: nat, p: seq<int>, d: nat, i: nat, lastend: nat, output: seq<Line>,
                ghost lo: int, ghost st: int)
      returns (i': nat, lastend': nat, output': seq<Line>)
    requires n < |text| && text[n] == NEWLINE && d < |p| && 1 <= i <= n && text[i - 1] != NEWLINE
    requires Stretch(text, lo, st, i) && Near(p, |p|, text[st..i], d)
    requires Printed(text, n, p, d, output) && AllPrinted(text, n, p, d, output, lo, i - 1)
    requires LastEnd(output, lastend, i - 1)
    ensures Printed(text, n, p, d, output') && AllPrinted(text, n, p, d, output', lo, i')
    ensures LastEnd(output', lastend', i - 1) && i <= i' == lastend' <= n && text[i'] == NEWLINE
    ensures output <= output'
  {
    if i <= lastend {
      LastLineDone(text, n, p, d, output, lo, i, lastend);
      i', output' := lastend, output;
    } else {
      var l := SOutput(text, n, i);
      NewLineDone(text, n, p, d, output, lo, st, i, lastend, l);
      i', output' := l.eol, output + [l];
    }
    lastend' := i';
  }

  // ---------- scanning a window ----------

  /**
   The rows at index `i`: after a report they are forgotten and a newline comes next, otherwise
   they speak of the stretch from `st`.
   */
  ghost predicate RowState(cur: seq<Word>, other: seq<Word>, p: seq<int>, text: seq<int>, n: nat,
                           lo: int, st: int, i: int, jumped: bool)
    requires n < |text| && |p| <= WORD
  {
    if jumped then Forgotten(cur) && Forgotten(other) && 0 <= i <= n && text[i] == NEWLINE
    else Stretch(text, lo, st, i) && RowsMean(cur, p, text[st..i])
  }

  lemma EndBit(w: Word, p: seq<int>, t: seq<int>, d: nat)
    requires IsPattern(p) && RowMeans(w, p, t, d)
    ensures IsZero(And(w, Bit(|p| - 1))) <==> Near(p, |p|, t, d)
  {
    var e := Bit(|p| - 1);
    assert And(w, e)[|p| - 1] == w[|p| - 1];
  }

  /** What the test of the last row says; a newline never completes a match. */
  lemma MatchTest(w: Word, p: seq<int>, text: seq<int>, d: nat, st: int, i: int)
    requires IsPattern(p) && d < |p| && 0 <= st <= i + 1 <= |text| && RowMeans(w, p, text[st..i+1], d)
    ensures IsZero(And(w, Bit(|p| - 1))) <==> Near(p, |p|, text[st..i+1], d)
    ensures st == i + 1 ==> !IsZero(And(w, Bit(|p| - 1)))
  {
    EndBit(w, p, text[st..i+1], d);
    if st == i + 1 {
      assert text[st..i+1] == [];
      NearEmpty(p, |p|, d);
    }
  }

  lemma SliceSnoc(s: seq<int>, a: nat, i: nat)
    requires a <= i < |s|
    ensures s[a..i + 1] == s[a..i] + [s[i]]
  {
  }

  /** The rows after one character, before the match test. */
  method Feed(text: seq<int>, n: nat, p: seq<int>, d: nat, mask: array<Word>, cur: array<Word>, next: array<Word>,
              i: nat, ghost lo: int, ghost st: int, ghost jumped: bool) returns (ghost st': int)
    requires n < |text| && IsPattern(p) && AreBytes(text) && i <= n
    requires mask.Length == MAXSYM && forall c :: 0 <= c < MAXSYM ==> MaskOf(mask[c], p, c)
    requires mask != cur && mask != next && cur != next && cur.Length == next.Length == d + 1
    requires 0 <= lo <= i && RowState(cur[..], next[..], p, text, n, lo, st, i, jumped)
    modifies cur, next
    ensures Stretch(text, lo, st', i + 1) && RowsMean(next[..], p, text[st'..i+1])
    ensures text[i] != NEWLINE ==> Stretch(text, lo, st', i)
    ensures text[i] == NEWLINE ==> st' == i + 1
  {
    var c := text[i];
    if c == NEWLINE {
      ForgetRows(cur, next);
      st' := i + 1;
      assert text[st'..i+1] == [];
    } else {
      st' := st;
      SliceSnoc(text, st, i);
    }
    NextRows(cur, next, mask[c], p, if c == NEWLINE then [] else text[st..i], c);
  }

  /** A match is reported and the rows are forgotten; the scan goes on at the end of its line. */
  method Jump(text: seq<int>, n: nat, p: seq<int>, d: nat, cur: array<Word>, next: array<Word>,
              i: nat, lastend: nat, output: seq<Line>, ghost lo: int, ghost st: int)
      returns (i': nat, lastend': nat, output': seq<Line>)
    requires n < |text| && text[n] == NEWLINE && d < |p| && 1 <= i <= n && text[i - 1] != NEWLINE
    requires Stretch(text, lo, st, i) && Near(p, |p|, text[st..i], d)
    requires Printed(text, n, p, d, output) && AllPrinted(text, n, p, d, output, lo, i - 1)
    requires LastEnd(output, lastend, i - 1) && cur != next && cur.Length == next.Length && |p| <= WORD
    modifies cur, next
    ensures i <= i' <= n && text[i'] == NEWLINE && RowState(next[..], cur[..], p, text, n, lo, st, i', true)
    ensures Printed(text, n, p, d, output') && AllPrinted(text, n, p, d, output', lo, i')
    ensures LastEnd(output', lastend', i - 1) && output <= output'
  {
    i', lastend', output' := Report(text, n, p, d, i, lastend, output, lo, st);
    ForgetRows(cur, next);
  }

  /** Half an iteration: read one character, update the rows, report a match. */
  method Half(text: seq<int>, n: nat, p: seq<int>, d: nat, mask: array<Word>, endpos: Word,
              cur: array<Word>, next: array<Word>, i: nat, lastend: nat, output: seq<Line>,
              ghost lo: int, ghost st: int, ghost jumped: bool)
      returns (i': nat, lastend': nat, output': seq<Line>, ghost st': int, ghost jumped': bool)
    requires n < |text| && text[n] == NEWLINE && IsPattern(p) && d < |p| && AreBytes(text) && i <= n
    requires mask.Length == MAXSYM && forall c :: 0 <= c < MAXSYM ==> MaskOf(mask[c], p, c)
    requires mask != cur && mask != next && cur != next && cur.Length == next.Length == d + 1
    requires endpos == Bit(|p| - 1)
    requires 0 <= lo <= i && RowState(cur[..], next[..], p, text, n, lo, st, i, jumped)
    requires Printed(text, n, p, d, output) && AllPrinted(text, n, p, d, output, lo, i) && LastEnd(output, lastend, i)
    modifies cur, next
    ensures i < i' && (i' <= n || (i == n && i' == n + 1)) && (text[i] == NEWLINE ==> i' == i + 1 && !jumped')
    ensures RowState(next[..], cur[..], p, text, n, lo, st', i', jumped')
    ensures Printed(text, n, p, d, output') && AllPrinted(text, n, p, d, output', lo, i')
    ensures LastEnd(output', lastend', i)
    ensures output <= output' && (!jumped' ==> i' == i + 1)
    ensures jumped' ==> i' <= n && text[i'] == NEWLINE
    ensures text[i] == NEWLINE ==> output' == output && lastend' == lastend
  {
    st' := Feed(text, n, p, d, mask, cur, next, i, lo, st, jumped);
    assert next[..][d] == next[d];
    MatchTest(next[d], p, text, d, st', i);
    if IsZero(And(next[d], endpos)) {
      i', lastend', output' := Jump(text, n, p, d, cur, next, i + 1, lastend, output, lo, st');
      jumped' := true;
    } else {
      NothingEnds(text, n, p, d, output, lo, st', i);
      i', lastend', output', jumped' := i + 1, lastend, output, false;
    }
  }

  /** An iteration of the scanning loop: R2 to R1 and back again. */
  method Pair(text: seq<int>, n: nat, p: seq<int>, d: nat, mask: array<Word>, endpos: Word,
              r1: array<Word>, r2: array<Word>, i: nat, lastend: nat, output: seq<Line>,
              ghost lo: int, ghost st: int, ghost jumped: bool, ghost hi: int)
      returns (i': nat, lastend': nat, output': seq<Line>, ghost st': int, ghost jumped': bool)
    requires n < |text| && text[n] == NEWLINE && IsPattern(p) && d < |p| && AreBytes(text) && i < hi <= n
    requires mask.Length == MAXSYM && forall c :: 0 <= c < MAXSYM ==> MaskOf(mask[c], p, c)
    requires mask != r1 && mask != r2 && r1 != r2 && r1.Length == r2.Length == d + 1
    requires endpos == Bit(|p| - 1)
    requires 0 <= lo <= i && RowState(r2[..], r1[..], p, text, n, lo, st, i, jumped)
    requires Printed(text, n, p, d, output) && AllPrinted(text, n, p, d, output, lo, i) && LastEnd(output, lastend, i)
    modifies r1, r2
    ensures i < i' <= n + 1 && RowState(r2[..], r1[..], p, text, n, lo, st', i', jumped')
    ensures Printed(text, n, p, d, output') && AllPrinted(text, n, p, d, output', lo, i')
    ensures LastEnd(output', lastend', hi) && LastEnd(output', lastend', i') && output <= output'
  {
    var m, e, o, s, j := Half(text, n, p, d, mask, endpos, r2, r1, i, lastend, output, lo, st, jumped);
    i', lastend', output', st', jumped' := Half(text, n, p, d, mask, endpos, r1, r2, m, e, o, lo, s, j);
  }

  /** One round: the candidate area [lo, hi) with fresh rows. */
  method ScanWindow(text: seq<int>, n: nat, p: seq<int>, d: nat, mask: array<Word>, endpos: Word,
                    lo: nat, hi: int, lastend0: nat, output0: seq<Line>)
      returns (lastend: nat, output: seq<Line>)
    requires n < |text| && text[n] == NEWLINE && IsPattern(p) && 1 <= d < |p| && AreBytes(text) && hi <= n
    requires mask.Length == MAXSYM && forall c :: 0 <= c < MAXSYM ==> MaskOf(mask[c], p, c)
    requires endpos == Bit(|p| - 1)
    requires Printed(text, n, p, d, output0) && LastEnd(output0, lastend0, lo)
    ensures Printed(text, n, p, d, output) && AllPrinted(text, n, p, d, output, lo, hi)
    ensures LastEnd(output, lastend, Max(lo, hi)) && output0 <= output
  {
    var r1 := new Word[d + 1](_ => Ones());
    var r2 := new Word[d + 1](_ => Ones());
    lastend, output := lastend0, output0;
    var i := lo;
    NothingBefore(text, n, p, d, output, lo);
    StartRows(r1, r2, d, p);
    ghost var st, jumped := lo, false;
    assert lo <= n ==> text[lo..lo] == [];
    while i < hi
      invariant lo <= i && (i == lo || i <= n + 1)
      invariant i < hi ==> RowState(r2[..], r1[..], p, text, n, lo, st, i, jumped)
      invariant Printed(text, n, p, d, output) && AllPrinted(text, n, p, d, output, lo, i)
      invariant LastEnd(output, lastend, Max(lo, hi)) && LastEnd(output, lastend, i) && output0 <= output
    {
      i, lastend, output, st, jumped :=
        Pair(text, n, p, d, mask, endpos, r1, r2, i, lastend, output, lo, st, jumped, hi);
    }
  }

  /** No match fits into nothing. */
  lemma NothingBefore(text: seq<int>, n: nat, p: seq<int>, d: nat, output: seq<Line>, lo: int)
    requires n < |text| && d < |p|
    ensures AllPrinted(text, n, p, d, output, lo, lo)
  {
    forall l, a, z | Hit(text, n, p, d, l, a, z) && lo <= a ensures lo < z {
      HitLength(text, n, p, d, l, a, z);
    }
  }

  // ---------- the whole search ----------

  function Clip(w: Window, n: nat): int { if w.hi > n then n else w.hi }

  /** The rounds over all candidate areas. */
  method ScanAll(text: seq<int>, n: nat, p: seq<int>, d: nat, mask: array<Word>, endpos: Word, cand: seq<Window>)
      returns (output: seq<Line>)
    requires n < |text| && text[n] == NEWLINE && IsPattern(p) && 1 <= d < |p| && AreBytes(text)
    requires mask.Length == MAXSYM && forall c :: 0 <= c < MAXSYM ==> MaskOf(mask[c], p, c)
    requires endpos == Bit(|p| - 1) && Spread(cand, |p| + d)
    ensures Printed(text, n, p, d, output) && WindowsPrinted(text, n, p, d, output, cand, |cand|)
  {
    output := [];
    var lastend := 0;
    for round := 0 to |cand|
      invariant Printed(text, n, p, d, output) && WindowsPrinted(text, n, p, d, output, cand, round)
      invariant forall q :: round <= q < |cand| ==> cand[q].lo >= 0 && LastEnd(output, lastend, cand[q].lo)
    {
      var lo, hi := cand[round].lo, Clip(cand[round], n);
      ghost var was := output;
      lastend, output := ScanWindow(text, n, p, d, mask, endpos, lo, hi, lastend, output);
      OneWindowMore(text, n, p, d, was, output, cand, round);
      assert forall q :: round < q < |cand| ==> Max(lo, hi) <= cand[q].lo;
    }
  }

  /** The first `k` windows are done. */
  ghost predicate WindowsPrinted(text: seq<int>, n: nat, p: seq<int>, d: nat, output: seq<Line>, cand: seq<Window>,
                                 k: int)
    requires n < |text| && k <= |cand|
  {
    forall r :: 0 <= r < k ==> WindowPrinted(text, n, p, d, output, cand[r])
  }

  ghost predicate WindowPrinted(text: seq<int>, n: nat, p: seq<int>, d: nat, output: seq<Line>, w: Window)
    requires n < |text|
  {
    AllPrinted(text, n, p, d, output, w.lo, Clip(w, n))
  }

  lemma OneWindowMore(text: seq<int>, n: nat, p: seq<int>, d: nat, was: seq<Line>, output: seq<Line>, cand: seq<Window>,
                      k: nat)
    requires n < |text| && k < |cand| && WindowsPrinted(text, n, p, d, was, cand, k) && was <= output
    requires WindowPrinted(text, n, p, d, output, cand[k])
    ensures WindowsPrinted(text, n, p, d, output, cand, k + 1)
  {
    forall r | 0 <= r < k ensures WindowPrinted(text, n, p, d, output, cand[r]) {
      assert WindowPrinted(text, n, p, d, was, cand[r]);
      StillPrinted(text, n, p, d, was, output, cand[r].lo, Clip(cand[r], n));
    }
  }

  lemma AllFound(text: seq<int>, n: nat, p: seq<int>, q: seq<int>, d: nat, m: nat, cand: seq<Window>, output: seq<Line>,
                 l: Line)
    requires n < |text| && Setup(p, d, m) && CoveredUpTo(cand, text, p, d, m, n, n)
    requires WindowsPrinted(text, n, q, d, output, cand, |cand|)
    requires ApproximatesBoth(text, n, p, q, d, l)
    ensures l in output
  {
    var a, z :| Hit(text, n, p, d, l, a, z) && Hit(text, n, q, d, l, a, z);
    FilterComplete(cand, text, n, p, d, m, a, z);
    var r :| 0 <= r < |cand| && cand[r].lo <= a && z <= cand[r].hi;
    assert WindowPrinted(text, n, q, d, output, cand[r]);
  }

  lemma NewlinedPattern(p: seq<int>)
    requires IsPattern(Newlined(p))
    ensures IsPattern(p)
  {
    var q := Newlined(p);
    forall i | 0 <= i < |p| ensures 0 <= p[i] < MAXSYM { assert 0 <= q[i] < MAXSYM; }
    assert q[0] != NEWLINE;
  }

  /** Some factor of the line is within `d` edits of both patterns. */
  ghost predicate ApproximatesBoth(text: seq<int>, n: nat, p: seq<int>, q: seq<int>, d: nat, l: Line)
    requires n < |text|
  {
    exists a, z :: Hit(text, n, p, d, l, a, z) && Hit(text, n, q, d, l, a, z)
  }

  /**
   `prep`, `initmask` and `agrep`. The windows are those of the pattern and the rows those of the
   pattern with `^` and `$` turned into newlines: every line printed is within `d` edits of the
   latter, and every line with a factor within `d` edits of both is printed, once each and in order.
   Without `^` and `$` these are exactly the lines within `d` edits of the pattern.
   */
  method Agrep(text: seq<int>, n: nat, sent: nat, p: seq<int>, d: nat) returns (output: seq<Line>)
    requires IsPattern(Newlined(p)) && 1 <= d < |p| && Buffer(text, n, sent, p) && text[n] == NEWLINE
    ensures forall l :: l in output ==> Approximates(text, n, Newlined(p), d, l)
    ensures forall l :: ApproximatesBoth(text, n, p, Newlined(p), d, l) ==> l in output
    ensures Newlined(p) == p ==> forall l :: l in output <==> Approximates(text, n, p, d, l)
    ensures forall u, v :: 0 <= u < v < |output| ==> output[u].eol < output[v].bol
  {
    var m := |p| / (d + 1);
    NewlinedPattern(p);
    var tab := Prep(p, d);
    var pattern := new int[|p|](i requires 0 <= i < |p| => p[i]);
    assert pattern[..] == p;
    var mask, endpos := InitMask(pattern);
    var cand := Candidates(text, n, sent, p, d, m, tab);
    output := ScanAll(text, n, Newlined(p), d, mask, endpos, cand);
    forall l | ApproximatesBoth(text, n, p, Newlined(p), d, l) ensures l in output {
      AllFound(text, n, p, Newlined(p), d, m, cand, output, l);
    }
    if Newlined(p) == p {
      forall l | Approximates(text, n, p, d, l) ensures ApproximatesBoth(text, n, p, p, d, l) {}
    }
  }
}
