/**
 What becomes of `^` and `$` in the patterns of bin/agrep/sgrep.c: the rows look for newlines in
 their place, so lines within the allowed number of errors are lost.
 */
module AgrepCarets {
  import opened Slices
  import opened AgrepEdit
  import opened AgrepRows
  import opened AgrepFilter
  import opened AgrepScan

  /** Which patterns there are, in numbers. */
  lemma PatternIff(p: seq<int>)
    ensures IsPattern(p) <==> 0 < |p| <= 32 && p[0] != 10 && forall i :: 0 <= i < |p| ==> 0 <= p[i] < 256
  {
  }

  /** Only 94 and 36 are changed, to 10. */
  lemma NewlinedIff(p: seq<int>)
    ensures |Newlined(p)| == |p|
    ensures forall i :: 0 <= i < |p| ==> Newlined(p)[i] == if p[i] == 94 || p[i] == 36 then 10 else p[i]
    ensures Newlined(p) == p <==> 94 !in p && 36 !in p
  {
    var q := Newlined(p);
    if q == p {
      forall i | 0 <= i < |p| ensures p[i] != 94 && p[i] != 36 { assert q[i] == p[i]; }
    }
  }

  predicate IsSpecial(c: int) { c == CARET || c == DOLLAR }

  /** How many characters of `p` stand for themselves. */
  function Plain(p: seq<int>): (k: nat)
    ensures k <= |p|
  {
    if p == [] then 0 else Plain(p[..|p| - 1]) + if IsSpecial(p[|p| - 1]) then 0 else 1
  }

  /** Up to `d` of them, the last ones, replaced by `z`. */
  function Marred(p: seq<int>, d: nat, z: int): (x: seq<int>)
    ensures |x| == |p|
  {
    if p == [] then []
    else
      var c, rest := p[|p| - 1], p[..|p| - 1];
      if IsSpecial(c) then Marred(rest, d, z) + [c]
      else if d > 0 then Marred(rest, d - 1, z) + [z]
      else Marred(rest, 0, z) + [c]
  }

  lemma {:induction false} MarredNear(p: seq<int>, d: nat, z: int) returns (s: Script)
    ensures Turns(s, p, Marred(p, d, z), d)
  {
    if p == [] {
      s := Done;
    } else {
      var c, rest := p[|p| - 1], p[..|p| - 1];
      var change := !IsSpecial(c) && d > 0;
      var t := MarredNear(rest, if change then d - 1 else d, z);
      s := Then(t, if change then Sub(c, z) else Keep(c));
      assert p == rest + [c];
    }
  }

  // ---------- what a script keeps ----------

  /** How many characters of `y` are in `q`. */
  function Shared(y: seq<int>, q: seq<int>): (k: nat)
    ensures k <= |y|
  {
    if y == [] then 0 else Shared(y[..|y| - 1], q) + if y[|y| - 1] in q then 1 else 0
  }

  lemma {:induction false} SharedConcat(x: seq<int>, y: seq<int>, q: seq<int>)
    ensures Shared(x + y, q) == Shared(x, q) + Shared(y, q)
  {
    if y == [] {
      assert x + y == x;
    } else {
      SharedConcat(x, y[..|y| - 1], q);
      assert (x + y)[..|x + y| - 1] == x + y[..|y| - 1];
    }
  }

  lemma SharedFactor(x: seq<int>, q: seq<int>, a: nat, z: nat)
    requires a <= z <= |x|
    ensures Shared(x[a..z], q) <= Shared(x, q)
  {
    assert x == x[..a] + x[a..z] + x[z..];
    SharedConcat(x[..a] + x[a..z], x[z..], q);
    SharedConcat(x[..a], x[a..z], q);
  }

  /** A script must pay for every pattern character it cannot keep. */
  lemma {:induction false} MustPay(s: Script, q: seq<int>)
    requires forall c :: c in Src(s) ==> c in q
    ensures |Src(s)| <= Cost(s) + Shared(Dst(s), q)
  {
    if s.Then? {
      assert forall c :: c in Src(s.init) ==> c in Src(s);
      MustPay(s.init, q);
      SharedConcat(Dst(s.init), DstOf(s.last), q);
      if s.last.Keep? { KeptShared(s, q); }
    }
  }

  lemma KeptShared(s: Script, q: seq<int>)
    requires s.Then? && s.last.Keep? && forall c :: c in Src(s) ==> c in q
    ensures Shared(DstOf(s.last), q) == 1
  {
    var c := s.last.c;
    assert SrcOf(s.last) == DstOf(s.last) == [c] && Src(s)[|Src(s)| - 1] == c;
    assert [c][..0] == [];
  }

  // ---------- the lost line ----------

  lemma {:induction false} MarredShared(p: seq<int>, d: nat, z: int, q: seq<int>)
    requires z !in q && CARET !in q && DOLLAR !in q
    ensures Shared(Marred(p, d, z), q) <= if d < Plain(p) then Plain(p) - d else 0
  {
    if p != [] {
      var c, rest := p[|p| - 1], p[..|p| - 1];
      var change := !IsSpecial(c) && d > 0;
      var d' := if change then d - 1 else d;
      MarredShared(rest, d', z, q);
      var x, last := Marred(rest, d', z), if change then z else c;
      assert Marred(p, d, z) == x + [last] && (x + [last])[..|x|] == x;
    }
  }

  lemma {:induction false} SomeSpecial(p: seq<int>)
    ensures Newlined(p) == p <==> Plain(p) == |p|
  {
    var q := Newlined(p);
    if p != [] {
      var n := |p| - 1;
      SomeSpecial(p[..n]);
      assert q[..n] == Newlined(p[..n]);
      assert p == p[..n] + [p[n]] && q == q[..n] + [q[n]];
    }
  }

  /** A byte that is not in `s`. */
  lemma {:induction false} FreshByte(s: set<int>, n: nat) returns (z: int)
    requires |s| < n
    ensures 0 <= z < n && z !in s
    decreases n
  {
    if n - 1 in s {
      z := FreshByte(s - {n - 1}, n - 1);
    } else {
      z := n - 1;
    }
  }

  lemma {:induction false} FewBytes(p: seq<int>)
    ensures |set c | c in p| <= |p|
  {
    var s := set c | c in p;
    if p == [] {
      assert s == {};
    } else {
      var n := |p| - 1;
      FewBytes(p[..n]);
      var t := set c | c in p[..n];
      assert s == t + {p[n]};
    }
  }

  /** A newline may come last, where `sgrep` puts it for a final `^` or `$`. */
  predicate LineLike(p: seq<int>) { p != [] && NEWLINE !in p[..|p| - 1] }

  lemma {:induction false} MarredBytes(p: seq<int>, d: nat, z: int)
    requires 0 <= z < MAXSYM && z != NEWLINE && AreBytes(p) && (NEWLINE !in p || (LineLike(p) && d >= 1))
    ensures AreBytes(Marred(p, d, z)) && NEWLINE !in Marred(p, d, z)
  {
    if p != [] {
      var c, rest := p[|p| - 1], p[..|p| - 1];
      MarredBytes(rest, if !IsSpecial(c) && d > 0 then d - 1 else d, z);
    }
  }

  /** A factor of `x` is within `d` edits of the pattern. */
  ghost predicate HasFactor(p: seq<int>, x: seq<int>, d: nat) { exists a, z :: FactorAt(p, x, d, a, z) }

  ghost predicate FactorAt(p: seq<int>, x: seq<int>, d: nat, a: int, z: int) {
    0 <= a <= z <= |x| && Within(p, x[a..z], d)
  }

  /** A line within `d` edits of the pattern, and not of the pattern the rows look for. */
  ghost predicate LosesLine(p: seq<int>, d: nat, x: seq<int>) {
    AreBytes(x) && NEWLINE !in x && HasFactor(p, x, d) && !HasFactor(Newlined(p), x, d)
  }

  /** If there is a `^` or `$` the marred pattern is such a line. */
  lemma MarredLost(p: seq<int>, d: nat, z: int)
    requires IsPattern(p) && LineLike(p) && 1 <= d < |p| && Newlined(p) != p
    requires 0 <= z < MAXSYM && z != NEWLINE && z !in Newlined(p)
    ensures LosesLine(p, d, Marred(p, d, z))
  {
    MarredBytes(p, d, z);
    MarredFound(p, d, z);
    assert |Newlined(p)| > d + Shared(Marred(p, d, z), Newlined(p)) by {
      SomeSpecial(p);
      MarredShared(p, d, z, Newlined(p));
    }
    NoFactor(Newlined(p), Marred(p, d, z), d);
  }

  lemma MarredFound(p: seq<int>, d: nat, z: int)
    ensures HasFactor(p, Marred(p, d, z), d)
  {
    var x := Marred(p, d, z);
    var s := MarredNear(p, d, z);
    assert x[0..|x|] == x;
    assert FactorAt(p, x, d, 0, |x|);
  }

  lemma NoFactor(q: seq<int>, x: seq<int>, d: nat)
    requires |q| > d + Shared(x, q)
    ensures !HasFactor(q, x, d)
  {
    if HasFactor(q, x, d) {
      var a, e :| FactorAt(q, x, d, a, e);
      TooDear(q, x, d, a, e);
    }
  }

  lemma TooDear(q: seq<int>, x: seq<int>, d: nat, a: int, e: int)
    requires FactorAt(q, x, d, a, e)
    ensures |q| <= d + Shared(x, q)
  {
    var s: Script :| Turns(s, q, x[a..e], d);
    MustPay(s, q);
    SharedFactor(x, q, a, e);
  }

  lemma UnusedByte(p: seq<int>) returns (z: int)
    requires |p| <= WORD
    ensures 0 <= z < MAXSYM && z != NEWLINE && z !in p
  {
    FewBytes(p);
    var s := set c | c in p;
    assert |s + {NEWLINE}| <= |s| + 1;
    z := FreshByte(s + {NEWLINE}, MAXSYM);
    assert z !in s;
  }

  /** No line is lost, whatever the text, exactly if the pattern has neither `^` nor `$`. */
  lemma LosslessIff(p: seq<int>, d: nat)
    requires IsPattern(p) && LineLike(p) && 1 <= d < |p|
    ensures (forall x :: !LosesLine(p, d, x)) <==> Newlined(p) == p
  {
    if Newlined(p) != p {
      var z := UnusedByte(Newlined(p));
      MarredLost(p, d, z);
    }
  }

  // ---------- in a buffer ----------

  lemma LineFactor(text: seq<int>, n: nat, l: Line, p: seq<int>, d: nat)
    requires n < |text| && IsLine(text, n, l)
    ensures Approximates(text, n, p, d, l) <==> HasFactor(p, text[l.bol..l.eol], d)
  {
    var x := text[l.bol..l.eol];
    if Approximates(text, n, p, d, l) {
      var a, z :| Hit(text, n, p, d, l, a, z);
      SameFactor(text, n, l, p, d, a - l.bol, z - l.bol);
    }
    if HasFactor(p, x, d) {
      var a, z :| FactorAt(p, x, d, a, z);
      SameFactor(text, n, l, p, d, a, z);
    }
  }

  lemma SameFactor(text: seq<int>, n: nat, l: Line, p: seq<int>, d: nat, a: nat, z: nat)
    requires n < |text| && IsLine(text, n, l) && a <= z <= l.eol - l.bol
    ensures Hit(text, n, p, d, l, l.bol + a, l.bol + z) <==> FactorAt(p, text[l.bol..l.eol], d, a, z)
  {
    SliceSlice(text, l.bol, l.eol, a, z);
  }

  /** A buffer with one line, which is within `d` edits of the pattern and cannot be printed. */
  lemma LostLine(p: seq<int>, d: nat) returns (text: seq<int>, n: nat)
    requires IsPattern(Newlined(p)) && LineLike(p) && 1 <= d < |p| && Newlined(p) != p
    ensures Buffer(text, n, n + 1, p) && text[n] == NEWLINE && IsLine(text, n, Line(0, n))
    ensures Approximates(text, n, p, d, Line(0, n)) && !Approximates(text, n, Newlined(p), d, Line(0, n))
  {
    NewlinedPattern(p);
    var z := UnusedByte(Newlined(p));
    MarredLost(p, d, z);
    var x := Marred(p, d, z);
    n := |x|;
    text := x + [NEWLINE] + seq(|p|, _ => p[|p| - 1]);
    assert text[0..n] == x;
    forall i | 0 <= i < n ensures text[i] != NEWLINE { assert text[i] == x[i]; }
    LineFactor(text, n, Line(0, n), p, d);
    LineFactor(text, n, Line(0, n), Newlined(p), d);
  }
}
