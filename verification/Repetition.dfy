/**
 The words of repeated expressions: a star stands for any number of words one after the other, a
 plus for one or more.
 */
module Repetition {
  import opened Positions

  function Flat(ws: seq<seq<int>>): seq<int> {
    if ws == [] then [] else ws[0] + Flat(ws[1..])
  }

  /** All of `ws` are words of the tree. */
  ghost predicate AllIn(e: Re, ws: seq<seq<int>>) { forall i :: 0 <= i < |ws| ==> In(false, e, ws[i]) }

  lemma {:induction false} StarPieces(e: Re, s: seq<int>) returns (ws: seq<seq<int>>)
    requires InStar(false, e, s)
    ensures Flat(ws) == s && AllIn(e, ws)
    decreases |s|
  {
    if s == [] {
      ws := [];
    } else {
      var i: nat :| 0 < i <= |s| && In(false, e, s[..i]) && InStar(false, e, s[i..]);
      var rest := StarPieces(e, s[i..]);
      ws := [s[..i]] + rest;
      assert ws[1..] == rest && s[..i] + s[i..] == s;
    }
  }

  lemma {:induction false} PiecesStar(e: Re, ws: seq<seq<int>>)
    requires AllIn(e, ws)
    ensures InStar(false, e, Flat(ws))
  {
    if ws != [] {
      var u, rest := ws[0], ws[1..];
      PiecesStar(e, rest);
      var s := Flat(ws);
      if u == [] {
        assert s == Flat(rest);
      } else {
        assert s[..|u|] == u && s[|u|..] == Flat(rest);
      }
    }
  }

  lemma StarIff(e: Re, s: seq<int>)
    ensures In(false, Star(e), s) <==> exists ws :: Flat(ws) == s && AllIn(e, ws)
  {
    if In(false, Star(e), s) { var ws := StarPieces(e, s); }
    if ws :| Flat(ws) == s && AllIn(e, ws) { PiecesStar(e, ws); }
  }

  lemma FlatCons(u: seq<int>, ws: seq<seq<int>>)
    ensures Flat([u] + ws) == u + Flat(ws)
  {
    assert ([u] + ws)[1..] == ws;
  }

  lemma PlusPieces(e: Re, s: seq<int>) returns (ws: seq<seq<int>>)
    requires In(false, Plus(e), s)
    ensures |ws| >= 1 && Flat(ws) == s && AllIn(e, ws)
  {
    var i: nat :| i <= |s| && In(false, e, s[..i]) && InStar(false, e, s[i..]);
    var rest := StarPieces(e, s[i..]);
    ws := [s[..i]] + rest;
    FlatCons(s[..i], rest);
    assert s[..i] + s[i..] == s;
  }

  lemma PiecesPlus(e: Re, ws: seq<seq<int>>)
    requires |ws| >= 1 && AllIn(e, ws)
    ensures In(false, Plus(e), Flat(ws))
  {
    var u, rest, s := ws[0], ws[1..], Flat(ws);
    PiecesStar(e, rest);
    assert s[..|u|] == u && s[|u|..] == Flat(rest);
    assert In(false, e, s[..|u|]) && InStar(false, e, s[|u|..]);
  }

  lemma PlusIff(e: Re, s: seq<int>)
    ensures In(false, Plus(e), s) <==> exists ws :: |ws| >= 1 && Flat(ws) == s && AllIn(e, ws)
  {
    if In(false, Plus(e), s) { var ws := PlusPieces(e, s); }
    if ws :| |ws| >= 1 && Flat(ws) == s && AllIn(e, ws) { PiecesPlus(e, ws); }
  }
}
