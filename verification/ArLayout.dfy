/**
 An archive member byte by byte (include/ar.h and bin/ar/archive.h): where each field of the header
 is, how it is written, which files can be written and which headers can be read, and what follows.
 */
module ArLayout {
  import opened Wrappers
  import opened ArFormat
  import opened ArMembers

  /** The digits of `n` at offset `at`, and blanks up to the width. */
  ghost predicate FieldAt(hb: Bytes, at: nat, width: nat, n: nat, b: nat)
    requires Base(b) && at + width <= |hb|
  {
    var d := Digits(n, b);
    |d| <= width && hb[at..at + |d|] == d && forall i :: at + |d| <= i < at + width ==> hb[i] == ' '
  }

  lemma FieldPlaced(hb: Bytes, at: nat, width: nat, n: nat, b: nat)
    requires Base(b) && at + width <= |hb| && Fits(n, b, width) && hb[at..at + width] == Field(n, b, width)
    ensures FieldAt(hb, at, width, n, b)
  {
    var d, f := Digits(n, b), hb[at..at + width];
    assert f[..|d|] == d;
    assert hb[at..at + |d|] == f[..|d|];
    forall i | at + |d| <= i < at + width ensures hb[i] == ' ' { assert hb[i] == f[i - at]; }
  }

  /** The numbers of a header begin at 16, 28, 34, 40 and 48, and it ends in a grave accent and a newline. */
  ghost predicate NumbersAt(hb: Bytes, sb: Stat, size: nat)
    requires |hb| == 60
  {
    && FieldAt(hb, 16, 12, sb.date, 10) && FieldAt(hb, 28, 6, sb.uid, 10) && FieldAt(hb, 34, 6, sb.gid, 10)
    && FieldAt(hb, 40, 8, sb.mode, 8) && FieldAt(hb, 48, 10, size, 10) && hb[58] == '`' && hb[59] == '\n'
  }

  lemma NumbersPlaced(pre: Bytes, sb: Stat, size: nat)
    requires |pre| == 16 && NumbersFit(sb, size)
    ensures NumbersAt(pre + Numbers(sb, size), sb, size)
  {
    var hb := pre + Numbers(sb, size);
    assert hb[16..28] == Field(sb.date, 10, 12);
    assert hb[28..34] == Field(sb.uid, 10, 6);
    assert hb[34..40] == Field(sb.gid, 10, 6);
    assert hb[40..48] == Field(sb.mode, 8, 8);
    assert hb[48..58] == Field(size, 10, 10);
    FieldPlaced(hb, 16, 12, sb.date, 10);
    FieldPlaced(hb, 28, 6, sb.uid, 10);
    FieldPlaced(hb, 34, 6, sb.gid, 10);
    FieldPlaced(hb, 40, 8, sb.mode, 8);
    FieldPlaced(hb, 48, 10, size, 10);
  }

  /** A name of at most 16 characters without a blank stands at the beginning, followed by blanks. */
  lemma ShortLayout(name: Bytes, sb: Stat)
    requires CanWrite(name, sb) && |name| <= 16 && ' ' !in name
    ensures var hb := MakeHeader(name, sb);
      && NumbersAt(hb, sb, sb.size) && hb[..|name|] == name && forall i :: |name| <= i < 16 ==> hb[i] == ' '
  {
    var pre := name + Spaces(16 - |name|);
    NumbersPlaced(pre, sb, sb.size);
    var hb := MakeHeader(name, sb);
    assert hb == pre + Numbers(sb, sb.size);
    assert hb[..|name|] == name;
    forall i | |name| <= i < 16 ensures hb[i] == ' ' { assert hb[i] == pre[i]; }
  }

  /** Any other name is replaced by #1/ and its length, which is added to the size. */
  lemma LongLayout(name: Bytes, sb: Stat)
    requires CanWrite(name, sb) && (|name| > 16 || ' ' in name)
    ensures var hb := MakeHeader(name, sb);
      && NumbersAt(hb, sb, sb.size + |name|) && hb[0] == '#' && hb[1] == '1' && hb[2] == '/'
      && FieldAt(hb, 3, 13, |name|, 10)
  {
    ShortDigits(|name|);
    var pre, numbers := Efmt1 + Field(|name|, 10, 13), Numbers(sb, sb.size + |name|);
    NumbersPlaced(pre, sb, sb.size + |name|);
    var hb := MakeHeader(name, sb);
    assert hb == pre + numbers;
    assert hb[3..16] == Field(|name|, 10, 13);
    FieldPlaced(hb, 3, 13, |name|, 10);
  }

  // ---------- reading ----------

  /** Which headers can be read. */
  lemma ReadableIff(hb: Bytes)
    ensures Decode(hb).Some? <==>
      && |hb| == 60 && hb[58] == '`' && hb[59] == '\n' && hb[0] != ' '
      && (hb[0] == '#' && hb[1] == '1' && hb[2] == '/' ==> 1 <= Strtol(hb[3..], 10) <= 255)
  {
    if |hb| == 60 {
      assert hb[58..60] == [hb[58], hb[59]];
      assert hb[..3] == [hb[0], hb[1], hb[2]];
    }
  }

  /** White space to `isspace`: blank, tab, newline, vertical tab, form feed, carriage return. */
  predicate AllSpace(ws: Bytes) { forall i :: 0 <= i < |ws| ==> ws[i] as int in {32, 9, 10, 11, 12, 13} }

  lemma {:induction false} SpaceSkipped(ws: Bytes, s: Bytes, b: nat)
    requires Base(b) && AllSpace(ws)
    ensures Strtol(ws + s, b) == Strtol(s, b)
  {
    if ws == [] {
      assert ws + s == s;
    } else {
      var t := ws + s;
      assert t[0] == ws[0] && t[1..] == ws[1..] + s;
      SpaceSkipped(ws[1..], s, b);
    }
  }

  /** A number in a field is read whatever space stands before it, with its sign, up to the first other character. */
  lemma FieldRead(ws: Bytes, n: nat, b: nat, rest: Bytes)
    requires Base(b) && AllSpace(ws) && (rest == [] || !IsDigit(rest[0], b))
    ensures Strtol(ws + (Digits(n, b) + rest), b) == n
    ensures Strtol(ws + ("-" + (Digits(n, b) + rest)), b) == 0 - n
    ensures Strtol(ws + ("+" + (Digits(n, b) + rest)), b) == n
  {
    var s := Digits(n, b) + rest;
    SpaceSkipped(ws, s, b);
    NumberBack(n, b, rest);
    SpaceSkipped(ws, "-" + s, b);
    SpaceSkipped(ws, "+" + s, b);
    SignedNumber(s, b);
    NumberIs(Digits(n, b), rest, b);
    ValueOfDigits(n, b);
  }

  /** Where there is no digit, after white space and a sign, the number is 0. */
  lemma NoNumber(ws: Bytes, b: nat, rest: Bytes)
    requires Base(b) && AllSpace(ws) && (rest == [] || !IsDigit(rest[0], b))
    ensures Strtol(ws, b) == Strtol(ws + ("-" + rest), b) == Strtol(ws + ("+" + rest), b) == 0
  {
    SpaceSkipped(ws, [], b);
    assert ws + [] == ws;
    SpaceSkipped(ws, "-" + rest, b);
    SpaceSkipped(ws, "+" + rest, b);
    SignedNumber(rest, b);
  }

  lemma SignedNumber(s: Bytes, b: nat)
    requires Base(b)
    ensures Strtol("-" + s, b) == 0 - Number(s, b) && Strtol("+" + s, b) == Number(s, b)
  {
    var m, p := "-" + s, "+" + s;
    assert m[0] == '-' && m[1..] == s && p[0] == '+' && p[1..] == s;
  }

  // ---------- which files can be written, and what follows the header ----------

  function Limit(b: nat, w: nat): nat
    requires Base(b)
  {
    if w == 0 then 1 else (if b == 8 then 8 else 10) * Limit(b, w - 1)
  }

  /** A number fits a field if it has no more digits than the field is wide. */
  lemma {:induction false} FitsIff(n: nat, b: nat, w: nat)
    requires Base(b) && w >= 1
    ensures Fits(n, b, w) <==> n < Limit(b, w)
  {
    if w == 1 {
      assert Limit(b, 1) == b;
    } else {
      FitsIff(Quotient(n, b), b, w - 1);
      LimitGrows(b, w - 1);
    }
  }

  lemma {:induction false} LimitGrows(b: nat, w: nat)
    requires Base(b) && w >= 1
    ensures Limit(b, w) >= b
  {
    if w > 1 { LimitGrows(b, w - 1); }
  }

  lemma Limits()
    ensures Limit(10, 6) == 1000000 && Limit(8, 8) == 16777216
    ensures Limit(10, 10) == 10000000000 && Limit(10, 12) == 1000000000000
  {
    assert Limit(10, 4) == 10000 && Limit(10, 8) == 100000000 && Limit(8, 4) == 4096;
  }

  /** The files that can be written, in numbers. A long name counts as part of the file. */
  lemma CanWriteIff(name: Bytes, sb: Stat)
    ensures CanWrite(name, sb) <==>
      && 1 <= |name| <= 255 && '/' !in name && sb.date < 1000000000000 && sb.uid < 1000000 && sb.gid < 1000000
      && sb.mode < 65536 && sb.size + (if |name| > 16 || ' ' in name then |name| else 0) < 10000000000
  {
    Limits();
    FitsIff(sb.date, 10, 12);
    FitsIff(sb.uid, 10, 6);
    FitsIff(sb.gid, 10, 6);
    FitsIff(sb.mode, 8, 8);
    FitsIff(if IsLong(name) then sb.size + |name| else sb.size, 10, 10);
  }

  /** After the header come a long name, the contents, and a newline if the length so far is odd. */
  lemma ImageLayout(dec: Decoder, m: Member)
    requires MemberOk(dec, m)
    ensures m.data != [] ==>
      Image(m) == m.hb + (if m.hdr.lname > 0 then m.hdr.name else "") + m.data +
                  (if (m.hdr.lname + |m.data|) % 2 == 0 then "" else "\n")
    ensures m.data == [] ==> Image(m) == m.hb + if m.hdr.lname > 0 then m.hdr.name else ""
  {
    assert Pad(0) == "" && Pad(1) == "\n";
  }

  /** A member ends at an even offset, unless it is empty and its name is long and odd. */
  lemma ImageEven(dec: Decoder, m: Member)
    requires MemberOk(dec, m)
    ensures |Image(m)| % 2 == 0 <==> !(m.data == [] && m.hdr.lname % 2 == 1)
  {
    ImageLayout(dec, m);
    assert |m.hb| == 60 && |LongName(m.hdr)| == m.hdr.lname;
  }

  // ---------- one header in full ----------

  /** What stat says of the file in the example. */
  const SampleStat: Stat := Stat(12, 34, 5, 420, 7)

  lemma SampleDigits()
    ensures Digits(12, 10) == "12" && Digits(34, 10) == "34" && Digits(5, 10) == "5" && Digits(7, 10) == "7"
    ensures Digits(420, 8) == "644"
  {
    assert Digits(1, 10) == "1" && Digits(3, 10) == "3";
    assert Digits(6, 8) == "6" && Digits(52, 8) == "64";
  }

  lemma SampleFields()
    ensures Field(12, 10, 12) == "12          " && Field(34, 10, 6) == "34    " && Field(5, 10, 6) == "5     "
    ensures Field(420, 8, 8) == "644     " && Field(7, 10, 10) == "7         "
  {
    SampleDigits();
  }

  lemma SampleNumbers()
    ensures NumbersFit(SampleStat, 7)
    ensures Numbers(SampleStat, 7) == "12          " + "34    " + "5     " + "644     " + "7         " + "`\n"
  {
    SampleFields();
    SampleDigits();
  }

  lemma SampleName()
    ensures "a" + Spaces(15) == "a               "
  {
  }

  lemma SampleCanWrite()
    ensures CanWrite("a", SampleStat) && !IsLong("a")
  {
    SampleNumbers();
  }

  /** The header of a file `a` of 7 bytes, written out, and what is read from it. */
  lemma SampleHeader()
    ensures CanWrite("a", SampleStat)
    ensures var hb := "a               " + ("12          " + "34    " + "5     " + "644     " + "7         " + "`\n");
      MakeHeader("a", SampleStat) == hb && Decode(hb) == Some(Header(12, 34, 5, 420, 7, 0, "a"))
  {
    SampleCanWrite();
    SampleNumbers();
    SampleName();
    DecodeMade("a", SampleStat);
  }
}
