/**
 bin/ar/archive.c: the header of an archive member, how it is written and how it is read back.
 */
module ArFormat {
  import opened Wrappers

  type Bytes = seq<char>

  const HeaderSize: nat := 60
  const MaxNamLen: nat := 255

  // ---------- numbers in header fields ----------

  predicate Base(b: nat) { b == 8 || b == 10 }

  function DigitChar(d: nat): char
    requires d < 10
  {
    '0' + d as char
  }

  predicate IsDigit(c: char, b: nat)
    requires Base(b)
  {
    '0' as int <= c as int < '0' as int + b
  }

  function Quotient(n: nat, b: nat): (q: nat)
    requires Base(b)
    ensures n >= b ==> q < n
  {
    if b == 8 then n / 8 else n / 10
  }

  function Remainder(n: nat, b: nat): (r: nat)
    requires Base(b)
    ensures r < b
  {
    if b == 8 then n % 8 else n % 10
  }

  /** How printf writes `n`. */
  function Digits(n: nat, b: nat): (s: Bytes)
    requires Base(b)
    ensures s != [] && forall i :: 0 <= i < |s| ==> IsDigit(s[i], b)
  {
    if n < b then [DigitChar(n)] else Digits(Quotient(n, b), b) + [DigitChar(Remainder(n, b))]
  }

  function Value(s: Bytes, b: nat): nat
    requires Base(b) && forall i :: 0 <= i < |s| ==> IsDigit(s[i], b)
  {
    if s == [] then 0
    else
      assert IsDigit(s[|s| - 1], b);
      (if b == 8 then 8 else 10) * Value(s[..|s| - 1], b) + (s[|s| - 1] as int - '0' as int)
  }

  lemma {:induction false} ValueOfDigits(n: nat, b: nat)
    requires Base(b)
    ensures Value(Digits(n, b), b) == n
  {
    var s := Digits(n, b);
    if n < b {
      assert s[..0] == [];
      assert Value(s[..0], b) == 0;
    } else {
      ValueOfDigits(Quotient(n, b), b);
      assert s[..|s| - 1] == Digits(Quotient(n, b), b);
    }
  }

  /** How many digits `s` begins with. */
  function Run(s: Bytes, b: nat): (k: nat)
    requires Base(b)
    ensures k <= |s| && forall i :: 0 <= i < k ==> IsDigit(s[i], b)
    ensures k < |s| ==> !IsDigit(s[k], b)
  {
    if s == [] || !IsDigit(s[0], b) then 0 else 1 + Run(s[1..], b)
  }

  function Number(s: Bytes, b: nat): nat
    requires Base(b)
  {
    Value(s[..Run(s, b)], b)
  }

  predicate IsSpace(c: char) { c == ' ' || '\t' <= c <= '\r' }

  /** `strtol`: blanks, a sign, and as many digits as there are. */
  function Strtol(s: Bytes, b: nat): int
    requires Base(b)
  {
    if s == [] then 0
    else if IsSpace(s[0]) then Strtol(s[1..], b)
    else if s[0] == '-' then 0 - Number(s[1..], b)
    else if s[0] == '+' then Number(s[1..], b)
    else Number(s, b)
  }

  lemma RunIs(s: Bytes, b: nat, k: nat)
    requires Base(b) && k <= |s| && (forall i :: 0 <= i < k ==> IsDigit(s[i], b)) && (k < |s| ==> !IsDigit(s[k], b))
    ensures Run(s, b) == k
  {
  }

  lemma StrtolDigit(s: Bytes, b: nat)
    requires Base(b) && s != [] && IsDigit(s[0], b)
    ensures Strtol(s, b) == Number(s, b)
  {
  }

  /** The digits at the beginning, whatever other than a digit follows. */
  lemma NumberIs(d: Bytes, rest: Bytes, b: nat)
    requires Base(b) && (forall i :: 0 <= i < |d| ==> IsDigit(d[i], b)) && (rest == [] || !IsDigit(rest[0], b))
    ensures Number(d + rest, b) == Value(d, b)
  {
    RunIs(d + rest, b, |d|);
    assert (d + rest)[..|d|] == d;
  }

  /** A number is read back from its digits, whatever other than a digit follows. */
  lemma NumberBack(n: nat, b: nat, rest: Bytes)
    requires Base(b) && (rest == [] || !IsDigit(rest[0], b))
    ensures Strtol(Digits(n, b) + rest, b) == n
  {
    var d := Digits(n, b);
    assert (d + rest)[0] == d[0];
    StrtolDigit(d + rest, b);
    NumberIs(d, rest, b);
    ValueOfDigits(n, b);
  }

  function Spaces(k: nat): (s: Bytes)
    ensures |s| == k && forall i :: 0 <= i < k ==> s[i] == ' '
  {
    seq(k, _ => ' ')
  }

  /** The number fits its field. */
  predicate Fits(n: nat, b: nat, w: nat)
    requires Base(b)
  {
    |Digits(n, b)| <= w
  }

  /** A number to the left in a field of width `w`. */
  function Field(n: nat, b: nat, w: nat): (s: Bytes)
    requires Base(b) && Fits(n, b, w)
    ensures |s| == w
  {
    Digits(n, b) + Spaces(w - |Digits(n, b)|)
  }

  lemma FieldBack(n: nat, b: nat, w: nat)
    requires Base(b) && Fits(n, b, w)
    ensures Strtol(Field(n, b, w), b) == n
  {
    NumberBack(n, b, Spaces(w - |Digits(n, b)|));
  }

  // ---------- headers ----------

  /** A header in internal form. */
  datatype Header = Header(date: int, uid: int, gid: int, mode: int, size: int, lname: nat, name: Bytes)

  /** What stat says of a file. */
  datatype Stat = Stat(date: nat, uid: nat, gid: nat, mode: nat, size: nat)

  const Fmag: Bytes := "`\n"
  const Efmt1: Bytes := "#1/"

  /** The numbers after the name, as the formats HDR1 and HDR2 write them. */
  function Numbers(sb: Stat, size: nat): (s: Bytes)
    requires NumbersFit(sb, size)
    ensures |s| == 44
  {
    Field(sb.date, 10, 12) + Field(sb.uid, 10, 6) + Field(sb.gid, 10, 6) + Field(sb.mode, 8, 8) +
    Field(size, 10, 10) + Fmag
  }

  predicate NumbersFit(sb: Stat, size: nat) {
    Fits(sb.date, 10, 12) && Fits(sb.uid, 10, 6) && Fits(sb.gid, 10, 6) && Fits(sb.mode, 8, 8) && Fits(size, 10, 10)
  }

  /** Names too long for the field, or with a blank in them, go after the header. */
  predicate IsLong(name: Bytes) { |name| > 16 || ' ' in name }

  /** A file's last path component, with numbers that fit. */
  predicate CanWrite(name: Bytes, sb: Stat) {
    && 1 <= |name| <= MaxNamLen && '/' !in name && sb.mode < 0x1_0000
    && NumbersFit(sb, if IsLong(name) then sb.size + |name| else sb.size)
  }

  lemma ShortDigits(n: nat)
    requires n <= MaxNamLen
    ensures |Digits(n, 10)| <= 3 && Fits(n, 10, 13)
  {
    if n >= 10 {
      assert |Digits(n / 10, 10)| <= 2 by {
        if n / 10 >= 10 { assert n / 10 / 10 < 10; }
      }
    }
  }

  /** The header `put_arobj` makes for a file from disk. */
  function MakeHeader(name: Bytes, sb: Stat): (hb: Bytes)
    requires CanWrite(name, sb)
    ensures |hb| == HeaderSize
  {
    if IsLong(name) then
      ShortDigits(|name|);
      Efmt1 + Field(|name|, 10, 13) + Numbers(sb, sb.size + |name|)
    else name + Spaces(16 - |name|) + Numbers(sb, sb.size)
  }

  /** Trailing blanks removed. */
  function Strip(s: Bytes): Bytes {
    if s == [] || s[|s| - 1] != ' ' then s else Strip(s[..|s| - 1])
  }

  lemma {:induction false} StripBack(name: Bytes, k: nat)
    requires name != [] && name[|name| - 1] != ' '
    ensures Strip(name + Spaces(k)) == name
  {
    if k == 0 {
      assert name + Spaces(0) == name;
    } else {
      var s := name + Spaces(k);
      assert s[..|s| - 1] == name + Spaces(k - 1);
      StripBack(name, k - 1);
    }
  }

  /** `get_arobj` on a header of full size; a long name is still to be read. */
  function Decode(hb: Bytes): Option<Header> {
    if |hb| != HeaderSize then None
    else
    var date, uid, gid := Strtol(hb[16..28], 10), Strtol(hb[28..34], 10), Strtol(hb[34..40], 10);
    var mode, size := Strtol(hb[40..48], 8) % 0x1_0000, Strtol(hb[48..58], 10);
    if hb[58..60] != Fmag || hb[0] == ' ' then None
    else if hb[..3] == Efmt1 then
      var len := Strtol(hb[3..], 10);
      if len <= 0 || len > MaxNamLen then None
      else Some(Header(date, uid, gid, mode, size - len, len, []))
    else Some(Header(date, uid, gid, mode, size, 0, Strip(hb[..16])))
  }

  /** The numbers of header `hb` are these. */
  ghost predicate Says(hb: Bytes, sb: Stat, size: int)
    requires |hb| == HeaderSize
  {
    && Strtol(hb[16..28], 10) == sb.date && Strtol(hb[28..34], 10) == sb.uid && Strtol(hb[34..40], 10) == sb.gid
    && Strtol(hb[40..48], 8) == sb.mode && Strtol(hb[48..58], 10) == size && hb[58..60] == Fmag
  }

  lemma DecodeSays(hb: Bytes, sb: Stat, size: int)
    requires |hb| == HeaderSize && Says(hb, sb, size) && hb[0] != ' ' && sb.mode < 0x1_0000 && hb[..3] != Efmt1
    ensures Decode(hb) == Some(Header(sb.date, sb.uid, sb.gid, sb.mode, size, 0, Strip(hb[..16])))
  {
  }

  lemma DecodeSaysLong(hb: Bytes, sb: Stat, size: int, len: nat)
    requires |hb| == HeaderSize && Says(hb, sb, size) && hb[0] != ' ' && sb.mode < 0x1_0000
    requires hb[..3] == Efmt1 && Strtol(hb[3..], 10) == len && 0 < len <= MaxNamLen
    ensures Decode(hb) == Some(Header(sb.date, sb.uid, sb.gid, sb.mode, size - len, len, []))
  {
  }

  lemma NumbersBack(pre: Bytes, sb: Stat, size: nat)
    requires |pre| == 16 && NumbersFit(sb, size)
    ensures Says(pre + Numbers(sb, size), sb, size)
  {
    var hb := pre + Numbers(sb, size);
    assert hb[16..28] == Field(sb.date, 10, 12);
    assert hb[28..34] == Field(sb.uid, 10, 6);
    assert hb[34..40] == Field(sb.gid, 10, 6);
    assert hb[40..48] == Field(sb.mode, 8, 8);
    assert hb[48..58] == Field(size, 10, 10);
    FieldBack(sb.date, 10, 12);
    FieldBack(sb.uid, 10, 6);
    FieldBack(sb.gid, 10, 6);
    FieldBack(sb.mode, 8, 8);
    FieldBack(size, 10, 10);
  }

  /** What a header made for a file says. */
  function Made(name: Bytes, sb: Stat): Header {
    if IsLong(name) then Header(sb.date, sb.uid, sb.gid, sb.mode, sb.size, |name|, [])
    else Header(sb.date, sb.uid, sb.gid, sb.mode, sb.size, 0, name)
  }

  /** The length of a long name is read back. */
  lemma LengthBack(name: Bytes, numbers: Bytes)
    requires |name| <= MaxNamLen && Fits(|name|, 10, 13)
    ensures Strtol((Efmt1 + Field(|name|, 10, 13) + numbers)[3..], 10) == |name|
  {
    ShortDigits(|name|);
    var d := Digits(|name|, 10);
    var rest := Spaces(13 - |d|) + numbers;
    assert (Efmt1 + Field(|name|, 10, 13) + numbers)[3..] == d + rest;
    NumberBack(|name|, 10, rest);
  }

  lemma DecodeLong(name: Bytes, sb: Stat)
    requires CanWrite(name, sb) && IsLong(name)
    ensures Decode(MakeHeader(name, sb)) == Some(Made(name, sb))
  {
    var hb := MakeHeader(name, sb);
    assert Says(hb, sb, sb.size + |name|) && Strtol(hb[3..], 10) == |name| && hb[..3] == Efmt1 by {
      LongHeader(name, sb);
    }
    assert hb[0] == hb[..3][0];
    DecodeSaysLong(hb, sb, sb.size + |name|, |name|);
  }

  lemma LongHeader(name: Bytes, sb: Stat)
    requires CanWrite(name, sb) && IsLong(name)
    ensures var hb := MakeHeader(name, sb);
      Says(hb, sb, sb.size + |name|) && Strtol(hb[3..], 10) == |name| && hb[..3] == Efmt1
  {
    ShortDigits(|name|);
    var pre, numbers := Efmt1 + Field(|name|, 10, 13), Numbers(sb, sb.size + |name|);
    assert MakeHeader(name, sb) == pre + numbers;
    NumbersBack(pre, sb, sb.size + |name|);
    LengthBack(name, numbers);
  }

  lemma DecodeShort(name: Bytes, sb: Stat)
    requires CanWrite(name, sb) && !IsLong(name)
    ensures Decode(MakeHeader(name, sb)) == Some(Made(name, sb))
  {
    var pre := name + Spaces(16 - |name|);
    var hb := MakeHeader(name, sb);
    assert hb == pre + Numbers(sb, sb.size);
    NumbersBack(pre, sb, sb.size);
    assert hb[0] == name[0] && name[0] in name;
    assert name[|name| - 1] in name;
    StripBack(name, 16 - |name|);
    assert hb[..16] == pre;
    NotLongForm(name, hb);
    DecodeSays(hb, sb, sb.size);
  }

  /** The header of a file is read back: all numbers, and the name or its length. */
  lemma DecodeMade(name: Bytes, sb: Stat)
    requires CanWrite(name, sb)
    ensures Decode(MakeHeader(name, sb)) == Some(Made(name, sb))
  {
    if IsLong(name) { DecodeLong(name, sb); } else { DecodeShort(name, sb); }
  }

  /** A short name never looks like the mark of a long one. */
  lemma NotLongForm(name: Bytes, hb: Bytes)
    requires |hb| >= 16 && 1 <= |name| <= 16 && '/' !in name && hb[..16] == name + Spaces(16 - |name|)
    ensures hb[..3] != Efmt1
  {
    assert hb[2] == hb[..16][2];
    if |name| > 2 { assert name[2] in name; }
  }
}
