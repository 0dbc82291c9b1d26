/**
 Archives as sequences of members: bin/ar/archive.c reads and writes, bin/ar/misc.c selects.
 */
module ArMembers {
  import opened Wrappers
  import opened ArFormat

  /** A member as it is kept while an archive is copied: header bytes, decoded header, contents. */
  datatype Member = Member(hb: Bytes, hdr: Header, data: Bytes)

  /** What decodes the bytes of a header; `Decode` does. What follows holds for any decoder. */
  type Decoder = Bytes -> Option<Header>

  ghost predicate MemberOk(dec: Decoder, m: Member) {
    && |m.hb| == HeaderSize && dec(m.hb).Some? && m.hdr.size == |m.data|
    && HeaderFor(dec(m.hb).value, m.hdr)
  }

  /** `full` is `h` with its long name, if it has one. */
  predicate HeaderFor(h: Header, full: Header) {
    full == h.(name := full.name) && (if h.lname > 0 then |full.name| == h.lname else full.name == h.name)
  }

  function LongName(h: Header): Bytes { if h.lname > 0 then h.name else [] }

  /** The padding `copy_ar` reads and writes: none after an empty member. */
  function PadLen(size: nat, lname: nat): nat { if size > 0 && Odd(size + lname) then 1 else 0 }

  predicate Odd(n: int) { n % 2 == 1 }

  function Pad(k: nat): (s: Bytes)
    ensures |s| == k
  {
    seq(k, _ => '\n')
  }

  function Image(m: Member): Bytes {
    m.hb + LongName(m.hdr) + m.data + Pad(PadLen(|m.data|, m.hdr.lname))
  }

  ghost predicate AllOk(dec: Decoder, ms: seq<Member>) { forall i :: 0 <= i < |ms| ==> MemberOk(dec, ms[i]) }

  /** The bytes of a list of members. */
  function Images(ms: seq<Member>): Bytes {
    if ms == [] then [] else Images(ms[..|ms| - 1]) + Image(ms[|ms| - 1])
  }

  /** The member `put_arobj` writes for a file from disk. */
  function FromFile(name: Bytes, sb: Stat, data: Bytes): Member
    requires CanWrite(name, sb)
  {
    Member(MakeHeader(name, sb), Made(name, sb).(name := name), data)
  }

  lemma FileOk(name: Bytes, sb: Stat, data: Bytes)
    requires CanWrite(name, sb) && |data| == sb.size
    ensures MemberOk(Decode, FromFile(name, sb, data))
  {
    DecodeMade(name, sb);
  }

  // ---------- reading ----------

  /** What `get_arobj` finds at offset `at`. */
  datatype Got = End | Bad | Found(hb: Bytes, hdr: Header, next: nat)

  function GetAt(dec: Decoder, bytes: Bytes, at: nat): (g: Got)
    ensures g.Found? ==> at + HeaderSize <= g.next <= |bytes|
  {
    if at >= |bytes| then End
    else if at + HeaderSize > |bytes| then Bad
    else
      var hb := bytes[at..at + HeaderSize];
      match dec(hb)
      case None => Bad
      case Some(h) =>
        var next := at + HeaderSize + h.lname;
        if next > |bytes| then Bad
        else if h.lname == 0 then Found(hb, h, next)
        else Found(hb, h.(name := bytes[at + HeaderSize..next]), next)
  }

  /** Where copying a member's contents ends. */
  function CopyEnd(h: Header, next: nat): int { if h.size < 0 then -1 else next + h.size + PadLen(h.size, h.lname) }

  /** The members from offset `at` to the end, read one after the other; None if the format is bad. */
  function Members(dec: Decoder, bytes: Bytes, at: nat): (r: Option<seq<Member>>)
    decreases |bytes| - at
  {
    match GetAt(dec, bytes, at)
    case End => Some([])
    case Bad => None
    case Found(hb, h, next) =>
      if h.size < 0 || CopyEnd(h, next) > |bytes| then None
      else
        match Members(dec, bytes, CopyEnd(h, next))
        case None => None
        case Some(rest) => Some([Member(hb, h, bytes[next..next + h.size])] + rest)
  }

  lemma {:induction false} MembersOk(dec: Decoder, bytes: Bytes, at: nat)
    requires Members(dec, bytes, at).Some?
    ensures AllOk(dec, Members(dec, bytes, at).value)
    decreases |bytes| - at
  {
    match GetAt(dec, bytes, at)
    case End =>
    case Found(hb, h, next) => MembersOk(dec, bytes, CopyEnd(h, next));
  }

  /** A member's image is read back, wherever it stands. */
  lemma {:induction false} GetImage(dec: Decoder, pre: Bytes, m: Member, post: Bytes)
    requires MemberOk(dec, m)
    ensures var bytes := pre + Image(m) + post;
      var next := |pre| + HeaderSize + |LongName(m.hdr)|;
      && GetAt(dec, bytes, |pre|) == Found(m.hb, m.hdr, next)
      && next + |m.data| <= |bytes| && bytes[next..next + |m.data|] == m.data
      && CopyEnd(m.hdr, next) == |pre| + |Image(m)|
  {
    var bytes := pre + Image(m) + post;
    var at := |pre|;
    var next := at + HeaderSize + |LongName(m.hdr)|;
    assert bytes[at..at + HeaderSize] == m.hb;
    assert bytes[at + HeaderSize..next] == LongName(m.hdr);
    assert bytes[next..next + |m.data|] == m.data;
  }

  lemma Assoc(a: Bytes, b: Bytes, c: Bytes)
    ensures a + b + c == a + (b + c)
  {
  }

  lemma {:induction false} ImagesCons(m: Member, ms: seq<Member>)
    ensures Images([m] + ms) == Image(m) + Images(ms)
  {
    var all, n := [m] + ms, |ms| - 1;
    if ms == [] {
      assert all[..0] == [];
    } else {
      assert all[..|all| - 1] == [m] + ms[..n];
      ImagesCons(m, ms[..n]);
      Assoc(Image(m), Images(ms[..n]), Image(ms[n]));
    }
  }

  /** One member read, then the rest. */
  lemma {:induction false} MembersStep(dec: Decoder, bytes: Bytes, pre: Bytes, m: Member, post: Bytes,
                                       rest: seq<Member>)
    requires bytes == pre + Image(m) + post
    requires MemberOk(dec, m) && Members(dec, bytes, |pre + Image(m)|) == Some(rest)
    ensures Members(dec, bytes, |pre|) == Some([m] + rest)
  {
    GetImage(dec, pre, m, post);
  }

  /** Every list of members written is read back as it was. */
  lemma {:induction false} MembersBack(dec: Decoder, bytes: Bytes, pre: Bytes, ms: seq<Member>)
    requires AllOk(dec, ms) && bytes == pre + Images(ms)
    ensures Members(dec, bytes, |pre|) == Some(ms)
    decreases |ms|
  {
    if ms != [] {
      var m, rest := ms[0], ms[1..];
      assert ms == [m] + rest;
      assert bytes == pre + Image(m) + Images(rest) by {
        ImagesCons(m, rest);
        Assoc(pre, Image(m), Images(rest));
      }
      MembersBack(dec, bytes, pre + Image(m), rest);
      MembersStep(dec, bytes, pre, m, Images(rest), rest);
    }
  }

  /** Files written one after the other are read back with their names, sizes, metadata and bytes. */
  lemma {:induction false} FilesBack(names: seq<Bytes>, stats: seq<Stat>, datas: seq<Bytes>, pre: Bytes)
    requires |names| == |stats| == |datas|
    requires forall i :: 0 <= i < |names| ==> CanWrite(names[i], stats[i]) && |datas[i]| == stats[i].size
    ensures var ms := seq(|names|, i requires 0 <= i < |names| => FromFile(names[i], stats[i], datas[i]));
      AllOk(Decode, ms) && Members(Decode, pre + Images(ms), |pre|) == Some(ms)
  {
    var ms := seq(|names|, i requires 0 <= i < |names| => FromFile(names[i], stats[i], datas[i]));
    forall i | 0 <= i < |ms| ensures MemberOk(Decode, ms[i]) { FileOk(names[i], stats[i], datas[i]); }
    MembersBack(Decode, pre + Images(ms), pre, ms);
  }
}
