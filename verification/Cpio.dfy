/**
  cpio -o and cpio -i: what is read back from an archive is what went into it.
*/
module Cpio {
  import opened CpioFormat
  import opened CpioIo
  import opened Bytes
  import opened Sequences

  // ---------------------------------------------------------------------
  // Copy out
  // ---------------------------------------------------------------------

  /** strcpy into Hdr.h_name: what was behind the new NUL stays there. */
  method Strcpy(hname: array<byte>, name: seq<byte>)
    requires |name| < hname.Length
    modifies hname
    ensures hname[..|name| + 1] == name + [0]
  {
    var i := 0;
    while i < |name|
      invariant 0 <= i <= |name| && hname[..i] == name[..i]
    {
      hname[i] := name[i];
      i := i + 1;
    }
    hname[i] := 0;
    assert name[..i] == name;
  }

  /** The header and the name; the header buffer is written up to an even length. */
  method WriteHead(w: Writer, f: Format, le: bool, m: Member, hname: array<byte>) returns (ghost x: byte)
    requires w.Valid() && f != Unknown && hname.Length == PATHSIZE && hname != w.cbuf
    requires HeaderFits(m.h) && m.h.namesize == |m.name| + 1 < PATHSIZE
    modifies w`cp, w`ccnt, w`out, w`blocks, w.cbuf, hname
    ensures w.Valid() && w.Written() == old(w.Written()) + Head(f, le, m, x)
  {
    Strcpy(hname, m.name);
    var n := FixedSize(f) + m.h.namesize;
    x := if m.h.namesize < PATHSIZE then hname[m.h.namesize] else 0;
    var chdr := FixedPart(f, le, m.h) + hname[..];
    HeadText(f, FixedPart(f, le, m.h), m.name, hname[..], x);
    w.Bwrite(f == Binary, chdr, n);
  }

  lemma HeadText(f: Format, fix: seq<byte>, name: seq<byte>, hname: seq<byte>, x: byte)
    requires |hname| == PATHSIZE && |name| + 1 < PATHSIZE && hname[..|name| + 1] == name + [0] && x == hname[|name| + 1]
    requires |fix| == FixedSize(f) && f != Unknown
    ensures var n := Rounded(f == Binary, |fix| + |name| + 1);
            n <= |fix + hname| && (fix + hname)[..n] == fix + (name + [0] + Padding(f, |name| + 1, x))
  {
    var k := |name| + 1;
    var pad := Padding(f, k, x);
    assert hname[..k + |pad|] == hname[..k] + pad;
    assert (fix + hname)[..|fix| + k + |pad|] == fix + hname[..k + |pad|];
  }

  /** What has been written of a file: `done` bytes, and the padding once they are all there. */
  function Sent(f: Format, data: seq<byte>, done: nat, y: byte): seq<byte>
    requires done <= |data|
  {
    data[..done] + (if done == |data| then Padding(f, |data|, y) else [])
  }

  /** The contents of a file, through a buffer of CPIOBSZ bytes. */
  method WriteData(w: Writer, f: Format, data: seq<byte>, buf: array<byte>) returns (ghost y: byte)
    requires w.Valid() && f != Unknown && buf.Length == CPIOBSZ && buf != w.cbuf
    modifies w`cp, w`ccnt, w`out, w`blocks, w.cbuf, buf
    ensures w.Valid() && w.Written() == old(w.Written()) + (data + Padding(f, |data|, y))
  {
    var filesz: int := |data|;
    var done := 0;
    y := 0;
    ghost var was := w.Written();
    SentNothing(was, f, data);
    while filesz > 0
      invariant w.Valid() && 0 <= done <= |data|
      invariant if filesz > 0 then done == |data| - filesz && done % 2 == 0 else done == |data|
      invariant w.Written() == was + Sent(f, data, done, y)
      decreases filesz
    {
      var ct := if filesz > CPIOBSZ then CPIOBSZ else filesz;
      ReadFile(buf, data, done, ct);
      BlockSent(was, f, data, done, ct, buf[..], y);
      y := if ct < CPIOBSZ then buf[ct] else 0;
      w.Bwrite(f == Binary, buf[..], ct);
      done := done + ct;
      filesz := filesz - CPIOBSZ;
    }
    assert data[..|data|] == data;
  }

  lemma SentNothing(was: seq<byte>, f: Format, data: seq<byte>)
    ensures was + Sent(f, data, 0, 0) == was
  {
  }

  lemma BlockSent(was: seq<byte>, f: Format, data: seq<byte>, done: nat, ct: nat, buf: seq<byte>, y: byte)
    requires f != Unknown && done + ct <= |data| && done % 2 == 0 && 0 < ct <= CPIOBSZ == |buf|
    requires buf[..ct] == data[done..done + ct]
    requires done + ct < |data| ==> ct == CPIOBSZ
    ensures var n := Rounded(f == Binary, ct);
            n <= |buf| && (was + Sent(f, data, done, y)) + buf[..n] == was + Sent(f, data, done + ct, if ct < CPIOBSZ then buf[ct] else 0)
  {
    BlockText(f, data, done, ct, buf, if ct < CPIOBSZ then buf[ct] else 0);
    assert Sent(f, data, done, y) == data[..done];
    Assoc(was, data[..done], buf[..Rounded(f == Binary, ct)]);
  }

  lemma BlockText(f: Format, data: seq<byte>, done: nat, ct: nat, buf: seq<byte>, y: byte)
    requires f != Unknown && done + ct <= |data| && done % 2 == 0 && 0 < ct <= CPIOBSZ == |buf|
    requires buf[..ct] == data[done..done + ct]
    requires done + ct < |data| ==> ct == CPIOBSZ
    requires ct < CPIOBSZ ==> y == buf[ct]
    ensures var n := Rounded(f == Binary, ct);
            && n <= |buf|
            && data[..done] + buf[..n] == data[..done + ct] + (if done + ct == |data| then Padding(f, |data|, y) else [])
  {
    assert data[..done + ct] == data[..done] + data[done..done + ct];
    var n := Rounded(f == Binary, ct);
    if n > ct { assert buf[..n] == buf[..ct] + [y]; }
  }

  /** read(Ifile, Buf, ct) */
  method ReadFile(buf: array<byte>, data: seq<byte>, from: nat, ct: nat)
    requires ct <= buf.Length && from + ct <= |data|
    modifies buf
    ensures buf[..ct] == data[from..from + ct]
  {
    var i := 0;
    while i < ct
      invariant 0 <= i <= ct && buf[..i] == data[from..from + i]
    {
      buf[i] := data[from + i];
      i := i + 1;
    }
  }

  /** The OUT loop: every member, the trailer, and a last record that flushes the buffer. */
  method CopyOut(w: Writer, f: Format, le: bool, ms: seq<Member>) returns (ghost xs: seq<byte>, ghost ys: seq<byte>)
    requires w.Valid() && w.Written() == [] && f != Unknown && AllOk(ms)
    modifies w`cp, w`ccnt, w`out, w`blocks, w.cbuf
    ensures w.Valid() && |xs| == |ys| == |ms| + 1 && Stream(f, le, Archived(ms), xs, ys) <= w.out
    ensures |w.out| == Flushed(f, |Stream(f, le, Archived(ms), xs, ys)|, w.bufsize)
  {
    var hname, buf := new byte[PATHSIZE], new byte[CPIOBSZ];
    xs, ys := CopyMembers(w, f, le, ms, hname, buf);
    var t := TrailerOf(LastHeader(ms));
    ghost var x := WriteHead(w, f, le, t, hname);
    TrailerStored(f, le, t, x);
    StreamAppend(f, le, ms, xs, ys, t, x, 0);
    xs, ys := xs + [x], ys + [0];
    Flush(w, f, Stream(f, le, Archived(ms), xs, ys));
  }

  lemma TrailerStored(f: Format, le: bool, t: Member, x: byte)
    requires HeaderFits(t.h) && t.data == []
    ensures Stored(f, le, t, x, 0) == Head(f, le, t, x)
  {
    assert t.data + Padding(f, |t.data|, 0) == [];
  }

  method CopyMembers(w: Writer, f: Format, le: bool, ms: seq<Member>, hname: array<byte>, buf: array<byte>)
    returns (ghost xs: seq<byte>, ghost ys: seq<byte>)
    requires w.Valid() && w.Written() == [] && f != Unknown && AllOk(ms)
    requires hname.Length == PATHSIZE && buf.Length == CPIOBSZ && hname != w.cbuf && buf != w.cbuf && hname != buf
    modifies w`cp, w`ccnt, w`out, w`blocks, w.cbuf, hname, buf
    ensures w.Valid() && |xs| == |ys| == |ms| && w.Written() == Stream(f, le, ms, xs, ys)
  {
    xs, ys := [], [];
    var i := 0;
    while i < |ms|
      invariant 0 <= i <= |ms| && |xs| == |ys| == i && w.Valid()
      invariant w.Written() == Stream(f, le, ms[..i], xs, ys)
    {
      ghost var was := w.Written();
      ghost var x, y := CopyMember(w, f, le, ms[i], hname, buf);
      StreamStep(f, le, ms, i, xs, ys, x, y);
      xs, ys := xs + [x], ys + [y];
      i := i + 1;
    }
    assert ms[..i] == ms;
  }

  lemma StreamStep(f: Format, le: bool, ms: seq<Member>, i: nat, xs: seq<byte>, ys: seq<byte>, x: byte, y: byte)
    requires AllOk(ms) && i < |ms| && |xs| == |ys| == i
    ensures Stream(f, le, ms[..i + 1], xs + [x], ys + [y]) == Stream(f, le, ms[..i], xs, ys) + Stored(f, le, ms[i], x, y)
  {
    assert ms[..i + 1] == ms[..i] + [ms[i]];
    StreamAppend(f, le, ms[..i], xs, ys, ms[i], x, y);
  }

  method CopyMember(w: Writer, f: Format, le: bool, m: Member, hname: array<byte>, buf: array<byte>) returns (ghost x: byte, ghost y: byte)
    requires w.Valid() && MemberOk(m) && f != Unknown && hname.Length == PATHSIZE && buf.Length == CPIOBSZ
    requires hname != w.cbuf && buf != w.cbuf && hname != buf
    modifies w`cp, w`ccnt, w`out, w`blocks, w.cbuf, hname, buf
    ensures w.Valid() && w.Written() == old(w.Written()) + Stored(f, le, m, x, y)
  {
    ghost var was := w.Written();
    x := WriteHead(w, f, le, m, hname);
    y := WriteData(w, f, m.data, buf);
    Assoc(was, Head(f, le, m, x), m.data + Padding(f, |m.data|, y));
  }

  /** bwrite(Cbuf, Bufsize): the buffer and the byte behind it, written once more. */
  method Flush(w: Writer, f: Format, ghost all: seq<byte>)
    requires w.Valid() && w.Written() == all
    modifies w`cp, w`ccnt, w`out, w`blocks, w.cbuf
    ensures w.Valid() && all <= w.out && |w.out| == Flushed(f, |all|, w.bufsize)
  {
    w.Bwrite(f == Binary, w.cbuf[..] + [0], w.bufsize);
    OutIsFront(all, w.out, w.cbuf[..w.ccnt], w.Written()[|all|..], w.bufsize, w.blocks);
    Records(|w.Written()|, w.bufsize, w.blocks, w.ccnt);
  }

  /** Of n bytes those that fill whole records. */
  function WholeRecords(n: nat, record: nat): nat
    requires record > 0
  {
    n / record * record
  }

  /** What has left the buffer, when behind n bytes the buffer itself is written. */
  function Flushed(f: Format, n: nat, record: nat): nat
    requires record > 0
  {
    WholeRecords(n + Rounded(f == Binary, record), record)
  }

  lemma Records(n: nat, record: nat, blocks: nat, rest: nat)
    requires record > 0 && n == blocks * record + rest && rest < record
    ensures blocks * record == WholeRecords(n, record)
  {
    var q := n / record;
    assert n == q * record + n % record;
    if q < blocks { assert (q + 1) * record <= blocks * record; }
    if blocks < q { assert (blocks + 1) * record <= q * record; }
  }

  lemma OutIsFront(all: seq<byte>, out: seq<byte>, buffered: seq<byte>, more: seq<byte>, bufsize: nat, blocks: nat)
    requires out + buffered == all + more && |buffered| < bufsize <= |more| && |out| == blocks * bufsize
    ensures all <= out && |out| >= bufsize
  {
    assert out == (out + buffered)[..|out|];
    AtLeastOne(blocks, bufsize);
  }

  lemma AtLeastOne(n: nat, b: nat)
    requires n * b > 0
    ensures n * b >= b
  {
  }

  // ---------------------------------------------------------------------
  // Copy in
  // ---------------------------------------------------------------------

  /** One member and the stream behind it. */
  lemma StoredFront(f: Format, head: seq<byte>, data: seq<byte>, y: byte, rest: seq<byte>)
    requires f != Unknown
    ensures var u := data + Padding(f, |data|, y) + rest;
            var n := Rounded(f == Binary, |data|);
            && (head + (data + Padding(f, |data|, y))) + rest == head + u && (head + u)[|head|..] == u
            && n <= |u| && u[..|data|] == data && u[n..] == rest
  {
    Assoc(head, data + Padding(f, |data|, y), rest);
    Assoc(data, Padding(f, |data|, y), rest);
  }

  /** One turn of the IN loop on a well-formed member: gethdr, and unless it is the trailer, the contents. */
  method CopyOne(r: Reader, ghost f: Format, ghost m: Member, ghost x: byte, ghost y: byte, ghost rest: seq<byte>)
    returns (found: Member, more: bool)
    requires r.Valid() && !r.filbuf && (r.cflag == Unknown ==> r.nleft == 0)
    requires f != Unknown && (r.cflag == f || r.cflag == Unknown) && MemberOk(m)
    requires r.Unread() == Stored(f, r.le, m, x, y) + rest && |r.Unread()| >= Least(r.cflag)
    modifies r, r.area
    ensures r.Valid() && !r.filbuf && r.cflag == f
    ensures more <==> m.name != TRAILER
    ensures more ==> found == m && r.Unread() == rest
  {
    ghost var head, u := Head(f, r.le, m, x), m.data + Padding(f, |m.data|, y) + rest;
    StoredFront(f, head, m.data, y, rest);
    HeadBack(r.cflag, f, r.le, m, x, u);
    var h := r.Synch();
    found := Member(h.value.0.h, h.value.1, []);
    more := found.name != TRAILER;
    if more {
      assert r.Unread() == u;
      var data := r.ReadData(found.h.filesize);
      found := found.(data := data);
    }
  }

  /** Enough is left for the next header. */
  lemma HeadLength(f: Format, le: bool, m: Member, x: byte, y: byte)
    requires HeaderFits(m.h) && f != Unknown
    ensures |Stored(f, le, m, x, y)| >= Least(f)
  {
  }

  /** The stream bs holds the members ms, with a trailer among them, and anything behind. */
  ghost predicate Holds(f: Format, le: bool, ms: seq<Member>, xs: seq<byte>, ys: seq<byte>, tail: seq<byte>, bs: seq<byte>) {
    && AllOk(ms) && AllFit(ms) && |ms| == |xs| == |ys| && |UpToTrailer(ms)| < |ms|
    && bs == Stream(f, le, ms, xs, ys) + tail
  }

  lemma HoldsNext(f: Format, le: bool, ms: seq<Member>, xs: seq<byte>, ys: seq<byte>, tail: seq<byte>, bs: seq<byte>) returns (rest: seq<byte>)
    requires Holds(f, le, ms, xs, ys, tail, bs) && f != Unknown
    ensures ms != [] && MemberOk(ms[0]) && bs == Stored(f, le, ms[0], xs[0], ys[0]) + rest && |bs| >= Least(f)
    ensures ms[0].name != TRAILER ==>
              Holds(f, le, ms[1..], xs[1..], ys[1..], tail, rest) && UpToTrailer(ms) == [ms[0]] + UpToTrailer(ms[1..])
  {
    rest := Stream(f, le, ms[1..], xs[1..], ys[1..]) + tail;
    Assoc(Stored(f, le, ms[0], xs[0], ys[0]), Stream(f, le, ms[1..], xs[1..], ys[1..]), tail);
    HeadLength(f, le, ms[0], xs[0], ys[0]);
  }

  /** The IN loop on a well-formed archive with a trailer, read in whatever pieces: the members up to the trailer. */
  method CopyIn(r: Reader, ghost f: Format, ghost all: seq<Member>, ghost xs: seq<byte>, ghost ys: seq<byte>, ghost tail: seq<byte>)
    returns (ms: seq<Member>)
    requires r.Valid() && !r.filbuf && r.nleft == 0 && r.cflag == Unknown && f != Unknown
    requires Holds(f, r.le, all, xs, ys, tail, r.Unread()) && |r.Unread()| >= CHARS
    modifies r, r.area
    ensures ms == UpToTrailer(all)
  {
    ms := [];
    var more := true;
    ghost var ms', xs', ys' := all, xs, ys;
    while more
      invariant r.Valid() && !r.filbuf && (r.cflag == Unknown ==> r.nleft == 0)
      invariant r.cflag == f || (r.cflag == Unknown && |r.Unread()| >= CHARS)
      invariant more ==> Holds(f, r.le, ms', xs', ys', tail, r.Unread())
      invariant UpToTrailer(all) == if more then ms + UpToTrailer(ms') else ms
      decreases |ms'|, more
    {
      ghost var rest := HoldsNext(f, r.le, ms', xs', ys', tail, r.Unread());
      var found;
      found, more := CopyOne(r, f, ms'[0], xs'[0], ys'[0], rest);
      if more {
        ms := ms + [found];
        ms', xs', ys' := ms'[1..], xs'[1..], ys'[1..];
      }
    }
  }

  // ---------------------------------------------------------------------
  // Round trip
  // ---------------------------------------------------------------------

  /** How many bytes the members take up in the stream. */
  function SizeOf(f: Format, ms: seq<Member>): nat {
    if ms == [] then 0
    else
      FixedSize(f) + Rounded(f == Binary, |ms[0].name| + 1) + Rounded(f == Binary, |ms[0].data|) + SizeOf(f, ms[1..])
  }

  lemma {:induction false} StreamSize(f: Format, le: bool, ms: seq<Member>, xs: seq<byte>, ys: seq<byte>)
    requires |ms| == |xs| == |ys| && AllFit(ms)
    ensures |Stream(f, le, ms, xs, ys)| == SizeOf(f, ms)
  {
    if ms != [] {
      StoredSize(f, le, ms[0], xs[0], ys[0]);
      StreamSize(f, le, ms[1..], xs[1..], ys[1..]);
    }
  }

  lemma StoredSize(f: Format, le: bool, m: Member, x: byte, y: byte)
    requires HeaderFits(m.h)
    ensures |Stored(f, le, m, x, y)| == FixedSize(f) + Rounded(f == Binary, |m.name| + 1) + Rounded(f == Binary, |m.data|)
  {
    PaddedSize(f, |m.name| + 1, x);
    PaddedSize(f, |m.data|, y);
  }

  lemma PaddedSize(f: Format, n: nat, x: byte)
    ensures n + |Padding(f, n, x)| == Rounded(f == Binary, n)
  {
  }

  /** The length of an archive: the members, the trailer, and one record more, as far as they fill records. */
  ghost function ArchiveSize(f: Format, ms: seq<Member>, record: nat): nat
    requires AllOk(ms) && record > 0
  {
    Flushed(f, SizeOf(f, Archived(ms)), record)
  }

  lemma AtLeastRecord(f: Format, ms: seq<Member>, record: nat)
    requires AllOk(ms) && record > 0
    ensures ArchiveSize(f, ms, record) >= record
  {
    var n := SizeOf(f, Archived(ms)) + Rounded(f == Binary, record);
    assert n / record >= 1;
    AtLeastOne(n / record, record);
  }

  /** An archive of at least CHARS bytes, written in records of any size and read with any record size in whatever
      pieces, gives back the files in order, up to one that has the name of the trailer.  On a shorter archive
      the reader would ask for another reel. */
  method RoundTrip(f: Format, le: bool, ms: seq<Member>, record: nat, bufsize: nat)
    returns (archive: seq<byte>, got: Option<seq<Member>>)
    requires f != Unknown && ms != [] && AllOk(ms) && record > 0 && bufsize > 0
    ensures |archive| == ArchiveSize(f, ms, record)
    ensures got.Some? <==> ArchiveSize(f, ms, record) >= CHARS
    ensures got.Some? ==> got.value == UpToTrailer(ms)
    ensures (forall i :: 0 <= i < |ms| ==> ms[i].name != TRAILER) && got.Some? ==> got.value == ms
    ensures f == Ascii || record >= CHARS ==> got.Some?
  {
    var w := new Writer(record);
    ghost var xs, ys := CopyOut(w, f, le, ms);
    archive := w.out;
    ghost var all := Archived(ms);
    LongEnough(f, le, ms, xs, ys, record, |archive|);
    TrailerReached(ms);
    if |archive| < CHARS {
      return archive, None;
    }
    var r := new Reader(le, bufsize, archive);
    ghost var n := |Stream(f, le, all, xs, ys)|;
    FrontAndRest(Stream(f, le, all, xs, ys), archive);
    var back := CopyIn(r, f, all, xs, ys, archive[n..]);
    got := Some(back);
  }

  lemma FrontAndRest(a: seq<byte>, b: seq<byte>)
    requires a <= b
    ensures b == a + b[|a|..]
  {
  }

  lemma LongEnough(f: Format, le: bool, ms: seq<Member>, xs: seq<byte>, ys: seq<byte>, record: nat, len: nat)
    requires f != Unknown && ms != [] && AllOk(ms) && |xs| == |ys| == |ms| + 1 && record > 0
    requires |Stream(f, le, Archived(ms), xs, ys)| <= len
    requires len == Flushed(f, |Stream(f, le, Archived(ms), xs, ys)|, record)
    ensures len == ArchiveSize(f, ms, record) && (f == Ascii || record >= CHARS ==> len >= CHARS)
  {
    ArchiveLength(f, le, ms, xs, ys);
    StreamSize(f, le, Archived(ms), xs, ys);
    AtLeastRecord(f, ms, record);
  }

  lemma ArchiveLength(f: Format, le: bool, ms: seq<Member>, xs: seq<byte>, ys: seq<byte>)
    requires f != Unknown && ms != [] && AllOk(ms) && |xs| == |ys| == |ms| + 1
    ensures |Stream(f, le, Archived(ms), xs, ys)| >= Least(f)
  {
    HeadLength(f, le, Archived(ms)[0], xs[0], ys[0]);
  }

  /** The trailer of a non-empty archive passes the checks, and the members end there. */
  lemma TrailerReached(ms: seq<Member>)
    requires ms != [] && AllOk(ms)
    ensures AllOk(Archived(ms)) && UpToTrailer(Archived(ms)) == UpToTrailer(ms) && |UpToTrailer(ms)| <= |ms|
    ensures (forall i :: 0 <= i < |ms| ==> ms[i].name != TRAILER) ==> UpToTrailer(ms) == ms
  {
    var t := TrailerOf(LastHeader(ms));
    assert MemberOk(ms[|ms| - 1]);
    assert MemberOk(t);
    UpToTrailerAppend(ms, t);
    if forall i :: 0 <= i < |ms| ==> ms[i].name != TRAILER { UpToTrailerAll(ms); }
  }

  lemma BadHeader(f: Format, le: bool, m: Member, x: byte, more: seq<byte>)
    requires f != Unknown && HeaderFits(m.h) && !HeaderGood(m.h) && |Head(f, le, m, x) + more| >= CHARS
    ensures FixedAt(Unknown, le, Head(f, le, m, x) + more) == None
  {
    var fix, name := FixedPart(f, le, m.h), m.name + [0] + Padding(f, |m.name| + 1, x);
    Assoc(fix, name, more);
    FixedBack(Unknown, f, le, m.h, name + more);
  }

  /** The archive of no files cannot be read back: its trailer has no links and is taken for garbage. */
  lemma EmptyArchive(f: Format, le: bool, x: byte, tail: seq<byte>)
    requires f != Unknown && |Stream(f, le, Archived([]), [x], [0]) + tail| >= CHARS
    ensures FixedAt(Unknown, le, Stream(f, le, Archived([]), [x], [0]) + tail) == None
  {
    var m := TrailerOf(NOHEADER);
    assert Archived([]) == [m] && [m][1..] == [];
    assert Stream(f, le, [m][1..], [x][1..], [0][1..]) == [];
    TrailerStored(f, le, m, x);
    assert Stream(f, le, Archived([]), [x], [0]) == Head(f, le, m, x);
    BadHeader(f, le, m, x, tail);
  }

  /** A binary archive may be shorter than the first header is looked for: one empty file with a short
      name and the trailer take 66 bytes. */
  lemma ShortArchive(le: bool, m: Member, xs: seq<byte>, ys: seq<byte>)
    requires MemberOk(m) && |m.name| == 1 && m.data == [] && |xs| == |ys| == 2
    ensures |Stream(Binary, le, Archived([m]), xs, ys)| == 66 < Least(Unknown)
  {
    var all := Archived([m]);
    assert all[1..][1..] == [];
    assert |Stream(Binary, le, all[1..], xs[1..], ys[1..])| == 38;
  }
}
