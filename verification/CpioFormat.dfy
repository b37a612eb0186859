/**
  The two header formats of cpio and the stream that an archive is.
*/
module CpioFormat {
  import opened Bytes
  import opened Numbers
  import opened Sequences

  datatype Option<T> = None | Some(value: T)

  const CHARS: nat := 76      // ASCII header without the name
  const HDRSIZE: nat := 26    // binary header without the name
  const PATHSIZE: nat := 256
  const CPIOBSZ: nat := 4096
  const MAGIC: nat := 29127   // 070707

  /** Cflag */
  datatype Format = Binary | Ascii | Unknown

  /** The fields of a header as they are stored: 16 bits each, mtime and filesize 32. */
  datatype Header = Header(
    dev: nat, ino: nat, mode: nat, uid: nat, gid: nat, nlink: nat, rdev: nat, mtime: nat, namesize: nat, filesize: nat)

  datatype Member = Member(h: Header, name: seq<byte>, data: seq<byte>)

  const W16: nat := 0x1_0000
  const W32: nat := 0x1_0000_0000

  predicate HeaderFits(h: Header) {
    && h.dev < W16 && h.ino < W16 && h.mode < W16 && h.uid < W16 && h.gid < W16 && h.nlink < W16 && h.rdev < W16
    && h.mtime < W32 && h.namesize < W16 && h.filesize < W32
  }

  // ---------------------------------------------------------------------
  // Shorts and longs in memory
  // ---------------------------------------------------------------------

  /** A short as it lies in memory, on a little- or big-endian machine. */
  function ShortBytes(le: bool, v: nat): seq<byte>
    requires v < W16
  {
    if le then [v % 256, v / 256] else [v / 256, v % 256]
  }

  function ShortAt(le: bool, bs: seq<byte>, i: nat): (v: nat)
    requires i + 2 <= |bs|
    ensures v < W16
  {
    var a: int, b: int := bs[i], bs[i + 1];
    if le then a + 256 * b else 256 * a + b
  }

  function LongBytes(le: bool, v: nat): (bs: seq<byte>)
    requires v < W32
    ensures |bs| == 4
  {
    if le then ShortBytes(le, v % W16) + ShortBytes(le, v / W16) else ShortBytes(le, v / W16) + ShortBytes(le, v % W16)
  }

  function LongAt(le: bool, bs: seq<byte>): (v: nat)
    requires |bs| == 4
    ensures v < W32
  {
    if le then ShortAt(le, bs, 0) + W16 * ShortAt(le, bs, 2) else W16 * ShortAt(le, bs, 0) + ShortAt(le, bs, 2)
  }

  /** MKSHORT: the two shorts of a long, through the union U. */
  function MkShort(le: bool, lv: nat): (v: (nat, nat))
    requires lv < W32
    ensures v.0 < W16 && v.1 < W16
  {
    var u := LongBytes(le, lv);
    if LongBytes(le, 1)[0] != 0 then (ShortAt(le, u, 2), ShortAt(le, u, 0)) else (ShortAt(le, u, 0), ShortAt(le, u, 2))
  }

  function MkLong(le: bool, v: (nat, nat)): (lv: nat)
    requires v.0 < W16 && v.1 < W16
    ensures lv < W32
  {
    if LongBytes(le, 1)[0] != 0 then LongAt(le, ShortBytes(le, v.1) + ShortBytes(le, v.0))
    else LongAt(le, ShortBytes(le, v.0) + ShortBytes(le, v.1))
  }

  lemma ShortBack(le: bool, v: nat, rest: seq<byte>)
    requires v < W16
    ensures ShortAt(le, ShortBytes(le, v) + rest, 0) == v
  {
  }

  lemma ShortsBack(le: bool, v: nat, w: nat)
    requires v < W16 && w < W16
    ensures var u := ShortBytes(le, v) + ShortBytes(le, w); ShortAt(le, u, 0) == v && ShortAt(le, u, 2) == w
  {
    var u := ShortBytes(le, v) + ShortBytes(le, w);
    ShortBack(le, v, ShortBytes(le, w));
    assert u[2] == ShortBytes(le, w)[0] && u[3] == ShortBytes(le, w)[1];
  }

  /** The high half comes first in the header, whatever the byte order of the machine. */
  lemma MkShortIsPortable(le: bool, lv: nat)
    requires lv < W32
    ensures MkShort(le, lv) == (lv / W16, lv % W16)
  {
    ShortsBack(le, if le then lv % W16 else lv / W16, if le then lv / W16 else lv % W16);
  }

  lemma MkLongBack(le: bool, lv: nat)
    requires lv < W32
    ensures MkLong(le, MkShort(le, lv)) == lv
  {
    MkShortIsPortable(le, lv);
    var v := MkShort(le, lv);
    ShortsBack(le, if le then v.1 else v.0, if le then v.0 else v.1);
  }

  // ---------------------------------------------------------------------
  // Binary headers
  // ---------------------------------------------------------------------

  function Shorts(le: bool, ss: seq<nat>): (bs: seq<byte>)
    requires forall i :: 0 <= i < |ss| ==> ss[i] < W16
    ensures |bs| == 2 * |ss|
  {
    if ss == [] then [] else ShortBytes(le, ss[0]) + Shorts(le, ss[1..])
  }

  lemma {:induction false} ShortsAt(le: bool, ss: seq<nat>, rest: seq<byte>, i: nat)
    requires (forall j :: 0 <= j < |ss| ==> ss[j] < W16) && i < |ss|
    ensures ShortAt(le, Shorts(le, ss) + rest, 2 * i) == ss[i]
  {
    var x := ShortBytes(le, ss[0]);
    var y := Shorts(le, ss[1..]) + rest;
    assert Shorts(le, ss) + rest == x + y;
    if i == 0 {
      ShortBack(le, ss[0], y);
    } else {
      ShortsAt(le, ss[1..], rest, i - 1);
      assert (x + y)[2 * i] == y[2 * (i - 1)] && (x + y)[2 * i + 1] == y[2 * (i - 1) + 1];
    }
  }

  /** struct header, without the name. */
  function HeaderShorts(le: bool, h: Header): (ss: seq<nat>)
    requires HeaderFits(h)
    ensures |ss| == 13 && forall i :: 0 <= i < 13 ==> ss[i] < W16
  {
    var m, f := MkShort(le, h.mtime), MkShort(le, h.filesize);
    [MAGIC, h.dev, h.ino, h.mode, h.uid, h.gid, h.nlink, h.rdev, m.0, m.1, h.namesize, f.0, f.1]
  }

  function BinaryHeader(le: bool, h: Header): (bs: seq<byte>)
    requires HeaderFits(h)
    ensures |bs| == HDRSIZE
  {
    Shorts(le, HeaderShorts(le, h))
  }

  function ShortsOf(le: bool, bs: seq<byte>): (ss: seq<nat>)
    requires |bs| >= HDRSIZE
    ensures |ss| == 13 && forall i :: 0 <= i < 13 ==> ss[i] == ShortAt(le, bs, 2 * i)
  {
    seq(13, i requires 0 <= i < 13 => ShortAt(le, bs, 2 * i))
  }

  function FromShorts(le: bool, ss: seq<nat>): (h: Header)
    requires |ss| == 13 && forall i :: 0 <= i < 13 ==> ss[i] < W16
    ensures HeaderFits(h)
  {
    Header(ss[1], ss[2], ss[3], ss[4], ss[5], ss[6], ss[7], MkLong(le, (ss[8], ss[9])), ss[10], MkLong(le, (ss[11], ss[12])))
  }

  lemma FromShortsBack(le: bool, h: Header)
    requires HeaderFits(h)
    ensures FromShorts(le, HeaderShorts(le, h)) == h
  {
    MkLongBack(le, h.mtime);
    MkLongBack(le, h.filesize);
  }

  lemma BinaryBack(le: bool, h: Header, rest: seq<byte>)
    requires HeaderFits(h)
    ensures ShortsOf(le, BinaryHeader(le, h) + rest) == HeaderShorts(le, h)
  {
    var ss := HeaderShorts(le, h);
    forall i: nat | i < 13 ensures ShortsOf(le, BinaryHeader(le, h) + rest)[i] == ss[i] { ShortsAt(le, ss, rest, i); }
  }

  // ---------------------------------------------------------------------
  // ASCII headers
  // ---------------------------------------------------------------------

  function Pow8(w: nat): (p: nat)
    ensures p > 0
  {
    if w == 0 then 1 else 8 * Pow8(w - 1)
  }

  /** %.wo */
  function Octal(v: nat, w: nat): (t: seq<byte>)
    ensures |t| == w
  {
    if w == 0 then [] else Octal(v / 8, w - 1) + [48 + v % 8]
  }

  predicate IsOctal(t: seq<byte>) {
    forall i :: 0 <= i < |t| ==> 48 <= t[i] <= 55
  }

  function OctalValue(t: seq<byte>): nat
    requires IsOctal(t)
  {
    if t == [] then 0 else 8 * OctalValue(t[..|t| - 1]) + (t[|t| - 1] - 48)
  }

  lemma {:induction false} OctalBack(v: nat, w: nat)
    requires v < Pow8(w)
    ensures IsOctal(Octal(v, w)) && OctalValue(Octal(v, w)) == v
  {
    if w > 0 {
      OctalBack(v / 8, w - 1);
      assert Octal(v, w)[..w - 1] == Octal(v / 8, w - 1);
    }
  }

  const WIDTHS: seq<nat> := [6, 6, 6, 6, 6, 6, 6, 6, 11, 6, 11]

  /** The values of `vs`, written with the widths `ws`. */
  function Fields(vs: seq<nat>, ws: seq<nat>): (t: seq<byte>)
    requires |vs| == |ws|
  {
    if vs == [] then [] else Octal(vs[0], ws[0]) + Fields(vs[1..], ws[1..])
  }

  function Sum(ws: seq<nat>): nat {
    if ws == [] then 0 else ws[0] + Sum(ws[1..])
  }

  /** sscanf; None if a field is not an octal number of its width. */
  function Scan(t: seq<byte>, ws: seq<nat>): (r: Option<seq<nat>>)
    ensures r.Some? ==> |r.value| == |ws|
    decreases |ws|, t
  {
    if ws == [] then Some([])
    else if |t| < ws[0] || !IsOctal(t[..ws[0]]) then None
    else match Scan(t[ws[0]..], ws[1..])
         case None => None
         case Some(vs) => Some([OctalValue(t[..ws[0]])] + vs)
  }

  lemma {:induction false} FieldsLength(vs: seq<nat>, ws: seq<nat>)
    requires |vs| == |ws|
    ensures |Fields(vs, ws)| == Sum(ws)
  {
    if vs != [] { FieldsLength(vs[1..], ws[1..]); }
  }

  lemma ScanStep(x: seq<byte>, y: seq<byte>, w: nat, ws: seq<nat>)
    requires |x| == w && IsOctal(x) && Scan(y, ws).Some?
    ensures Scan(x + y, [w] + ws) == Some([OctalValue(x)] + Scan(y, ws).value)
  {
    assert (x + y)[..w] == x && (x + y)[w..] == y && ([w] + ws)[1..] == ws;
  }

  lemma {:induction false} ScanBack(vs: seq<nat>, ws: seq<nat>, rest: seq<byte>)
    requires |vs| == |ws| && forall i :: 0 <= i < |vs| ==> vs[i] < Pow8(ws[i])
    ensures Scan(Fields(vs, ws) + rest, ws) == Some(vs)
    decreases |vs|
  {
    if vs != [] {
      var x, y := Octal(vs[0], ws[0]), Fields(vs[1..], ws[1..]);
      Assoc(x, y, rest);
      OctalBack(vs[0], ws[0]);
      ScanBack(vs[1..], ws[1..], rest);
      ScanStep(x, y + rest, ws[0], ws[1..]);
      assert [ws[0]] + ws[1..] == ws && [vs[0]] + vs[1..] == vs;
    }
  }

  function HeaderFields(h: Header): (vs: seq<nat>)
    ensures |vs| == 11
  {
    [MAGIC, h.dev, h.ino, h.mode, h.uid, h.gid, h.nlink, h.rdev, h.mtime, h.namesize, h.filesize]
  }

  /** bintochar, without the name. */
  function AsciiHeader(h: Header): (t: seq<byte>) {
    Fields(HeaderFields(h), WIDTHS)
  }

  /** The fields as they are kept, in 16 and 32 bits. */
  function FromFields(v: seq<nat>): (h: Header)
    requires |v| == 11
    ensures HeaderFits(h)
  {
    Header(v[1] % W16, v[2] % W16, v[3] % W16, v[4] % W16, v[5] % W16, v[6] % W16, v[7] % W16,
           v[8] % W32, v[9] % W16, v[10] % W32)
  }

  /** chartobin */
  function AsciiFields(t: seq<byte>): (r: Option<Header>) {
    match Scan(t, WIDTHS) case None => None case Some(v) => Some(FromFields(v))
  }

  lemma FromFieldsBack(h: Header)
    requires HeaderFits(h)
    ensures FromFields(HeaderFields(h)) == h
  {
  }

  lemma SumFrom(ws: seq<nat>, i: nat)
    requires i < |ws|
    ensures Sum(ws[i..]) == ws[i] + Sum(ws[i + 1..])
  {
    assert ws[i..][1..] == ws[i + 1..];
  }

  lemma Widths()
    ensures Sum(WIDTHS) == CHARS && Pow8(6) == 0x4_0000 && Pow8(11) == 0x2_0000_0000
  {
    assert Pow8(5) == 0x8000;
    assert Pow8(8) == 512 * Pow8(5);
    forall i: nat | i < 11 ensures Sum(WIDTHS[i..]) == WIDTHS[i] + Sum(WIDTHS[i + 1..]) { SumFrom(WIDTHS, i); }
    assert Sum(WIDTHS[11..]) == 0;
    assert Sum(WIDTHS[8..]) == 28 && Sum(WIDTHS[4..]) == 52;
    assert WIDTHS[0..] == WIDTHS;
  }

  const ASCIIMAGIC: seq<byte> := [48, 55, 48, 55, 48, 55]

  lemma AsciiLength(h: Header)
    ensures |AsciiHeader(h)| == CHARS
  {
    FieldsLength(HeaderFields(h), WIDTHS);
    Widths();
  }

  lemma AsciiScanned(h: Header, rest: seq<byte>)
    requires HeaderFits(h)
    ensures AsciiFields(AsciiHeader(h) + rest) == Some(h)
  {
    FieldsFit(h);
    FromFieldsBack(h);
    ScanBack(HeaderFields(h), WIDTHS, rest);
  }

  lemma AsciiMagic(h: Header)
    ensures |AsciiHeader(h)| >= 6 && AsciiHeader(h)[..6] == ASCIIMAGIC
  {
    MagicText();
    var vs := HeaderFields(h);
    assert AsciiHeader(h) == Octal(vs[0], WIDTHS[0]) + Fields(vs[1..], WIDTHS[1..]);
  }

  lemma FieldsFit(h: Header)
    requires HeaderFits(h)
    ensures forall i :: 0 <= i < 11 ==> HeaderFields(h)[i] < Pow8(WIDTHS[i])
  {
    Widths();
  }

  lemma MagicText()
    ensures Octal(MAGIC, 6) == ASCIIMAGIC
  {
    assert Octal(7, 2) == [48, 55] by { assert Octal(0, 1) == [48]; }
    assert Octal(MAGIC / 512, 3) == [48, 55, 48];
    assert Octal(MAGIC / 64, 4) == [48, 55, 48, 55];
  }

  // ---------------------------------------------------------------------
  // Where the fields are
  // ---------------------------------------------------------------------

  /** The octal digits of v, the first one for the highest power of eight. */
  ghost predicate DigitsOf(d: seq<byte>, v: nat) {
    forall i :: 0 <= i < |d| ==> d[i] == 48 + v / Pow8(|d| - 1 - i) % 8
  }

  /** v in w octal digits. */
  ghost predicate OctalAt(t: seq<byte>, at: nat, w: nat, v: nat) {
    at + w <= |t| && DigitsOf(t[at..at + w], v)
  }

  lemma {:induction false} OctalDigit(v: nat, w: nat, i: nat)
    requires i < w
    ensures Octal(v, w)[i] == 48 + v / Pow8(w - 1 - i) % 8
  {
    if i < w - 1 {
      OctalDigit(v / 8, w - 1, i);
      var p := Pow8(w - 2 - i);
      DivDiv(v, p);
    }
  }

  lemma DivDiv(v: nat, p: nat)
    requires p > 0
    ensures v / 8 / p == v / (8 * p)
  {
    var q, r := v / 8 / p, v / 8 % p;
    assert v / 8 == q * p + r && 0 <= r < p;
    assert q * (8 * p) == 8 * (q * p);
    DivMod(v, 8 * p, q);
  }

  /** The width of the first i fields. */
  function Before(ws: seq<nat>, i: nat): nat
    requires i <= |ws|
  {
    if i == 0 then 0 else Before(ws, i - 1) + ws[i - 1]
  }

  lemma {:induction false} BeforeTail(ws: seq<nat>, i: nat)
    requires 0 < i <= |ws|
    ensures Before(ws, i) == ws[0] + Before(ws[1..], i - 1)
  {
    if i > 1 { BeforeTail(ws, i - 1); }
  }

  lemma {:induction false} FieldAt(vs: seq<nat>, ws: seq<nat>, i: nat)
    requires |vs| == |ws| && i < |vs|
    ensures Before(ws, i) + ws[i] <= |Fields(vs, ws)|
    ensures OctalAt(Fields(vs, ws), Before(ws, i), ws[i], vs[i])
    decreases |vs|
  {
    var x, y := Octal(vs[0], ws[0]), Fields(vs[1..], ws[1..]);
    if i == 0 {
      forall k: nat | k < ws[0] ensures x[k] == 48 + vs[0] / Pow8(ws[0] - 1 - k) % 8 { OctalDigit(vs[0], ws[0], k); }
      assert (x + y)[0..ws[0]] == x;
    } else {
      FieldAt(vs[1..], ws[1..], i - 1);
      BeforeTail(ws, i);
      var at := Before(ws[1..], i - 1);
      assert (x + y)[ws[0] + at..ws[0] + at + ws[i]] == y[at..at + ws[i]];
    }
  }

  lemma Places()
    ensures forall i :: 0 <= i <= 8 ==> Before(WIDTHS, i) == 6 * i
    ensures Before(WIDTHS, 9) == 59 && Before(WIDTHS, 10) == 65
  {
    assert Before(WIDTHS, 4) == 24;
    assert Before(WIDTHS, 8) == 48;
  }

  /** The ASCII header is 76 digits: the magic number, device, inode, mode, owner, group, links and special device in six
      each, the time in eleven, the size of the name in six and that of the file in eleven. */
  lemma AsciiLayout(h: Header)
    requires HeaderFits(h)
    ensures var t := AsciiHeader(h);
            && |t| == 76 && OctalAt(t, 0, 6, 29127) && OctalAt(t, 6, 6, h.dev) && OctalAt(t, 12, 6, h.ino) && OctalAt(t, 18, 6, h.mode)
            && OctalAt(t, 24, 6, h.uid) && OctalAt(t, 30, 6, h.gid) && OctalAt(t, 36, 6, h.nlink) && OctalAt(t, 42, 6, h.rdev)
            && OctalAt(t, 48, 11, h.mtime) && OctalAt(t, 59, 6, h.namesize) && OctalAt(t, 65, 11, h.filesize)
  {
    AsciiLength(h);
    Places();
    var vs := HeaderFields(h);
    forall i: nat | i < 11 ensures OctalAt(AsciiHeader(h), Before(WIDTHS, i), WIDTHS[i], vs[i]) { FieldAt(vs, WIDTHS, i); }
    assert OctalAt(AsciiHeader(h), Before(WIDTHS, 0), WIDTHS[0], vs[0]) && OctalAt(AsciiHeader(h), Before(WIDTHS, 1), WIDTHS[1], vs[1]);
    assert OctalAt(AsciiHeader(h), Before(WIDTHS, 2), WIDTHS[2], vs[2]) && OctalAt(AsciiHeader(h), Before(WIDTHS, 3), WIDTHS[3], vs[3]);
    assert OctalAt(AsciiHeader(h), Before(WIDTHS, 4), WIDTHS[4], vs[4]) && OctalAt(AsciiHeader(h), Before(WIDTHS, 5), WIDTHS[5], vs[5]);
    assert OctalAt(AsciiHeader(h), Before(WIDTHS, 6), WIDTHS[6], vs[6]) && OctalAt(AsciiHeader(h), Before(WIDTHS, 7), WIDTHS[7], vs[7]);
    assert OctalAt(AsciiHeader(h), Before(WIDTHS, 8), WIDTHS[8], vs[8]) && OctalAt(AsciiHeader(h), Before(WIDTHS, 9), WIDTHS[9], vs[9]);
    assert OctalAt(AsciiHeader(h), Before(WIDTHS, 10), WIDTHS[10], vs[10]);
  }

  /** The short v as it lies at `at`, its low byte first on a little-endian machine. */
  ghost predicate ShortIn(le: bool, t: seq<byte>, at: nat, v: nat) {
    at + 2 <= |t| && if le then t[at] == v % 256 && t[at + 1] == v / 256 else t[at] == v / 256 && t[at + 1] == v % 256
  }

  lemma {:induction false} ShortPlace(le: bool, ss: seq<nat>, i: nat)
    requires (forall j :: 0 <= j < |ss| ==> ss[j] < W16) && i < |ss|
    ensures ShortIn(le, Shorts(le, ss), 2 * i, ss[i])
  {
    var x, y := ShortBytes(le, ss[0]), Shorts(le, ss[1..]);
    if i > 0 {
      ShortPlace(le, ss[1..], i - 1);
      assert (x + y)[2 * i] == y[2 * (i - 1)] && (x + y)[2 * i + 1] == y[2 * (i - 1) + 1];
    }
  }

  /** The binary header is 13 shorts: the same fields, the time and the size of the file with their high halves first. */
  lemma BinaryLayout(le: bool, h: Header)
    requires HeaderFits(h)
    ensures var t := BinaryHeader(le, h);
            && |t| == 26 && ShortIn(le, t, 0, 29127) && ShortIn(le, t, 2, h.dev) && ShortIn(le, t, 4, h.ino) && ShortIn(le, t, 6, h.mode)
            && ShortIn(le, t, 8, h.uid) && ShortIn(le, t, 10, h.gid) && ShortIn(le, t, 12, h.nlink) && ShortIn(le, t, 14, h.rdev)
            && ShortIn(le, t, 16, h.mtime / 0x1_0000) && ShortIn(le, t, 18, h.mtime % 0x1_0000) && ShortIn(le, t, 20, h.namesize)
            && ShortIn(le, t, 22, h.filesize / 0x1_0000) && ShortIn(le, t, 24, h.filesize % 0x1_0000)
  {
    var ss := HeaderShorts(le, h);
    MkShortIsPortable(le, h.mtime);
    MkShortIsPortable(le, h.filesize);
    ShortPlace(le, ss, 0);
    ShortPlace(le, ss, 1);
    ShortPlace(le, ss, 2);
    ShortPlace(le, ss, 3);
    ShortPlace(le, ss, 4);
    ShortPlace(le, ss, 5);
    ShortPlace(le, ss, 6);
    ShortPlace(le, ss, 7);
    ShortPlace(le, ss, 8);
    ShortPlace(le, ss, 9);
    ShortPlace(le, ss, 10);
    ShortPlace(le, ss, 11);
    ShortPlace(le, ss, 12);
  }

  // ---------------------------------------------------------------------
  // Members and archives
  // ---------------------------------------------------------------------

  /** A name as a C string. */
  function CString(bs: seq<byte>): seq<byte> {
    if bs == [] || bs[0] == 0 then [] else [bs[0]] + CString(bs[1..])
  }

  lemma {:induction false} CStringBack(name: seq<byte>, rest: seq<byte>)
    requires 0 !in name
    ensures CString(name + [0] + rest) == name
  {
    var bs := name + [0] + rest;
    if name != [] {
      assert bs[1..] == name[1..] + [0] + rest;
      CStringBack(name[1..], rest);
    }
  }

  /** What fits in an archive and passes the checks of the reader. */
  predicate MemberOk(m: Member) {
    && HeaderFits(m.h) && 0 !in m.name && m.h.namesize == |m.name| + 1 && m.h.filesize == |m.data|
    && HeaderGood(m.h)
  }

  /** hdck, on the signed short and long of the machine. */
  predicate HeaderGood(h: Header) {
    1 <= h.nlink < 0x8000 && h.filesize < 0x8000_0000 && 0 < h.namesize < PATHSIZE
  }

  /** Members are files of up to 2 gigabytes, with 1 to 32767 links and a name of at most 254 bytes. */
  lemma MembersAre(m: Member)
    ensures MemberOk(m) <==>
              && 1 <= m.h.nlink <= 32767 && m.h.filesize == |m.data| <= 0x7FFF_FFFF
              && m.h.namesize == |m.name| + 1 <= 255 && (forall i :: 0 <= i < |m.name| ==> m.name[i] != 0)
              && m.h.dev < 0x1_0000 && m.h.ino < 0x1_0000 && m.h.mode < 0x1_0000 && m.h.uid < 0x1_0000 && m.h.gid < 0x1_0000
              && m.h.rdev < 0x1_0000 && m.h.mtime < 0x1_0000_0000
  {
  }

  function FixedSize(f: Format): nat {
    if f == Binary then HDRSIZE else CHARS
  }

  function FixedPart(f: Format, le: bool, h: Header): (bs: seq<byte>)
    requires HeaderFits(h)
    ensures |bs| == FixedSize(f)
  {
    AsciiLength(h);
    if f == Binary then BinaryHeader(le, h) else AsciiHeader(h)
  }

  /** The byte that makes n even. */
  function Padding(f: Format, n: nat, x: byte): seq<byte> {
    if f == Binary && n % 2 == 1 then [x] else []
  }

  function Head(f: Format, le: bool, m: Member, x: byte): seq<byte>
    requires HeaderFits(m.h)
  {
    FixedPart(f, le, m.h) + (m.name + [0] + Padding(f, |m.name| + 1, x))
  }

  /** A member in the stream; the bytes x and y fill up the header and the data. */
  function Stored(f: Format, le: bool, m: Member, x: byte, y: byte): seq<byte>
    requires HeaderFits(m.h)
  {
    Head(f, le, m, x) + (m.data + Padding(f, |m.data|, y))
  }

  /** Behind the fixed part come the name with its NUL and the contents, each in the binary form with a byte more when
      its size is odd. */
  lemma MemberLayout(f: Format, le: bool, m: Member, x: byte, y: byte, t: seq<byte>, n: nat, d: nat)
    requires HeaderFits(m.h) && f != Unknown && t == Stored(f, le, m, x, y) && n == (if f == Binary then 26 else 76)
    requires d == n + |m.name| + 1 + if f == Binary && |m.name| % 2 == 0 then 1 else 0
    ensures |t| == d + |m.data| + if f == Binary && |m.data| % 2 == 1 then 1 else 0
    ensures t[..n] == FixedPart(f, le, m.h)
    ensures t[n..n + |m.name|] == m.name && t[n + |m.name|] == 0 && t[d..d + |m.data|] == m.data
  {
    var fix, p, q := FixedPart(f, le, m.h), Padding(f, |m.name| + 1, x), Padding(f, |m.data|, y);
    assert |fix| == n && |p| == if f == Binary && |m.name| % 2 == 0 then 1 else 0;
    FourParts(fix, m.name, p, m.data, q, t, n, d);
  }

  lemma FourParts(fix: seq<byte>, name: seq<byte>, p: seq<byte>, data: seq<byte>, q: seq<byte>, t: seq<byte>, n: nat, d: nat)
    requires t == fix + (name + [0] + p) + (data + q) && n == |fix| && d == n + |name| + 1 + |p|
    ensures |t| == d + |data| + |q| && t[..n] == fix
    ensures t[n..n + |name|] == name && t[n + |name|] == 0 && t[d..d + |data|] == data
  {
    assert t == fix + (name + ([0] + (p + (data + q))));
    assert t[d..] == data + q;
    assert t[d..][..|data|] == data;
  }

  ghost predicate AllFit(ms: seq<Member>) {
    forall i :: 0 <= i < |ms| ==> HeaderFits(ms[i].h)
  }

  /** The stream of a list of members. */
  ghost function Stream(f: Format, le: bool, ms: seq<Member>, xs: seq<byte>, ys: seq<byte>): seq<byte>
    requires |ms| == |xs| == |ys| && AllFit(ms)
  {
    if ms == [] then [] else Stored(f, le, ms[0], xs[0], ys[0]) + Stream(f, le, ms[1..], xs[1..], ys[1..])
  }

  const TRAILER: seq<byte> := [84, 82, 65, 73, 76, 69, 82, 33, 33, 33]

  lemma TrailerText()
    ensures |TRAILER| == |"TRAILER!!!"| && forall i :: 0 <= i < |TRAILER| ==> TRAILER[i] == "TRAILER!!!"[i] as int
  {
  }

  /** The trailer keeps the other fields of the last header. */
  function TrailerOf(h: Header): (m: Member)
    requires HeaderFits(h)
    ensures HeaderFits(m.h)
  {
    Member(h.(filesize := 0, namesize := |TRAILER| + 1), TRAILER, [])
  }

  ghost predicate AllOk(ms: seq<Member>) {
    forall i :: 0 <= i < |ms| ==> MemberOk(ms[i])
  }

  /** The header buffer as it is before the first file. */
  const NOHEADER: Header := Header(0, 0, 0, 0, 0, 0, 0, 0, 0, 0)

  function LastHeader(ms: seq<Member>): Header {
    if ms == [] then NOHEADER else ms[|ms| - 1].h
  }

  /** Everything that is written for a list of files. */
  ghost function Archived(ms: seq<Member>): (all: seq<Member>)
    requires AllOk(ms)
    ensures AllFit(all) && |all| == |ms| + 1
  {
    ms + [TrailerOf(LastHeader(ms))]
  }

  /** The members in front of the first one with the name of the trailer. */
  function UpToTrailer(ms: seq<Member>): seq<Member> {
    if ms == [] || ms[0].name == TRAILER then [] else [ms[0]] + UpToTrailer(ms[1..])
  }

  lemma {:induction false} UpToTrailerAll(ms: seq<Member>)
    requires forall i :: 0 <= i < |ms| ==> ms[i].name != TRAILER
    ensures UpToTrailer(ms) == ms
  {
    if ms != [] { UpToTrailerAll(ms[1..]); }
  }

  lemma {:induction false} UpToTrailerAppend(ms: seq<Member>, t: Member)
    requires t.name == TRAILER
    ensures UpToTrailer(ms + [t]) == UpToTrailer(ms) && |UpToTrailer(ms)| <= |ms|
  {
    if ms != [] {
      assert (ms + [t])[1..] == ms[1..] + [t];
      UpToTrailerAppend(ms[1..], t);
    }
  }

  lemma {:induction false} StreamAppend(f: Format, le: bool, ms: seq<Member>, xs: seq<byte>, ys: seq<byte>, m: Member, x: byte, y: byte)
    requires |ms| == |xs| == |ys| && AllFit(ms) && HeaderFits(m.h)
    ensures Stream(f, le, ms + [m], xs + [x], ys + [y]) == Stream(f, le, ms, xs, ys) + Stored(f, le, m, x, y)
  {
    if ms == [] {
      assert Stream(f, le, [m][1..], [x][1..], [y][1..]) == [];
    } else {
      assert (ms + [m])[1..] == ms[1..] + [m] && (xs + [x])[1..] == xs[1..] + [x] && (ys + [y])[1..] == ys[1..] + [y];
      StreamAppend(f, le, ms[1..], xs[1..], ys[1..], m, x, y);
      Assoc(Stored(f, le, ms[0], xs[0], ys[0]), Stream(f, le, ms[1..], xs[1..], ys[1..]), Stored(f, le, m, x, y));
    }
  }

  // ---------------------------------------------------------------------
  // Reading a header off a stream
  // ---------------------------------------------------------------------

  datatype Found = Found(f: Format, h: Header)

  /** How many bytes are looked at before the format is known. */
  function Least(cflag: Format): nat {
    FixedSize(cflag)
  }

  /** The fixed part of a header: a magic number, and fields that pass the checks. */
  function FixedAt(cflag: Format, le: bool, bs: seq<byte>): (r: Option<Found>)
    requires |bs| >= Least(cflag)
    ensures r.Some? ==> HeaderGood(r.value.h) && r.value.f != Unknown && (cflag != Unknown ==> r.value.f == cflag)
  {
    var asc := if cflag != Binary && bs[..6] == ASCIIMAGIC then AsciiFields(bs) else None;
    var hit :=
      if cflag != Ascii && ShortAt(le, bs, 0) == MAGIC then Some(Found(Binary, FromShorts(le, ShortsOf(le, bs))))
      else if asc.Some? then Some(Found(Ascii, asc.value)) else None;
    if hit.Some? && HeaderGood(hit.value.h) then hit else None
  }

  /** How many bytes the header takes. */
  function HeadSize(f: Format, h: Header): nat {
    FixedSize(f) + h.namesize + (if f == Binary then h.namesize % 2 else 0)
  }

  /** Bytes that a stream must have for its header to be read. */
  function Needed(cflag: Format, le: bool, bs: seq<byte>): nat
    requires |bs| >= Least(cflag)
  {
    match FixedAt(cflag, le, bs) case None => Least(cflag) case Some(x) => HeadSize(x.f, x.h)
  }

  /** The name behind the fixed part of a header; it must end with a NUL. */
  function NameIn(x: Found, head: seq<byte>): Option<(Found, seq<byte>)>
    requires HeaderGood(x.h) && |head| == HeadSize(x.f, x.h)
  {
    var n := FixedSize(x.f);
    if head[n + x.h.namesize - 1] != 0 then None else Some((x, CString(head[n..n + x.h.namesize])))
  }

  /** The header at the front of a stream. */
  function HeadAt(cflag: Format, le: bool, bs: seq<byte>): (r: Option<(Found, seq<byte>)>)
    requires |bs| >= Least(cflag) && |bs| >= Needed(cflag, le, bs)
  {
    match FixedAt(cflag, le, bs) case None => None case Some(x) => NameIn(x, bs[..HeadSize(x.f, x.h)])
  }

  /** The fixed part of a header is found exactly when it passes the checks. */
  lemma FixedBack(cflag: Format, f: Format, le: bool, h: Header, rest: seq<byte>)
    requires HeaderFits(h) && f != Unknown && (cflag == f || cflag == Unknown)
    requires |FixedPart(f, le, h) + rest| >= Least(cflag)
    ensures FixedAt(cflag, le, FixedPart(f, le, h) + rest) == if HeaderGood(h) then Some(Found(f, h)) else None
  {
    var bs := FixedPart(f, le, h) + rest;
    if f == Binary {
      BinaryBack(le, h, rest);
      FromShortsBack(le, h);
      assert ShortsOf(le, bs)[0] == ShortAt(le, bs, 2 * 0);
    } else {
      AsciiMagic(h);
      AsciiScanned(h, rest);
      assert bs[..6] == ASCIIMAGIC;
      assert bs[0] == ASCIIMAGIC[0] && bs[1] == ASCIIMAGIC[1];
    }
  }

  /** Only the fixed part is looked at. */
  lemma {:induction false} ScanPrefix(t: seq<byte>, u: seq<byte>, ws: seq<nat>)
    requires |t| >= Sum(ws)
    ensures Scan(t + u, ws) == Scan(t, ws)
    decreases |ws|
  {
    if ws != [] {
      var w := ws[0];
      assert (t + u)[..w] == t[..w] && (t + u)[w..] == t[w..] + u;
      ScanPrefix(t[w..], u, ws[1..]);
    }
  }

  lemma AsciiPrefix(t: seq<byte>, u: seq<byte>)
    requires |t| >= CHARS
    ensures AsciiFields(t + u) == AsciiFields(t) && (t + u)[..6] == t[..6]
  {
    Widths();
    ScanPrefix(t, u, WIDTHS);
  }

  lemma BinaryPrefix(le: bool, t: seq<byte>, u: seq<byte>)
    requires |t| >= HDRSIZE
    ensures ShortsOf(le, t + u) == ShortsOf(le, t) && ShortAt(le, t + u, 0) == ShortAt(le, t, 0)
  {
  }

  lemma FixedPrefix(cflag: Format, le: bool, t: seq<byte>, u: seq<byte>)
    requires |t| >= Least(cflag)
    ensures FixedAt(cflag, le, t + u) == FixedAt(cflag, le, t)
  {
    BinaryPrefix(le, t, u);
    if cflag != Binary { AsciiPrefix(t, u); }
  }

  lemma NameBack(f: Format, h: Header, fix: seq<byte>, name: seq<byte>, pad: seq<byte>)
    requires HeaderGood(h) && |fix| == FixedSize(f) && h.namesize == |name| + 1 && 0 !in name
    requires |fix| + |name| + 1 + |pad| == HeadSize(f, h)
    ensures NameIn(Found(f, h), fix + (name + [0] + pad)) == Some((Found(f, h), name))
  {
    var head := fix + (name + [0] + pad);
    CStringBack(name, []);
    assert head[|fix|..|fix| + h.namesize] == name + [0] + [];
  }

  /** What has been written as a header is read as that header. */
  lemma HeadBack(cflag: Format, f: Format, le: bool, m: Member, x: byte, rest: seq<byte>)
    requires MemberOk(m) && f != Unknown && (cflag == f || cflag == Unknown)
    requires |Head(f, le, m, x) + rest| >= Least(cflag)
    ensures var bs := Head(f, le, m, x) + rest;
            && Needed(cflag, le, bs) == |Head(f, le, m, x)| <= |bs|
            && HeadAt(cflag, le, bs) == Some((Found(f, m.h), m.name))
  {
    var head := Head(f, le, m, x);
    var pad := Padding(f, |m.name| + 1, x);
    var fix := FixedPart(f, le, m.h);
    Assoc(fix, m.name + [0] + pad, rest);
    FixedBack(cflag, f, le, m.h, m.name + [0] + pad + rest);
    NameBack(f, m.h, fix, m.name, pad);
    assert (head + rest)[..|head|] == head;
  }
}
