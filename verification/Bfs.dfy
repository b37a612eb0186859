/**
  bfs: the index of a big file, and reading single lines with its help.
*/
module Bfs {
  import opened Bytes

  const NEWLINE: byte := 10
  const BLOCK: nat := 512
  const MAXLINES: nat := 32767
  const BFSLIM: nat := 511

  /** What lincnt is made of. */
  type short = x: int | -0x8000 <= x < 0x8000

  /** A count stored in a short. */
  function Stored(n: int): short {
    (n + 0x8000) % 0x1_0000 - 0x8000
  }

  // ---------------------------------------------------------------------
  // Files of lines
  // ---------------------------------------------------------------------

  /** The text of the first n lines. */
  function Text(lines: seq<seq<byte>>, n: nat): (t: seq<byte>)
    requires n <= |lines|
  {
    if n == 0 then [] else Text(lines, n - 1) + (lines[n - 1] + [NEWLINE])
  }

  /** Where line k begins; lines are counted from 1. */
  function Start(lines: seq<seq<byte>>, k: nat): nat
    requires k <= |lines| + 1
  {
    if k <= 1 then 0 else Start(lines, k - 1) + |lines[k - 2]| + 1
  }

  function Length(lines: seq<seq<byte>>, k: nat): nat
    requires 1 <= k <= |lines|
  {
    |lines[k - 1]| + 1
  }

  lemma {:induction false} TextLength(lines: seq<seq<byte>>, n: nat)
    requires n <= |lines|
    ensures |Text(lines, n)| == Start(lines, n + 1)
  {
    if n > 0 { TextLength(lines, n - 1); }
  }

  lemma {:induction false} StartsGrow(lines: seq<seq<byte>>, j: nat, k: nat)
    requires 1 <= j <= k <= |lines| + 1
    ensures Start(lines, j) + (k - j) <= Start(lines, k)
  {
    if j < k { StartsGrow(lines, j, k - 1); }
  }

  /** Line k stands in the file where it begins. */
  lemma {:induction false} LineAt(lines: seq<seq<byte>>, n: nat, k: nat, x: nat)
    requires 1 <= k <= n <= |lines| && x <= |lines[k - 1]|
    ensures Start(lines, k) + x < |Text(lines, n)|
    ensures Text(lines, n)[Start(lines, k) + x] == if x < |lines[k - 1]| then lines[k - 1][x] else NEWLINE
    decreases n
  {
    TextLength(lines, n);
    TextLength(lines, n - 1);
    if k < n {
      StartsGrow(lines, k + 1, n);
      LineAt(lines, n - 1, k, x);
    } else {
      var t := lines[n - 1] + [NEWLINE];
      assert Text(lines, n)[|Text(lines, n - 1)| + x] == t[x];
    }
  }

  /** A file in which every line ends with a newline. */
  ghost predicate LinesOk(lines: seq<seq<byte>>, file: seq<byte>) {
    && file == Text(lines, |lines|)
    && forall k, x :: 0 <= k < |lines| && 0 <= x < |lines[k]| ==> lines[k][x] != NEWLINE
  }

  // ---------------------------------------------------------------------
  // The index
  // ---------------------------------------------------------------------

  /** The lengths of the first l lines, as shorts hold them. */
  ghost predicate Indexed(lines: seq<seq<byte>>, lincnt: seq<short>, l: nat) {
    && l <= |lines| && l <= MAXLINES && |lincnt| == MAXLINES + 1
    && (forall k :: 1 <= k <= l ==> lincnt[k] == Stored(Length(lines, k)))
  }

  /** The places of the first s of every 64 lines are right. */
  ghost predicate Segmented(lines: seq<seq<byte>>, segblk: seq<int>, segoff: seq<int>, s: nat) {
    && |segblk| == |segoff| == BLOCK && s <= BLOCK
    && (forall i :: 0 <= i < s ==>
          64 * i + 1 <= |lines| + 1 && 512 * segblk[i] + segoff[i] == Start(lines, 64 * i + 1) && 0 <= segblk[i] && 0 <= segoff[i] < 512)
  }

  // ---------------------------------------------------------------------
  // Where reading lines leads to
  // ---------------------------------------------------------------------

  /** The stored lengths of lines j to k - 1, added up. */
  function Steps(lines: seq<seq<byte>>, j: nat, k: nat): int
    requires 1 <= j <= k <= |lines| + 1
    decreases k - j
  {
    if j == k then 0 else Steps(lines, j, k - 1) + Stored(Length(lines, k - 1))
  }

  /** The first line of the segment of line l. */
  function Segment(l: nat): nat
    requires l >= 1
  {
    64 * ((l - 1) / 64) + 1
  }

  /** The place at which line l is looked for when the line before was `from`, looked for at `at`. */
  function Landing(lines: seq<seq<byte>>, from: nat, at: int, l: nat): int
    requires 1 <= from && (from == 1 || from <= |lines|) && 1 <= l <= |lines|
  {
    if 0 <= l - from <= 32 then at + Steps(lines, from, l)
    else if -32 <= l - from < 0 then at - Steps(lines, l, from)
    else Start(lines, Segment(l)) + Steps(lines, Segment(l), l)
  }

  /** No line that has a line behind it is longer than a short can say. */
  ghost predicate ShortLines(lines: seq<seq<byte>>) {
    forall k: nat :: 1 <= k < |lines| ==> Length(lines, k) <= 0x7FFF
  }

  lemma {:induction false} StepsAreLengths(lines: seq<seq<byte>>, j: nat, k: nat)
    requires 1 <= j <= k <= |lines| && forall i: nat :: j <= i < k ==> Length(lines, i) <= 0x7FFF
    ensures Steps(lines, j, k) == Start(lines, k) - Start(lines, j)
    decreases k - j
  {
    if j < k { StepsAreLengths(lines, j, k - 1); }
  }

  /** Among short lines a right place leads to a right place. */
  lemma LandsRight(lines: seq<seq<byte>>, from: nat, l: nat)
    requires ShortLines(lines) && 1 <= from && (from == 1 || from <= |lines|) && 1 <= l <= |lines|
    ensures Landing(lines, from, Start(lines, from), l) == Start(lines, l)
  {
    if 0 <= l - from <= 32 {
      StepsAreLengths(lines, from, l);
    } else if -32 <= l - from < 0 {
      StepsAreLengths(lines, l, from);
    } else {
      StepsAreLengths(lines, Segment(l), l);
    }
  }

  ghost predicate AreLines(h: seq<nat>, n: nat) {
    forall i :: 0 <= i < |h| ==> 1 <= h[i] <= n
  }

  /** The line read by the n-th of these reads; line 1 before the first. */
  function Nth(h: seq<nat>, n: nat): nat
    requires n <= |h|
  {
    if n == 0 then 1 else h[n - 1]
  }

  /** Where bfs stands after the first n of these reads. */
  ghost function Place(lines: seq<seq<byte>>, h: seq<nat>, n: nat): int
    requires AreLines(h, |lines|) && n <= |h|
  {
    if n == 0 then 0 else Landing(lines, Nth(h, n - 1), Place(lines, h, n - 1), h[n - 1])
  }

  lemma {:induction false} PlacedRight(lines: seq<seq<byte>>, h: seq<nat>, n: nat)
    requires ShortLines(lines) && AreLines(h, |lines|) && n <= |h|
    ensures Place(lines, h, n) == Start(lines, Nth(h, n))
  {
    if n > 0 {
      PlacedRight(lines, h, n - 1);
      LandsRight(lines, Nth(h, n - 1), h[n - 1]);
    }
  }

  /** Reading a line that is too long and then the next one leads astray. */
  lemma Astray(lines: seq<seq<byte>>, k: nat)
    requires 1 <= k < |lines| && Length(lines, k) > 0x7FFF
    ensures var h := [k, k + 1];
            AreLines(h, |lines|) && Place(lines, h, 2) - Place(lines, h, 1) != Start(lines, k + 1) - Start(lines, k)
  {
    var h := [k, k + 1];
    assert Place(lines, h, 2) == Place(lines, h, 1) + Steps(lines, k, k + 1);
    assert Steps(lines, k, k) == 0;
  }

  /** The place is right after every number of these reads. */
  ghost predicate AlwaysRight(lines: seq<seq<byte>>, h: seq<nat>)
    requires AreLines(h, |lines|)
  {
    forall n: nat :: n <= |h| ==> Place(lines, h, n) == Start(lines, Nth(h, n))
  }

  /** After every history of reads bfs stands where the last line begins, if and only if all lines but the last fit. */
  lemma RightExactly(lines: seq<seq<byte>>)
    ensures ShortLines(lines) <==> forall h :: AreLines(h, |lines|) ==> AlwaysRight(lines, h)
  {
    if ShortLines(lines) {
      forall h | AreLines(h, |lines|) ensures AlwaysRight(lines, h) {
        forall n: nat | n <= |h| ensures Place(lines, h, n) == Start(lines, Nth(h, n)) { PlacedRight(lines, h, n); }
      }
    } else {
      var k: nat :| 1 <= k < |lines| && Length(lines, k) > 0x7FFF;
      var h := [k, k + 1];
      Astray(lines, k);
      assert Nth(h, 1) == k && Nth(h, 2) == k + 1;
      assert !AlwaysRight(lines, h);
    }
  }

  /** The first n records of these reads, if no line is too long to be counted. */
  ghost predicate Told(lines: seq<seq<byte>>, h: seq<nat>, recs: seq<seq<byte>>)
    requires AreLines(h, |lines|) && |recs| <= |h|
  {
    ShortLines(lines) ==> forall i :: 0 <= i < |recs| ==> recs[i] == Record(lines[h[i] - 1])
  }

  /** What is copied of line l when the next byte is the one at `at`. */
  ghost predicate Copied(lines: seq<seq<byte>>, l: nat, rec: seq<byte>, at: int) {
    1 <= l <= |lines| && at == Start(lines, l) + |rec| && |rec| <= |lines[l - 1]| && rec == lines[l - 1][..|rec|]
  }

  /** The next byte ends the line, or belongs to it. */
  ghost predicate CopyEnds(lines: seq<seq<byte>>, l: nat, rec: seq<byte>, c: byte) {
    1 <= l <= |lines| && if c == NEWLINE then rec == lines[l - 1] else rec + [c] <= lines[l - 1]
  }

  lemma CopyNext(lines: seq<seq<byte>>, file: seq<byte>, l: nat, rec: seq<byte>, at: int, c: byte)
    requires LinesOk(lines, file) && Copied(lines, l, rec, at)
    ensures 0 <= at < |file| && (c == file[at] ==> CopyEnds(lines, l, rec, c))
  {
    var line := lines[l - 1];
    LineAt(lines, |lines|, l, |rec|);
    assert |rec| == |line| ==> rec == line;
    assert |rec| < |line| ==> rec + [line[|rec|]] == line[..|rec| + 1];
  }

  /** What of a line fits in a record. */
  function Record(line: seq<byte>): seq<byte> {
    if |line| <= BFSLIM then line else line[..BFSLIM + 1]
  }

  lemma RecordIsLine(line: seq<byte>)
    ensures Record(line) == line <==> |line| <= BFSLIM + 1
  {
  }

  /** Reads that are told right give whole lines if and only if none of these lines is too long for a record. */
  lemma WholeExactly(lines: seq<seq<byte>>, h: seq<nat>, recs: seq<seq<byte>>)
    requires AreLines(h, |lines|) && |recs| <= |h| && ShortLines(lines) && Told(lines, h, recs)
    ensures (forall i :: 0 <= i < |recs| ==> recs[i] == lines[h[i] - 1])
            <==> forall i :: 0 <= i < |recs| ==> |lines[h[i] - 1]| <= BFSLIM + 1
  {
    forall i | 0 <= i < |recs| ensures recs[i] == lines[h[i] - 1] <==> |lines[h[i] - 1]| <= BFSLIM + 1 {
      RecordIsLine(lines[h[i] - 1]);
    }
  }

  lemma LongText(first: seq<byte>, lines: seq<seq<byte>>, file: seq<byte>)
    requires lines == [first, [120]] && file == (first + [NEWLINE]) + ([120] + [NEWLINE])
    requires forall i :: 0 <= i < |first| ==> first[i] == 97
    ensures LinesOk(lines, file) && Start(lines, 1) == 0 && Start(lines, 2) == |first| + 1 == Length(lines, 1)
    ensures Steps(lines, 1, 1) == 0 && Steps(lines, 1, 2) == Stored(|first| + 1)
    ensures forall i :: 0 <= i < |first| ==> file[i] == 97
  {
    assert Text(lines, 0) + (lines[0] + [NEWLINE]) == first + [NEWLINE];
    assert Text(lines, 1) == first + [NEWLINE];
    assert Text(lines, 2) == file;
  }

  class Browser {
    const file: seq<byte>
    ghost const lines: seq<seq<byte>>
    const lincnt: array<short>
    const segblk: array<int>
    const segoff: array<int>
    const savetxt: array<byte>
    var fpos: nat
    var dollar: nat
    var lprev: int
    var prevblk: int
    var prevoff: int
    var saveblk: int

    ghost predicate Shape() {
      && lincnt.Length == MAXLINES + 1 && segblk.Length == segoff.Length == savetxt.Length == BLOCK
      && segblk != segoff
    }

    /** The index is right. */
    ghost predicate Opened()
      reads this, lincnt, segblk, segoff
    {
      && Shape() && LinesOk(lines, file) && dollar == |lines|
      && Indexed(lines, lincnt[..], dollar)
      && Segmented(lines, segblk[..], segoff[..], (dollar + 63) / 64)
    }

    /** A line was read, or none; prevblk and prevoff are block and offset of some place. */
    ghost predicate Standing()
      reads this`lprev, this`prevoff
    {
      1 <= lprev && (lprev == 1 || lprev <= |lines|) && 0 <= prevoff < 512
    }

    function At(): int
      reads this`prevblk, this`prevoff
    {
      512 * prevblk + prevoff
    }

    /** savetxt holds block saveblk. */
    ghost predicate CacheRight()
      reads this`saveblk, this`fpos, savetxt
    {
      saveblk >= -1 && (saveblk >= 0 ==> Cached(file, savetxt[..], saveblk, fpos))
    }

    /** The bytes of a block that the file has, and the file position behind it. */
    static ghost predicate Cached(file: seq<byte>, txt: seq<byte>, blk: nat, pos: nat) {
      && |txt| == BLOCK && pos == (if 512 * blk + 512 <= |file| then 512 * blk + 512 else |file|) && 512 * blk <= |file|
      && forall x :: 0 <= x < 512 && 512 * blk + x < |file| ==> txt[x] == file[512 * blk + x]
    }

    constructor (file: seq<byte>, ghost lines: seq<seq<byte>>)
      ensures this.file == file && this.lines == lines && Shape() && fresh(lincnt) && fresh(segblk) && fresh(segoff) && fresh(savetxt)
      ensures fpos == 0 && lprev == 1 && prevblk == prevoff == 0 && saveblk == -1
    {
      this.file, this.lines := file, lines;
      lincnt, segblk, segoff, savetxt := new short[MAXLINES + 1], new int[BLOCK], new int[BLOCK], new byte[BLOCK];
      fpos, dollar, lprev, prevblk, prevoff, saveblk := 0, 0, 1, 0, 0, -1;
    }

    // -------------------------------------------------------------------
    // bigopen
    // -------------------------------------------------------------------

    /** Where bigopen stands at offset x of the file: l lines have begun, and cnt bytes of the last one are read. */
    static ghost predicate Scanned(lines: seq<seq<byte>>, x: nat, newline: bool, l: nat, cnt: int) {
      && l <= |lines| && (l == 0 ==> newline && x == 0 && cnt == 0)
      && (l > 0 ==> cnt == x - Start(lines, l) && 0 < cnt <= Length(lines, l) && (newline <==> cnt == Length(lines, l)))
    }

    /** The next byte of the file. */
    static lemma ScanNext(lines: seq<seq<byte>>, file: seq<byte>, x: nat, newline: bool, l: nat, cnt: int)
      requires LinesOk(lines, file) && Scanned(lines, x, newline, l, cnt) && x < |file|
      ensures newline ==> l < |lines| && Start(lines, l + 1) == x && (l > 0 ==> cnt == Length(lines, l))
      ensures var l', cnt' := if newline then l + 1 else l, if newline then 1 else cnt + 1;
              Scanned(lines, x + 1, file[x] == NEWLINE, l', cnt')
    {
      TextLength(lines, |lines|);
      assert newline && l > 0 ==> Start(lines, l + 1) == x;
      var l', cnt' := if newline then l + 1 else l, if newline then 1 else cnt + 1;
      LineAt(lines, |lines|, l', cnt' - 1);
    }

    /** The length of a line, stored where it belongs. */
    static lemma IndexOne(lines: seq<seq<byte>>, was: seq<short>, l: nat, cnt: int, index: seq<short>)
      requires Indexed(lines, was, if l == 0 then 0 else l - 1) && l < |was| && index == was[l := Stored(cnt)]
      requires l <= |lines| && (l > 0 ==> cnt == Length(lines, l))
      ensures Indexed(lines, index, l)
    {
    }

    /** A line begins at this byte: the length of the one before it is stored, and the place of each 64th line. */
    method Begins(blk: nat, off: nat, l0: nat, cnt: int, s0: nat) returns (l: nat, s: nat)
      requires Shape() && off < 512 && s0 == (l0 + 63) / 64 && l0 <= MAXLINES
      requires l0 < |lines| && Start(lines, l0 + 1) == 512 * blk + off && (l0 > 0 ==> cnt == Length(lines, l0))
      requires Indexed(lines, lincnt[..], if l0 == 0 then 0 else l0 - 1) && Segmented(lines, segblk[..], segoff[..], s0)
      modifies lincnt, segblk, segoff
      ensures l == l0 + 1 && s == (l + 63) / 64 && Indexed(lines, lincnt[..], l0) && Segmented(lines, segblk[..], segoff[..], s)
    {
      ghost var was := lincnt[..];
      l, s := l0 + 1, s0;
      lincnt[l0] := Stored(cnt);
      IndexOne(lines, was, l0, cnt, lincnt[..]);
      if l0 % 64 == 0 {
        segblk[s] := blk;
        segoff[s] := off;
        s := s + 1;
      }
    }

    /** One byte of bigopen. */
    method Byte(c: byte, blk: nat, off: nat, newline0: bool, l0: nat, cnt0: int, s0: nat) returns (ok: bool, newline: bool, l: nat, cnt: int, s: nat)
      requires Shape() && LinesOk(lines, file) && off < 512 && 512 * blk + off < |file| && c == file[512 * blk + off]
      requires Scanned(lines, 512 * blk + off, newline0, l0, cnt0) && s0 == (l0 + 63) / 64 && l0 <= MAXLINES
      requires Indexed(lines, lincnt[..], if l0 == 0 then 0 else l0 - 1) && Segmented(lines, segblk[..], segoff[..], s0)
      modifies lincnt, segblk, segoff
      ensures ok <==> l <= MAXLINES
      ensures Scanned(lines, 512 * blk + off + 1, newline, l, cnt) && l > 0
      ensures ok ==> s == (l + 63) / 64 && Indexed(lines, lincnt[..], l - 1) && Segmented(lines, segblk[..], segoff[..], s)
    {
      ScanNext(lines, file, 512 * blk + off, newline0, l0, cnt0);
      ok, newline, l, cnt, s := true, newline0, l0, cnt0, s0;
      if newline {
        newline := false;
        l, s := Begins(blk, off, l, cnt, s);
        cnt := 0;
        ok := l <= MAXLINES;
      }
      if c == NEWLINE {
        newline := true;
      }
      cnt := cnt + 1;
    }

    /** How much read returns. */
    static function Got(size: nat, pos: nat): (n: nat)
      ensures n <= 512 && (pos < size ==> pos + n <= size) && (size <= pos ==> n == 0)
    {
      if size <= pos then 0 else if size - pos < 512 then size - pos else 512
    }

    /** read(txtfd, buf, 512): the next bytes of the file; n of them. */
    method Read(buf: array<byte>) returns (n: nat)
      requires buf.Length == BLOCK
      modifies this`fpos, buf
      ensures n == Got(|file|, old(fpos)) && fpos == old(fpos) + n
      ensures forall x :: 0 <= x < n ==> buf[x] == file[old(fpos) + x]
    {
      n := Got(|file|, fpos);
      forall x | 0 <= x < n {
        buf[x] := file[fpos + x];
      }
      fpos := fpos + n;
    }

    /** The lines that bigopen has come to know, and the state of its variables, at offset x. */
    ghost predicate Scanning(x: nat, newline: bool, l: nat, cnt: int, s: nat)
      reads this, lincnt, segblk, segoff
    {
      && Shape() && LinesOk(lines, file) && Scanned(lines, x, newline, l, cnt) && l <= MAXLINES && s == (l + 63) / 64
      && Indexed(lines, lincnt[..], if l == 0 then 0 else l - 1) && Segmented(lines, segblk[..], segoff[..], s)
    }

    /** bigopen: the index of the file; it has at most MAXLINES lines. */
    method Bigopen() returns (ok: bool)
      requires Shape() && LinesOk(lines, file) && fpos == 0 && lprev == 1 && prevblk == prevoff == 0 && saveblk == -1
      modifies this`fpos, this`dollar, lincnt, segblk, segoff
      ensures ok <==> |lines| <= MAXLINES
      ensures ok ==> Opened() && Standing() && At() == 0 && CacheRight()
    {
      var blk: nat, newline, l: nat, cnt, s: nat := 0, true, 0, 0, 0;
      var block := new byte[BLOCK];
      var n := Read(block);
      ghost var x: nat := 0;
      while n > 0
        invariant x <= fpos <= |file| && block.Length == BLOCK && fresh(block)
        invariant if n > 0 then x == 512 * blk && fpos == x + n && n <= 512 && (n < 512 ==> fpos == |file|) else x == fpos == |file|
        invariant forall y :: 0 <= y < n ==> block[y] == file[512 * blk + y]
        invariant Scanning(x, newline, l, cnt, s)
        decreases |file| - x
      {
        ok, newline, l, cnt, s := Scan(block, blk, n, newline, l, cnt, s);
        if !ok {
          return;
        }
        x := x + n;
        blk := blk + 1;
        n := Read(block);
      }
      Complete(x, newline, l, cnt, s);
      lincnt[l] := Stored(cnt);
      dollar := l;
      ok := true;
    }

    /** At the end of the file all lines have begun and ended. */
    lemma Complete(x: nat, newline: bool, l: nat, cnt: int, s: nat)
      requires Scanning(x, newline, l, cnt, s) && x == |file|
      ensures l == |lines| && (l > 0 ==> cnt == Length(lines, l))
    {
      TextLength(lines, |lines|);
      if l < |lines| { StartsGrow(lines, l + 1, |lines| + 1); }
      assert l > 0 ==> Start(lines, l + 1) == Start(lines, l) + Length(lines, l);
    }

    /** One block of bigopen. */
    method Scan(block: array<byte>, blk: nat, n: nat, newline0: bool, l0: nat, cnt0: int, s0: nat)
      returns (ok: bool, newline: bool, l: nat, cnt: int, s: nat)
      requires block.Length == BLOCK && n <= 512 && 512 * blk + n <= |file| && forall x :: 0 <= x < n ==> block[x] == file[512 * blk + x]
      requires Scanning(512 * blk, newline0, l0, cnt0, s0)
      modifies lincnt, segblk, segoff
      ensures if ok then Scanning(512 * blk + n, newline, l, cnt, s) else |lines| > MAXLINES
    {
      ok, newline, l, cnt, s := true, newline0, l0, cnt0, s0;
      var off := 0;
      while off < n
        invariant 0 <= off <= n && ok && Scanning(512 * blk + off, newline, l, cnt, s)
      {
        ok, newline, l, cnt, s := Byte(block[off], blk, off, newline, l, cnt, s);
        if !ok {
          return;
        }
        off := off + 1;
      }
    }

    // -------------------------------------------------------------------
    // bigread
    // -------------------------------------------------------------------

    /** The four ways from line lprev to line l, and the place in blocks: shifts and masks round down. */
    method Seek(l: nat)
      requires Opened() && Standing() && 1 <= l <= |lines|
      modifies this`prevblk, this`prevoff, this`lprev
      ensures Standing() && lprev == l && At() == Landing(lines, old(lprev), old(At()), l)
    {
      var i := l - lprev;
      if i == 1 {
        assert lincnt[..][lprev] == Stored(Length(lines, lprev));
        assert Steps(lines, lprev, lprev) == 0;
        prevoff := prevoff + lincnt[lprev];
      } else if 0 <= i <= 32 {
        Forward(lprev, l);
      } else if -32 <= i < 0 {
        Backward(lprev, l);
      } else {
        i := (l - 1) / 64;
        assert 512 * segblk[..][i] + segoff[..][i] == Start(lines, 64 * i + 1);
        prevblk := segblk[i];
        prevoff := segoff[i];
        Forward(64 * i + 1, l);
      }
      prevblk := prevblk + prevoff / 512;
      prevoff := prevoff % 512;
      lprev := l;
    }

    method Forward(from: nat, l: nat)
      requires Opened() && 1 <= from <= l <= |lines|
      modifies this`prevoff
      ensures prevoff == old(prevoff) + Steps(lines, from, l)
    {
      var i := from;
      while i < l
        invariant from <= i <= l && prevoff == old(prevoff) + Steps(lines, from, i)
      {
        assert lincnt[..][i] == Stored(Length(lines, i));
        prevoff := prevoff + lincnt[i];
        i := i + 1;
      }
    }

    method Backward(from: nat, l: nat)
      requires Opened() && 1 <= l <= from <= |lines|
      modifies this`prevoff
      ensures prevoff == old(prevoff) - Steps(lines, l, from)
    {
      var i := from - 1;
      while i >= l
        invariant l - 1 <= i < from && prevoff == old(prevoff) - (Steps(lines, l, from) - Steps(lines, l, i + 1))
      {
        assert lincnt[..][i] == Stored(Length(lines, i));
        prevoff := prevoff - lincnt[i];
        i := i - 1;
      }
    }

    /** lseek to a block and read it. A negative place is refused, and what comes next in the file is read. */
    method Load(blk: int)
      requires savetxt.Length == BLOCK
      modifies this`fpos, this`saveblk, savetxt
      ensures saveblk == blk && (0 <= 512 * blk <= |file| ==> Cached(file, savetxt[..], blk, fpos))
      ensures blk < 0 ==> forall x :: 0 <= x < 512 && old(fpos) + x < |file| ==> savetxt[x] == file[old(fpos) + x]
    {
      saveblk := blk;
      if blk >= 0 {
        fpos := 512 * blk;
      }
      var n := Read(savetxt);
    }

    /** bigread: line l, whichever was read before; a line that is too long is cut off. It is the right line if the place
        and what the cache holds are right; before the beginning of the file there are other bytes of the file. */
    method Bigread(l: nat) returns (rec: seq<byte>)
      requires Opened() && Standing() && 1 <= l <= |lines| && savetxt.Length == BLOCK
      modifies this`prevblk, this`prevoff, this`lprev, this`fpos, this`saveblk, savetxt
      ensures Opened() && Standing() && lprev == l && At() == Landing(lines, old(lprev), old(At()), l)
      ensures At() == Start(lines, l) && old(CacheRight()) ==>
                && CacheRight() && 0 <= 512 * saveblk <= Start(lines, l) + 512
                && rec == Record(lines[l - 1])
      ensures prevblk < 0 && prevblk != old(saveblk) && old(fpos) + prevoff < |file| && file[old(fpos) + prevoff] != NEWLINE ==>
                rec != [] && rec[0] == file[old(fpos) + prevoff]
    {
      Seek(l);
      LineAt(lines, |lines|, l, 0);
      ghost var right := At() == Start(lines, l) && CacheRight();
      if prevblk != saveblk {
        Load(prevblk);
      }
      rec := Copy(l, prevoff, right);
    }

    /** bfs stands where the first n of these reads lead to, and among short lines the cache is right. */
    ghost predicate After(h: seq<nat>, n: nat)
      reads this`lprev, this`prevblk, this`prevoff, this`saveblk, this`fpos, savetxt
    {
      && AreLines(h, |lines|) && n <= |h| && Standing() && lprev == Nth(h, n) && At() == Place(lines, h, n)
      && (ShortLines(lines) ==> CacheRight())
    }

    /** bigread after n reads. */
    method Readnext(h: seq<nat>, n: nat) returns (rec: seq<byte>)
      requires Opened() && After(h, n) && n < |h| && savetxt.Length == BLOCK
      modifies this`prevblk, this`prevoff, this`lprev, this`fpos, this`saveblk, savetxt
      ensures Opened() && After(h, n + 1) && (ShortLines(lines) ==> rec == Record(lines[h[n] - 1]))
    {
      if ShortLines(lines) { PlacedRight(lines, h, n + 1); }
      rec := Bigread(h[n]);
    }

    /** Any lines, one after the other, of a file just opened. */
    method Readlines(h: seq<nat>) returns (recs: seq<seq<byte>>)
      requires Opened() && After(h, 0) && savetxt.Length == BLOCK
      modifies this`prevblk, this`prevoff, this`lprev, this`fpos, this`saveblk, savetxt
      ensures After(h, |h|) && |recs| == |h| && Told(lines, h, recs)
    {
      recs := [];
      while |recs| < |h|
        invariant |recs| <= |h| && Opened() && After(h, |recs|) && Told(lines, h, recs)
      {
        var rec := Readnext(h, |recs|);
        recs := recs + [rec];
      }
    }

    /** The copying loop of bigread. */
    method Copy(l: nat, off0: int, ghost right: bool) returns (rec: seq<byte>)
      requires Shape() && LinesOk(lines, file) && 1 <= l <= |lines| && 0 <= off0 < 512
      requires right ==> Copied(lines, l, [], 512 * saveblk + off0) && Held()
      modifies this`fpos, this`saveblk, savetxt
      ensures right ==> Held() && 512 * saveblk <= Start(lines, l) + 512 && rec == Record(lines[l - 1])
      ensures old(savetxt[off0]) != NEWLINE ==> rec != [] && rec[0] == old(savetxt[off0])
    {
      var c, off := NextByte(off0);
      rec := [];
      if right { CopyNext(lines, file, l, rec, 512 * saveblk + off - 1, c); }
      while c != NEWLINE
        invariant 0 <= off <= 512 && |rec| <= BFSLIM && (rec == [] ==> off0 < 512 && c == old(savetxt[off0]))
        invariant rec != [] ==> rec[0] == old(savetxt[off0])
        invariant right ==> Held() && Copied(lines, l, rec, 512 * saveblk + off - 1) && CopyEnds(lines, l, rec, c)
        decreases BFSLIM + 1 - |rec|
      {
        rec := rec + [c];
        if |rec| > BFSLIM {
          return;
        }
        c, off := NextByte(off);
        if right { CopyNext(lines, file, l, rec, 512 * saveblk + off - 1, c); }
      }
    }

    /** The cache holds a block of the file. */
    ghost predicate Held()
      reads this`saveblk, this`fpos, savetxt
    {
      saveblk >= 0 && Cached(file, savetxt[..], saveblk, fpos)
    }

    /** The byte at off in savetxt, after the next block has been read if need be. */
    method NextByte(off0: int) returns (c: byte, off: int)
      requires savetxt.Length == BLOCK && 0 <= off0 <= 512
      modifies this`fpos, this`saveblk, savetxt
      ensures 0 < off <= 512 && 512 * saveblk + off == old(512 * saveblk + off0) + 1
      ensures old(saveblk >= 0 && Cached(file, savetxt[..], saveblk, fpos) && 512 * saveblk + off0 < |file|) ==>
                saveblk >= 0 && Cached(file, savetxt[..], saveblk, fpos) && c == file[old(512 * saveblk + off0)]
      ensures off0 < 512 ==> c == old(savetxt[off0])
    {
      off := off0;
      if off == 512 {
        More();
        off := 0;
      }
      c := savetxt[off];
      assert c == savetxt[..][off];
      off := off + 1;
    }

    /** The block behind the one in savetxt. */
    method More()
      requires savetxt.Length == BLOCK
      modifies this`fpos, this`saveblk, savetxt
      ensures saveblk == old(saveblk) + 1
      ensures old(saveblk >= 0 && Cached(file, savetxt[..], saveblk, fpos) && 512 * saveblk + 512 <= |file|) ==>
                Cached(file, savetxt[..], saveblk, fpos)
    {
      var n := Read(savetxt);
      saveblk := saveblk + 1;
    }
  }

  /** A file whose first line is too long to be counted: the second one is looked for in front of the file, and what is
      read is a part of the first. */
  method LongLine(n: nat) returns (at: int, rec: seq<byte>)
    requires 0x7FFF <= n <= 0xFFFE
    ensures at == n + 1 - 0x1_0000 < 0 && rec != [120] && rec != [] && rec[0] == 97
  {
    var first: seq<byte> := seq(n, _ => 97);
    var lines: seq<seq<byte>> := [first, [120]];
    var file := (first + [NEWLINE]) + ([120] + [NEWLINE]);
    LongText(first, lines, file);
    var b := new Browser(file, lines);
    var ok := b.Bigopen();
    rec := b.Bigread(1);
    rec := b.Bigread(2);
    at := b.At();
  }

  /** A file of one line that is too long for a record: its end is lost. */
  method CutLine(n: nat) returns (rec: seq<byte>)
    requires n >= BFSLIM + 2
    ensures |rec| == BFSLIM + 1 < n && forall i :: 0 <= i < |rec| ==> rec[i] == 97
  {
    var line: seq<byte> := seq(n, _ => 97);
    var lines: seq<seq<byte>> := [line];
    var file := line + [NEWLINE];
    assert Text(lines, 0) + (lines[0] + [NEWLINE]) == file;
    var b := new Browser(file, lines);
    var ok := b.Bigopen();
    rec := b.Bigread(1);
  }
}
