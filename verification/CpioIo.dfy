/**
  Input and output of cpio: records of Bufsize bytes on the way out, reads of any length on the
  way in, with an expansion area to the left of the input buffer.
*/
module CpioIo {
  import opened CpioFormat
  import opened Bytes
  import opened Sequences

  /** CHARS + PATHSIZE: the length of the expansion area; Cbuf begins behind it. */
  const CBUF: nat := 332

  // ---------------------------------------------------------------------
  // Writing
  // ---------------------------------------------------------------------

  class Writer {
    const bufsize: nat
    const cbuf: array<byte>
    var cp: nat
    var ccnt: nat
    var out: seq<byte>
    var blocks: nat

    ghost predicate Valid()
      reads this
    {
      bufsize > 0 && cbuf.Length == bufsize && cp == ccnt < bufsize && |out| == blocks * bufsize
    }

    /** Everything written so far, whether it has left the buffer or not. */
    ghost function Written(): seq<byte>
      requires Valid()
      reads this, cbuf
    {
      out + cbuf[..ccnt]
    }

    constructor (bufsize: nat)
      requires bufsize > 0
      ensures Valid() && fresh(cbuf) && Written() == [] && this.bufsize == bufsize
    {
      this.bufsize := bufsize;
      cbuf := new byte[bufsize];
      cp, ccnt, out, blocks := 0, 0, [], 0;
    }

    /** memcpy to cp */
    method Copy(rp: seq<byte>, n: nat)
      requires n <= |rp| && cp + n <= cbuf.Length
      modifies cbuf
      ensures cbuf[..] == old(cbuf[..cp]) + rp[..n] + old(cbuf[cp + n..])
    {
      var i := 0;
      while i < n
        invariant 0 <= i <= n
        invariant cbuf[..] == old(cbuf[..cp]) + rp[..i] + old(cbuf[cp + i..])
      {
        cbuf[cp + i] := rp[i];
        i := i + 1;
      }
    }

    /** bwrite: c bytes of rp, for binary archives rounded up to an even number; whole records are written. */
    method Bwrite(binary: bool, rp: seq<byte>, c0: nat)
      requires Valid() && Rounded(binary, c0) <= |rp|
      modifies this`cp, this`ccnt, this`out, this`blocks, cbuf
      ensures Valid() && Written() == old(Written()) + rp[..Rounded(binary, c0)]
    {
      var c, p := if binary then (c0 + 1) / 2 * 2 else c0, 0;
      ghost var total := c;
      while c > 0
        invariant Valid() && 0 <= c && p + c == total <= |rp|
        invariant Written() == old(Written()) + rp[..p]
        decreases c
      {
        var cleft := bufsize - ccnt;
        if cleft <= c {
          Fill(rp[p..], cleft);
          p := p + cleft;
          c := c - cleft;
        } else {
          Keep(rp[p..], c);
          p := p + c;
          c := 0;
        }
        assert rp[..p] == rp[..p];
      }
    }

    /** The record is full: write it. */
    method Fill(rp: seq<byte>, cleft: nat)
      requires Valid() && cleft == bufsize - ccnt <= |rp|
      modifies this`cp, this`ccnt, this`out, this`blocks, cbuf
      ensures Valid() && ccnt == 0 && Written() == old(Written()) + rp[..cleft]
    {
      ghost var before, was := cbuf[..ccnt], out;
      Copy(rp, cleft);
      ghost var record := cbuf[..];
      FullRecord(was, before, rp[..cleft], record, old(cbuf[cp + cleft..]), cbuf[..0]);
      out, blocks := out + cbuf[..], blocks + 1;
      ccnt, cp := 0, 0;
    }

    static lemma FullRecord(out: seq<byte>, before: seq<byte>, x: seq<byte>, record: seq<byte>, tail: seq<byte>, none: seq<byte>)
      requires record == before + x + tail && |tail| == 0 && |none| == 0
      ensures out + record + none == (out + before) + x
    {
    }

    method Keep(rp: seq<byte>, c: nat)
      requires Valid() && c <= |rp| && ccnt + c < bufsize
      modifies this`cp, this`ccnt, cbuf
      ensures Valid() && Written() == old(Written()) + rp[..c]
    {
      ghost var before := cbuf[..ccnt];
      Copy(rp, c);
      ccnt := ccnt + c;
      cp := cp + c;
      assert cbuf[..ccnt] == before + rp[..c];
    }
  }

  function Rounded(binary: bool, c: nat): nat {
    if binary then (c + 1) / 2 * 2 else c
  }

  // ---------------------------------------------------------------------
  // Reading
  // ---------------------------------------------------------------------

  class Reader {
    const le: bool
    const bufsize: nat
    const area: array<byte>
    var ip: nat
    var nleft: nat
    var filbuf: bool
    var input: seq<byte>
    var cflag: Format
    var min: nat

    ghost predicate Valid()
      reads this
    {
      && bufsize > 0 && area.Length == CBUF + bufsize && ip + nleft <= area.Length && min == Least(cflag)
    }

    /** The stream that is still to be read: the expansion area, Cbuf and the input behind them. */
    ghost function Unread(): seq<byte>
      requires Valid()
      reads this, area
    {
      area[ip..ip + nleft] + input
    }

    constructor (le: bool, bufsize: nat, input: seq<byte>)
      requires bufsize > 0
      ensures Valid() && fresh(area) && Unread() == input && nleft == 0 && !filbuf && cflag == Unknown
      ensures this.le == le && this.bufsize == bufsize
    {
      this.le, this.bufsize, this.input := le, bufsize, input;
      area := new byte[CBUF + bufsize];
      ip, nleft, filbuf, cflag, min := CBUF, 0, false, Unknown, CHARS;
    }

    /** read(Input, Cbuf, Bufsize): any number of bytes that there are. */
    method ReadInput() returns (rv: nat)
      requires area.Length == CBUF + bufsize && bufsize > 0 && input != []
      modifies this`input, area
      ensures 0 < rv <= |old(input)| && rv <= bufsize && input == old(input)[rv..]
      ensures area[..CBUF] == old(area[..CBUF]) && area[CBUF..CBUF + rv] == old(input)[..rv]
    {
      assert 1 <= 1 <= bufsize && 1 <= |input|;
      rv :| 1 <= rv <= bufsize && rv <= |input|;
      var i := 0;
      while i < rv
        invariant 0 <= i <= rv && input == old(input)
        invariant area[..CBUF] == old(area[..CBUF]) && area[CBUF..CBUF + i] == input[..i]
      {
        area[CBUF + i] := input[i];
        i := i + 1;
      }
      input := input[rv..];
    }

    /** bread: with filbuf, the next read goes to Cbuf and nothing is copied; without it, c bytes of the
        stream are copied, for binary archives rounded up to an even number. */
    method Bread(c: nat) returns (b: seq<byte>)
      requires Valid() && (if filbuf then input != [] else Rounded(cflag == Binary, c) <= |Unread()|)
      modifies this`ip, this`nleft, this`filbuf, this`input, area
      ensures Valid() && !filbuf
      ensures old(filbuf) ==>
                && b == [] && ip == CBUF && nleft > 0 && area[..CBUF] == old(area[..CBUF])
                && area[CBUF..CBUF + nleft] + input == old(input)
      ensures !old(filbuf) ==>
                var n := Rounded(cflag == Binary, c);
                b == old(Unread())[..n] && Unread() == old(Unread())[n..]
    {
      if filbuf {
        nleft := ReadInput();
        ip, filbuf, b := CBUF, false, [];
      } else {
        b := Take(if cflag == Binary then (c + 1) / 2 * 2 else c);
      }
    }

    /** Refill Cbuf when nothing is left of it. */
    method Refill()
      requires Valid() && Unread() != []
      modifies this`ip, this`nleft, this`input, area
      ensures Valid() && nleft > 0 && Unread() == old(Unread())
    {
      if nleft == 0 {
        assert Unread() == input;
        nleft := ReadInput();
        ip := CBUF;
      }
    }

    /** memcpy(b, p, dcr) */
    method Chunk(dcr: nat) returns (chunk: seq<byte>)
      requires Valid() && dcr <= nleft
      modifies this`ip, this`nleft
      ensures Valid() && |chunk| == dcr && chunk + Unread() == old(Unread())
    {
      chunk := area[ip..ip + dcr];
      ghost var left := area[ip + dcr..ip + nleft];
      assert area[ip..ip + nleft] == chunk + left;
      Assoc(chunk, left, input);
      ip, nleft := ip + dcr, nleft - dcr;
    }

    /** The copying loop of bread. */
    method Take(n: nat) returns (b: seq<byte>)
      requires Valid() && n <= |Unread()|
      modifies this`ip, this`nleft, this`input, area
      ensures Valid() && b == old(Unread())[..n] && Unread() == old(Unread())[n..]
    {
      var c := n;
      b := [];
      while c > 0
        invariant Valid() && 0 <= c && |b| == n - c && b + Unread() == old(Unread())
        decreases c
      {
        Refill();
        var chunk := Chunk(if nleft <= c then nleft else c);
        Assoc(b, chunk, Unread());
        b, c := b + chunk, c - |chunk|;
      }
      Parted(b, Unread(), old(Unread()));
    }

    static lemma Parted(b: seq<byte>, r: seq<byte>, u: seq<byte>)
      requires b + r == u
      ensures b == u[..|b|] && r == u[|b|..]
    {
    }

    /** rstbuf: what is left from ptr on goes to the left of Cbuf, and Cbuf is filled. */
    method Rstbuf(ptr: nat)
      requires Valid() && ptr + nleft <= area.Length && nleft <= CBUF && input != []
      modifies this`ip, this`nleft, this`filbuf, this`input, area
      ensures Valid() && !filbuf && nleft > old(nleft) && Unread() == old(area[ptr..ptr + nleft] + input)
    {
      ghost var kept := area[ptr..ptr + nleft];
      forall k | 0 <= k < nleft {
        area[CBUF - nleft + k] := area[ptr + k];
      }
      var eleft := nleft;
      ghost var left, was := area[..CBUF], input;
      assert left[CBUF - eleft..] == kept;
      filbuf := true;
      var b := Bread(0);
      Refilled(area[..], left, eleft, nleft, kept, input, was);
      nleft := nleft + eleft;
      ip := ip - eleft;
    }

    static lemma Refilled(a: seq<byte>, left: seq<byte>, eleft: nat, nleft: nat, kept: seq<byte>, input: seq<byte>, was: seq<byte>)
      requires CBUF + nleft <= |a| && a[..CBUF] == left && eleft <= CBUF && left[CBUF - eleft..] == kept
      requires a[CBUF..CBUF + nleft] + input == was
      ensures a[CBUF - eleft..CBUF - eleft + (nleft + eleft)] + input == kept + was
    {
      assert a[CBUF - eleft..CBUF + nleft] == a[..CBUF][CBUF - eleft..] + a[CBUF..CBUF + nleft];
    }

    /** At least n bytes of the stream in front of ip: the loops around rstbuf in synch. */
    method FillTo(n: nat)
      requires Valid() && !filbuf && n <= CBUF + 1 && n <= |Unread()|
      modifies this`ip, this`nleft, this`filbuf, this`input, area
      ensures Valid() && !filbuf && nleft >= n && Unread() == old(Unread())
    {
      while nleft < n
        invariant Valid() && !filbuf && Unread() == old(Unread())
        decreases n - nleft
      {
        Rstbuf(ip);
      }
    }

    /** The next n bytes of the stream; they stay there. */
    method Front(n: nat) returns (front: seq<byte>)
      requires Valid() && !filbuf && n <= CBUF + 1 && n <= |Unread()|
      modifies this`ip, this`nleft, this`filbuf, this`input, area
      ensures Valid() && !filbuf && nleft >= n && Unread() == old(Unread()) && front == Unread()[..n]
    {
      FillTo(n);
      front := area[ip..ip + n];
      assert area[ip..ip + nleft][..n] == front;
    }

    /** The first half of synch: a magic number, and fields that pass the checks of hdck. */
    method Locate() returns (found: Option<Found>)
      requires Valid() && !filbuf && (cflag == Unknown ==> nleft == 0)
      requires Least(cflag) <= |Unread()|
      modifies this`ip, this`nleft, this`filbuf, this`input, area
      ensures Valid() && !filbuf && Unread() == old(Unread()) && found == FixedAt(cflag, le, Unread())
    {
      if cflag == Unknown {
        filbuf := true;
        assert Unread() == input;
        var b := Bread(0);
      }
      var chdr := Front(min);
      FixedFront(cflag, le, chdr, Unread());
      found := FixedAt(cflag, le, chdr);
    }

    static lemma FixedFront(cflag: Format, le: bool, fix: seq<byte>, bs: seq<byte>)
      requires Least(cflag) == |fix| <= |bs| && fix == bs[..|fix|]
      ensures FixedAt(cflag, le, fix) == FixedAt(cflag, le, bs)
    {
      FixedPrefix(cflag, le, fix, bs[|fix|..]);
      assert fix + bs[|fix|..] == bs;
    }

    /** synch: the next header, and the stream behind it. */
    method Synch() returns (r: Option<(Found, seq<byte>)>)
      requires Valid() && !filbuf && (cflag == Unknown ==> nleft == 0)
      requires Least(cflag) <= |Unread()| && Needed(cflag, le, Unread()) <= |Unread()|
      modifies this, area
      ensures Valid() && !filbuf && r == HeadAt(old(cflag), le, old(Unread()))
      ensures r.Some? ==>
                cflag == r.value.0.f && Unread() == old(Unread())[Needed(old(cflag), le, old(Unread()))..]
    {
      var found := Locate();
      if found == None {
        return None;
      }
      var x := found.value;
      var head := Front(HeadSize(x.f, x.h));
      r := NameIn(x, head);
      if r.Some? {
        Accept(|head|, x.f);
      }
    }

    /** A good header of n bytes in format f: the format is settled. */
    method Accept(n: nat, f: Format)
      requires Valid() && n <= nleft
      modifies this`ip, this`nleft, this`cflag, this`min
      ensures Valid() && cflag == f && Unread() == old(Unread())[n..]
    {
      ip, nleft, cflag, min := ip + n, nleft - n, f, Least(f);
    }

    /** The loop that copies the contents of a file. */
    method ReadData(size: nat) returns (data: seq<byte>)
      requires Valid() && !filbuf && Rounded(cflag == Binary, size) <= |Unread()|
      modifies this`ip, this`nleft, this`filbuf, this`input, area
      ensures Valid() && !filbuf && data == old(Unread())[..size]
      ensures Unread() == old(Unread())[Rounded(cflag == Binary, size)..]
    {
      data := [];
      var filesz: int := size;
      ghost var u, binary := Unread(), cflag == Binary;
      while filesz > 0
        invariant Valid() && !filbuf && (cflag == Binary) == binary
        invariant Progress(u, size, filesz, data, binary) && Unread() == u[Rounded(binary, |data|)..]
        decreases filesz
      {
        var ct := if filesz > CPIOBSZ then CPIOBSZ else filesz;
        StepFits(u, size, filesz, data, ct, binary);
        var b := Bread(ct);
        DataStep(u, size, filesz, data, ct, b, binary);
        data := data + b[..ct];
        filesz := filesz - CPIOBSZ;
      }
    }

    static lemma StepFits(u: seq<byte>, size: nat, filesz: int, data: seq<byte>, ct: nat, binary: bool)
      requires Progress(u, size, filesz, data, binary) && filesz > 0 && ct == (if filesz > CPIOBSZ then CPIOBSZ else filesz)
      ensures Rounded(binary, |data|) == |data| && Rounded(binary, ct) <= |u| - |data| && ct <= Rounded(binary, ct)
    {
    }

    /** filesz bytes, if any, are still to come; up to then whole blocks have been read. */
    static ghost predicate Progress(u: seq<byte>, size: nat, filesz: int, data: seq<byte>, binary: bool) {
      && Rounded(binary, size) <= |u| && |data| <= size && data == u[..|data|]
      && (if filesz > 0 then |data| == size - filesz && |data| % 2 == 0 else |data| == size)
    }

    static lemma DataStep(u: seq<byte>, size: nat, filesz: int, data: seq<byte>, ct: nat, b: seq<byte>, binary: bool)
      requires Progress(u, size, filesz, data, binary) && filesz > 0 && ct == (if filesz > CPIOBSZ then CPIOBSZ else filesz)
      requires b == u[Rounded(binary, |data|)..][..Rounded(binary, ct)]
      ensures Progress(u, size, filesz - CPIOBSZ, data + b[..ct], binary)
      ensures Rounded(binary, |data|) == |data| && Rounded(binary, ct) <= |u| - |data|
      ensures u[Rounded(binary, |data|)..][Rounded(binary, ct)..] == u[Rounded(binary, |data + b[..ct]|)..]
    {
    }
  }
}
