/**
  newform: expanding and contracting tabs in the work area. The line ends with a newline, at plast.
*/
module Newform {
  import opened Tabs
  import opened Sequences

  const NCOLS: nat := 512
  const MAXLINE: nat := 512

  // ---------------------------------------------------------------------
  // The work area, w0 before and w during a pass: what is behind end has not been written to
  // ---------------------------------------------------------------------

  ghost predicate Same(w0: string, w: string, first: nat, pf: nat) {
    first <= pf <= |w0| == |w| && w[..first] == w0[..first] && w[pf..] == w0[pf..]
  }

  lemma SameAt(w0: string, w: string, first: nat, pf: nat, i: nat)
    requires Same(w0, w, first, pf) && pf <= i < |w|
    ensures w[i] == w0[i]
  {
    assert w[pf..][i - pf] == w0[pf..][i - pf];
  }

  lemma SamePut(w0: string, w: string, first: nat, pf: nat, i: nat, c: char)
    requires Same(w0, w, first, pf) && first <= i < pf
    ensures Same(w0, w[i := c], first, pf)
  {
    assert w[i := c][pf..] == w[pf..];
    assert w[i := c][..first] == w[..first];
  }

  /** Characters put from first on. */
  lemma PutNext(w: string, first: nat, i: nat, c: char)
    requires first <= i < |w|
    ensures w[i := c][first..i] == w[first..i] && w[i := c][first..i + 1] == w[first..i] + [c]
  {
  }

  /** In outputtabs: what is done, and the rest of the line contracted. */
  ghost predicate Contracting(t: Memory, w0: string, w: string, first: nat, tlast: nat, pf: nat, end: nat, col: int, k: int, goal: string) {
    && tlast <= pf <= end <= |w| && first <= tlast && Same(w0, w, first, pf)
    && w[first..tlast] + Contracted(t, w[pf..end], col, k) == goal
  }

  /** A space was read; the spaces since the last stop begin at mark. */
  ghost predicate Pending(t: Memory, w0: string, w: string, first: nat, mark: nat, tlast: nat, pf: nat, end: nat, col: int, k: int, goal: string) {
    && first <= mark <= tlast < pf < end <= |w| && Same(w0, w, first, pf)
    && w[mark..tlast] == Spaces(tlast - mark) && w[first..mark] + Blank(t, w[pf..end], col, k, tlast - mark) == goal
  }

  /** The space was dealt with. */
  ghost predicate Looking(t: Memory, w0: string, w: string, first: nat, mark: nat, tlast: nat, pf: nat, end: nat, col: int, k: int, goal: string) {
    && first <= mark <= tlast <= pf < end <= |w| && Same(w0, w, first, pf)
    && w[mark..tlast] == Spaces(tlast - mark) && w[first..mark] + More(t, w[pf..end], col, k, tlast - mark) == goal
  }

  lemma PutSpace(t: Memory, w0: string, w: string, first: nat, mark: nat, tlast: nat, pf: nat, end: nat, col: int, k: int, goal: string)
    requires Pending(t, w0, w, first, mark, tlast, pf, end, col, k, goal) && col + 1 != t(k)
    ensures Looking(t, w0, w[tlast := ' '], first, mark, tlast + 1, pf, end, col + 1, k, goal)
  {
    var w' := w[tlast := ' '];
    SamePut(w0, w, first, pf, tlast, ' ');
    PutNext(w, mark, tlast, ' ');
    assert w'[first..mark] == w[first..mark] && w'[pf..end] == w[pf..end];
    assert Spaces(tlast - mark) + [' '] == Spaces(tlast + 1 - mark);
  }

  lemma PutTab(t: Memory, w0: string, w: string, first: nat, mark: nat, tlast: nat, pf: nat, end: nat, col: int, k: int, goal: string)
    requires Pending(t, w0, w, first, mark, tlast, pf, end, col, k, goal) && col + 1 == t(k)
    ensures Looking(t, w0, w[tlast := ' '][mark := '\t'], first, mark + 1, mark + 1, pf, end, col + 1, k + 1, goal)
  {
    var w' := w[tlast := ' '];
    SamePut(w0, w, first, pf, tlast, ' ');
    SamePut(w0, w', first, pf, mark, '\t');
    PutNext(w', first, mark, '\t');
    assert w'[first..mark] == w[first..mark] && w'[mark := '\t'][pf..end] == w[pf..end];
    Assoc(w[first..mark], ['\t'], More(t, w[pf..end], col + 1, k + 1, 0));
  }

  lemma AnotherSpace(t: Memory, w0: string, w: string, first: nat, mark: nat, tlast: nat, pf: nat, end: nat, col: int, k: int, goal: string)
    requires Looking(t, w0, w, first, mark, tlast, pf, end, col, k, goal) && w[pf] == ' ' && w0[end - 1] == '\n'
    ensures Pending(t, w0, w, first, mark, tlast, pf + 1, end, col, k, goal)
  {
    var s := w[pf..end];
    SameAt(w0, w, first, pf, end - 1);
    assert s[0] == w[pf] && s[1..] == w[pf + 1..end];
    assert w[pf + 1..] == w[pf..][1..];
  }

  lemma NoOtherSpace(t: Memory, w0: string, w: string, first: nat, mark: nat, tlast: nat, pf: nat, end: nat, col: int, k: int, goal: string)
    requires Looking(t, w0, w, first, mark, tlast, pf, end, col, k, goal) && w[pf] != ' '
    ensures Contracting(t, w0, w, first, tlast, pf, end, col, k, goal)
  {
    var s := w[pf..end];
    assert s[0] == w[pf];
    Assoc(w[first..mark], Spaces(tlast - mark), Contracted(t, s, col, k));
    assert w[first..tlast] == w[first..mark] + w[mark..tlast];
  }

  /** outputtabs has another character to read. */
  lemma ReadSpace(t: Memory, w0: string, w: string, first: nat, tlast: nat, pf: nat, end: nat, col: int, k: int, goal: string)
    requires Contracting(t, w0, w, first, tlast, pf, end, col, k, goal) && pf < end && w[pf] == ' ' && w0[end - 1] == '\n'
    ensures Pending(t, w0, w, first, tlast, tlast, pf + 1, end, col, if col == t(k) then k + 1 else k, goal)
  {
    var s := w[pf..end];
    SameAt(w0, w, first, pf, end - 1);
    assert s[0] == w[pf] && s[1..] == w[pf + 1..end];
    assert w[pf + 1..] == w[pf..][1..];
  }

  lemma ReadOther(t: Memory, w0: string, w: string, first: nat, tlast: nat, pf: nat, end: nat, col: int, k: int, goal: string)
    requires Contracting(t, w0, w, first, tlast, pf, end, col, k, goal) && pf < end && w[pf] != ' '
    ensures var k := if col == t(k) then k + 1 else k;
            if w[pf] == BS then Contracting(t, w0, w[tlast := w[pf]], first, tlast + 1, pf + 1, end, Back(col), BackStop(t, Back(col), k), goal)
            else Contracting(t, w0, w[tlast := w[pf]], first, tlast + 1, pf + 1, end, col + 1, k, goal)
  {
    var s, c := w[pf..end], w[pf];
    var w' := w[tlast := c];
    assert s[0] == c && s[1..] == w[pf + 1..end] == w'[pf + 1..end];
    assert w[pf + 1..] == w[pf..][1..];
    assert Same(w0, w, first, pf + 1);
    SamePut(w0, w, first, pf + 1, tlast, c);
    PutNext(w, first, tlast, c);
    var k := if col == t(k) then k + 1 else k;
    Assoc(w[first..tlast], [c], if c == BS then Contracted(t, s[1..], Back(col), BackStop(t, Back(col), k)) else Contracted(t, s[1..], col + 1, k));
  }

  /** Every character of the rest of the line is read before its place is written to, when the writer is `room` places
      behind the reader. */
  ghost predicate Keeps(t: Memory, s: string, col: int, k: int, room: int) {
    s == "" ||
    var l := Moved(t, col, k);
    var left := room + 1 - |Piece(t, s[0], col, l)|;
    left >= 0 && Keeps(t, s[1..], ColBehind(t, s[0], col, l), StopBehind(t, s[0], col, l), left)
  }

  /** Said of the line: what any part of it expands to ends in front of what comes behind that part. */
  lemma {:induction false} KeepsMeans(t: Memory, s: string, col: int, k: int, room: int)
    requires room >= 0
    ensures Keeps(t, s, col, k, room) <==> forall i :: 0 <= i <= |s| ==> |Expanded(t, s[..i], col, k)| <= room + i
  {
    if s != "" {
      var l := Moved(t, col, k);
      var c, k' := ColBehind(t, s[0], col, l), StopBehind(t, s[0], col, l);
      var left := room + 1 - |Piece(t, s[0], col, l)|;
      forall i | 1 <= i <= |s|
        ensures |Expanded(t, s[..i], col, k)| == |Piece(t, s[0], col, l)| + |Expanded(t, s[1..][..i - 1], c, k')|
      {
        assert s[..i][1..] == s[1..][..i - 1];
      }
      if left >= 0 {
        KeepsMeans(t, s[1..], c, k', left);
        if Keeps(t, s, col, k, room) {
          forall i | 0 <= i <= |s| ensures |Expanded(t, s[..i], col, k)| <= room + i {
            if i > 0 { assert |Expanded(t, s[1..][..i - 1], c, k')| <= left + (i - 1); }
          }
        }
        if forall i :: 0 <= i <= |s| ==> |Expanded(t, s[..i], col, k)| <= room + i {
          forall i | 0 <= i <= |s[1..]| ensures |Expanded(t, s[1..][..i], c, k')| <= left + i {
            assert |Expanded(t, s[..i + 1], col, k)| == |Piece(t, s[0], col, l)| + |Expanded(t, s[1..][..i + 1 - 1], c, k')|;
          }
        }
      } else {
        assert |Expanded(t, s[..1], col, k)| >= |Piece(t, s[0], col, l)|;
      }
    }
  }

  /** A short expansion keeps anyway. */
  lemma {:induction false} ShortKeeps(t: Memory, s: string, col: int, k: int, room: nat)
    requires |Expanded(t, s, col, k)| <= room + 1
    ensures Keeps(t, s, col, k, room)
  {
    if s != "" {
      var l := Moved(t, col, k);
      var c, k' := ColBehind(t, s[0], col, l), StopBehind(t, s[0], col, l);
      ShortKeeps(t, s[1..], c, k', room + 1 - |Piece(t, s[0], col, l)|);
    }
  }

  /** A text written from `at` on, a character after the other. */
  function Over(w: string, at: nat, text: string): (r: string)
    requires at + |text| <= |w|
    ensures |r| == |w|
    decreases |text|
  {
    if text == "" then w else Over(w[at := text[0]], at + 1, text[1..])
  }

  lemma {:induction false} OverParts(w: string, at: nat, text: string)
    requires at + |text| <= |w|
    ensures Over(w, at, text)[..at + |text|] == w[..at] + text
    ensures Over(w, at, text)[at + |text|..] == w[at + |text|..]
    decreases |text|
  {
    if text != "" {
      var v := w[at := text[0]];
      OverParts(v, at + 1, text[1..]);
      assert v[..at + 1] == w[..at] + [text[0]] && v[at + |text|..] == w[at + |text|..];
      Assoc(w[..at], [text[0]], text[1..]);
    }
  }

  lemma SameSlice(w: string, w': string, m: nat, a: nat, b: nat)
    requires m <= a <= b <= |w| == |w'| && w'[m..] == w[m..]
    ensures w'[a..b] == w[a..b]
  {
    forall i | a <= i < b ensures w'[i] == w[i] { assert w'[m..][i - m] == w[m..][i - m]; }
  }

  lemma SpacesSlice(w: string, w': string, m: nat, n: nat, a: nat)
    requires m <= a <= m + n <= |w| == |w'| && w'[..m + n] == w[..m] + Spaces(n)
    ensures w'[a..m + n] == Spaces(m + n - a)
  {
    forall i | a <= i < m + n ensures w'[i] == ' ' { assert w'[..m + n][i] == Spaces(n)[i - m]; }
  }

  /** What inputtabs writes for the rest of the line, when the writer is `room` places behind the reader. When the spaces of
      a tab have overtaken the reader, all that it reads are spaces, and it writes as many. */
  ghost function Written(t: Memory, s: string, col: int, k: int, room: int): string {
    if room < 0 then Spaces(|s|)
    else if s == "" then ""
    else
      var l := Moved(t, col, k);
      var piece := Piece(t, s[0], col, l);
      piece + Written(t, s[1..], ColBehind(t, s[0], col, l), StopBehind(t, s[0], col, l), room + 1 - |piece|)
  }

  lemma SameBehind(piece: string, a: string, b: string)
    requires a != ""
    ensures piece + a == piece + b <==> a == b
    ensures Ended(piece + a) <==> Ended(a)
  {
    assert (piece + a)[|piece|..] == a && (piece + b)[|piece|..] == b;
    assert (piece + a)[|piece| + |a| - 1] == a[|a| - 1];
  }

  /** For a line with its newline: what is written is what the line expands to if and only if the reader is never overtaken,
      and otherwise the newline is lost. */
  lemma {:induction false} WrittenExactly(t: Memory, s: string, col: int, k: int, room: nat)
    requires Ended(s)
    ensures Written(t, s, col, k, room) == Expanded(t, s, col, k) <==> Keeps(t, s, col, k, room)
    ensures Ended(Written(t, s, col, k, room)) <==> Keeps(t, s, col, k, room)
    ensures Written(t, s, col, k, room) != "" && (Keeps(t, s, col, k, room) ==> |Written(t, s, col, k, room)| <= room + |s|)
  {
    var l := Moved(t, col, k);
    var piece, col', k' := Piece(t, s[0], col, l), ColBehind(t, s[0], col, l), StopBehind(t, s[0], col, l);
    var left := room + 1 - |piece|;
    if left < 0 {
      ExpandedEnded(t, s, col, k);
      assert |s| > 1 && Written(t, s, col, k, room) == piece + Spaces(|s| - 1);
    } else if |s| == 1 {
      assert s[1..] == "" && piece == "\n";
    } else {
      WrittenExactly(t, s[1..], col', k', left);
      SameBehind(piece, Written(t, s[1..], col', k', left), Expanded(t, s[1..], col', k'));
    }
  }

  /** What the character at pf expands to stays in the work area. */
  ghost predicate Fits(t: Memory, w: string, tlast: nat, pf: nat, col: int, k: int)
    requires pf < |w|
  {
    tlast + |Piece(t, w[pf], col, Moved(t, col, k))| <= |w|
  }

  /** What the turns of inputtabs leave in front of the work area, if they stay in it. */
  datatype Outcome = Outside | Front(text: string)

  /** In a turn the character at pf is read, and what it expands to is written at tlast. */
  ghost function Leaves(t: Memory, w: string, tlast: nat, pf: nat, end: nat, col: int, k: int): Outcome
    decreases end - pf
  {
    if pf >= end then if tlast <= |w| then Front(w[..tlast]) else Outside
    else if pf >= |w| || !Fits(t, w, tlast, pf, col, k) then Outside
    else
      var l := Moved(t, col, k);
      var piece := Piece(t, w[pf], col, l);
      Leaves(t, Over(w, tlast, piece), tlast + |piece|, pf + 1, end, ColBehind(t, w[pf], col, l), StopBehind(t, w[pf], col, l))
  }

  lemma LeavesOn(t: Memory, w: string, tlast: nat, pf: nat, end: nat, col: int, k: int)
    requires pf < end && pf < |w| && Fits(t, w, tlast, pf, col, k)
    ensures var l := Moved(t, col, k); var piece := Piece(t, w[pf], col, l);
            Leaves(t, w, tlast, pf, end, col, k)
            == Leaves(t, Over(w, tlast, piece), tlast + |piece|, pf + 1, end,
                      ColBehind(t, w[pf], col, l), StopBehind(t, w[pf], col, l))
  {
  }

  /** The writer has overtaken the reader: all that is read and written are spaces. */
  lemma {:induction false} AheadLeaves(t: Memory, w: string, tlast: nat, pf: nat, end: nat, col: int, k: int, goal: string)
    requires pf <= end && pf <= tlast && tlast + (end - pf) <= |w| && w[pf..tlast] == Spaces(tlast - pf)
    requires pf < end ==> pf < tlast
    requires goal == w[..tlast] + Spaces(end - pf)
    ensures Leaves(t, w, tlast, pf, end, col, k) == Front(goal)
    decreases end - pf
  {
    if pf < end {
      assert w[pf..tlast][0] == w[pf];
      var w', l := Over(w, tlast, [' ']), Moved(t, col, k);
      OverParts(w, tlast, [' ']);
      forall i | pf + 1 <= i < tlast + 1 ensures w'[i] == ' ' {
        assert w'[..tlast + 1][i] == w'[i];
        if i < tlast { assert w[pf..tlast][i - pf] == w[i]; }
      }
      assert w'[pf + 1..tlast + 1] == Spaces(tlast - pf);
      assert Spaces(end - pf) == [' '] + Spaces(end - (pf + 1));
      Assoc(w[..tlast], [' '], Spaces(end - (pf + 1)));
      AheadLeaves(t, w', tlast + 1, pf + 1, end, ColBehind(t, ' ', col, l), StopBehind(t, ' ', col, l), goal);
      LeavesOn(t, w, tlast, pf, end, col, k);
    }
  }

  /** The writer is not in front of the reader, and writes what a character expands to. */
  lemma BehindTurn(w: string, tlast: nat, pf: nat, end: nat, piece: string, rest: string, goal: string, w': string, tlast': nat)
    requires tlast <= pf < end <= |w| && goal == w[..tlast] + (piece + rest) && |goal| <= |w|
    requires tlast' == tlast + |piece| <= |w| && w' == Over(w, tlast, piece) && (|piece| > 1 ==> piece == Spaces(|piece|))
    ensures goal == w'[..tlast'] + rest
    ensures tlast' <= pf + 1 ==> w'[pf + 1..end] == w[pf..end][1..]
    ensures tlast' > pf + 1 ==> w'[pf + 1..tlast'] == Spaces(tlast' - (pf + 1))
  {
    OverParts(w, tlast, piece);
    Assoc(w[..tlast], piece, rest);
    if tlast' <= pf + 1 {
      SameSlice(w, w', tlast', pf + 1, end);
      assert w[pf..end][1..] == w[pf + 1..end];
    } else {
      SpacesSlice(w, w', tlast, |piece|, pf + 1);
    }
  }

  /** What is written is what the turns leave in front. */
  lemma {:induction false} WrittenLeaves(t: Memory, w: string, tlast: nat, pf: nat, end: nat, col: int, k: int, goal: string)
    requires tlast <= pf <= end <= |w| && |goal| <= |w|
    requires goal == w[..tlast] + Written(t, w[pf..end], col, k, pf - tlast)
    ensures Leaves(t, w, tlast, pf, end, col, k) == Front(goal)
    decreases end - pf, 1
  {
    if pf == end {
      assert w[pf..end] == "" && goal == w[..tlast];
    } else {
      var l := Moved(t, col, k);
      assert w[pf..end][0] == w[pf];
      var piece, col', k' := Piece(t, w[pf], col, l), ColBehind(t, w[pf], col, l), StopBehind(t, w[pf], col, l);
      assert pf - tlast + 1 - |piece| == pf + 1 - (tlast + |piece|);
      NextLeaves(t, w, tlast, pf, end, piece, col', k', goal, Over(w, tlast, piece), tlast + |piece|);
      LeavesOn(t, w, tlast, pf, end, col, k);
    }
  }

  lemma {:induction false} NextLeaves(t: Memory, w: string, tlast: nat, pf: nat, end: nat, piece: string, col: int, k: int, goal: string,
                                       w': string, tlast': nat)
    requires tlast <= pf < end <= |w| && |goal| <= |w|
    requires tlast' == tlast + |piece| <= |w| && w' == Over(w, tlast, piece) && (|piece| > 1 ==> piece == Spaces(|piece|))
    requires goal == w[..tlast] + (piece + Written(t, w[pf..end][1..], col, k, pf + 1 - tlast'))
    ensures Leaves(t, w', tlast', pf + 1, end, col, k) == Front(goal)
    decreases end - pf, 0
  {
    BehindTurn(w, tlast, pf, end, piece, Written(t, w[pf..end][1..], col, k, pf + 1 - tlast'), goal, w', tlast');
    if tlast' <= pf + 1 {
      assert Written(t, w'[pf + 1..end], col, k, pf + 1 - tlast') == Written(t, w[pf..end][1..], col, k, pf + 1 - tlast');
      WrittenLeaves(t, w', tlast', pf + 1, end, col, k, goal);
    } else {
      AheadLeaves(t, w', tlast', pf + 1, end, col, k, goal);
    }
  }

  /** One turn of the loop of inputtabs. */
  ghost predicate Turned(t: Memory, w: string, tlast: nat, pf: nat, col: int, k: int, w': string, tlast': nat, col': int, k': int)
    requires pf < |w| && Fits(t, w, tlast, pf, col, k)
  {
    var l := Moved(t, col, k);
    && w' == Over(w, tlast, Piece(t, w[pf], col, l)) && tlast' == tlast + |Piece(t, w[pf], col, l)|
    && col' == ColBehind(t, w[pf], col, l) && k' == StopBehind(t, w[pf], col, l)
  }

  /** When the spaces for a tab go beyond what has been read, the next m characters of the line are lost: the rest of the
      line stays what it is if and only if they are spaces. */
  lemma Overtaken(w: string, tlast: nat, n: nat, pf: nat, end: nat)
    requires tlast <= pf <= end <= |w| && pf < tlast + n <= |w|
    ensures var m := (if tlast + n < end then tlast + n else end) - pf;
            && Over(w, tlast, Spaces(n))[pf..end] == Spaces(m) + w[pf + m..end]
            && (Over(w, tlast, Spaces(n))[pf..end] == w[pf..end] <==> w[pf..pf + m] == Spaces(m))
  {
    var m := (if tlast + n < end then tlast + n else end) - pf;
    SpacesOver(w, tlast, n, pf, end, m);
    SplitEqual(w[pf..pf + m], Spaces(m), w[pf + m..end]);
    assert w[pf..end] == w[pf..pf + m] + w[pf + m..end];
  }

  lemma SpacesOver(w: string, tlast: nat, n: nat, pf: nat, end: nat, m: nat)
    requires tlast <= pf <= pf + m <= end <= |w| && pf + m <= tlast + n <= |w| && (pf + m == tlast + n || pf + m == end)
    ensures Over(w, tlast, Spaces(n))[pf..end] == Spaces(m) + w[pf + m..end]
  {
    var w' := Over(w, tlast, Spaces(n));
    OverParts(w, tlast, Spaces(n));
    SpacesSlice(w, w', tlast, n, pf);
    assert w'[pf..pf + m] == w'[pf..tlast + n][..m] == Spaces(m);
    if pf + m < end { SameSlice(w, w', tlast + n, pf + m, end); }
    assert w'[pf..end] == w'[pf..pf + m] + w'[pf + m..end];
  }

  lemma SplitEqual(a: string, b: string, c: string)
    requires |a| == |b|
    ensures b + c == a + c <==> a == b
  {
    assert (a + c)[..|a|] == a && (b + c)[..|b|] == b;
  }

  /** center moves the line up from its end, or down from its beginning. */
  ghost predicate Shifted(w0: string, w: string, from: nat, to: nat, n: nat, a: nat, b: nat) {
    && |w0| == |w| && from + n <= |w| && to + n <= |w| && a <= b <= n
    && w[from + a..from + b] == w0[from + a..from + b] && w[to..to + a] == w0[from..from + a] && w[to + b..to + n] == w0[from + b..from + n]
  }

  lemma MoveLast(w0: string, w: string, from: nat, to: nat, n: nat, b: nat)
    requires Shifted(w0, w, from, to, n, 0, b) && b > 0 && to > from
    ensures Shifted(w0, w[to + b - 1 := w[from + b - 1]], from, to, n, 0, b - 1)
  {
    var w' := w[to + b - 1 := w[from + b - 1]];
    assert w[from..from + b][b - 1] == w0[from..from + b][b - 1];
    assert w[from..from + (b - 1)] == w[from..from + b][..b - 1];
    assert w0[from..from + (b - 1)] == w0[from..from + b][..b - 1];
    assert w'[to + b..to + n] == w[to + b..to + n];
    assert w0[from + (b - 1)..from + n] == [w0[from + (b - 1)]] + w0[from + b..from + n];
    assert w'[to + (b - 1)..to + n] == [w'[to + (b - 1)]] + w'[to + b..to + n];
  }

  lemma MoveFirst(w0: string, w: string, from: nat, to: nat, n: nat, a: nat)
    requires Shifted(w0, w, from, to, n, a, n) && a < n && to <= from
    ensures Shifted(w0, w[to + a := w[from + a]], from, to, n, a + 1, n)
  {
    var w' := w[to + a := w[from + a]];
    assert w[from + a..from + n][0] == w0[from + a..from + n][0];
    assert w[from + (a + 1)..from + n] == w[from + a..from + n][1..];
    assert w0[from + (a + 1)..from + n] == w0[from + a..from + n][1..];
    assert w'[from + (a + 1)..from + n] == w[from + (a + 1)..from + n];
    assert w'[to..to + a] == w[to..to + a];
    assert w0[from..from + (a + 1)] == w0[from..from + a] + [w0[from + a]];
    assert w'[to..to + (a + 1)] == w'[to..to + a] + [w'[to + a]];
  }

  lemma SpacedMore(w: string, at: nat, n: nat)
    requires at + n < |w|
    ensures Over(w, at, Spaces(n))[at + n := ' '] == Over(w, at, Spaces(n + 1))
  {
    var u, v := Over(w, at, Spaces(n))[at + n := ' '], Over(w, at, Spaces(n + 1));
    OverParts(w, at, Spaces(n));
    OverParts(w, at, Spaces(n + 1));
    assert w[..at] + Spaces(n) + [' '] == w[..at] + Spaces(n + 1);
    assert u[..at + n + 1] == v[..at + n + 1];
    assert u[at + n + 1..] == Over(w, at, Spaces(n))[at + n..][1..] == w[at + n + 1..];
    assert u == u[..at + n + 1] + u[at + n + 1..] && v == v[..at + n + 1] + v[at + n + 1..];
  }

  /** A tab that leads too far. */
  lemma TooFar(t: Memory, far: int, s: string)
    requires s == "\tab\n" && t(0) == 1 && t(1) == far >= NCOLS + 3
    ensures Written(t, s, 1, 0, NCOLS) == Spaces(far + 2) && !Keeps(t, s, 1, 0, NCOLS)
  {
    assert Spaces(far - 1) + Spaces(3) == Spaces(far + 2);
  }

  /** The whole loop, from the middle of the work area. */
  lemma LeavesWritten(t: Memory, w: string, last: nat, p: int, goal: string)
    requires NCOLS <= last < |w| && w[last] == '\n' && goal == Written(t, w[NCOLS..last + 1], 1, p, NCOLS) && |goal| <= |w|
    ensures goal != "" && Leaves(t, w, 0, NCOLS, last + 1, 1, p) == Front(goal)
  {
    var s := w[NCOLS..last + 1];
    assert s[last - NCOLS] == w[last];
    WrittenExactly(t, s, 1, p, NCOLS);
    assert w[..0] + Written(t, s, 1, p, NCOLS - 0) == goal;
    WrittenLeaves(t, w, 0, NCOLS, last + 1, 1, p, goal);
  }

  class Form {
    const work: array<char>
    const memory: Memory
    var pfirst: nat
    var plast: nat

    predicate Within()
      reads this, work
    {
      work.Length == 3 * NCOLS + 1 && pfirst <= plast < work.Length
    }

    predicate Valid()
      reads this, work
    {
      Within() && work[plast] == '\n'
    }

    function Line(): string
      requires Within()
      reads this, work
    {
      work[..][pfirst..plast + 1]
    }

    method Put(i: nat, c: char)
      requires i < work.Length
      modifies work
      ensures work[..] == old(work[..])[i := c]
    {
      work[i] := c;
    }

    /** The loop of center for a line in front of the middle: its last character first. */
    method MoveUp()
      requires Valid() && pfirst < NCOLS && plast - pfirst <= MAXLINE
      modifies work
      ensures work[..][NCOLS..NCOLS + (plast + 1 - pfirst)] == old(Line())
    {
      ghost var w0, n := work[..], plast + 1 - pfirst;
      var k: int, tlast: int := plast, plast + (NCOLS - pfirst);
      while k >= pfirst
        invariant pfirst - 1 <= k <= plast && tlast == k + (NCOLS - pfirst)
        invariant Shifted(w0, work[..], pfirst, NCOLS, n, 0, k + 1 - pfirst)
      {
        MoveLast(w0, work[..], pfirst, NCOLS, n, k + 1 - pfirst);
        Put(tlast, work[k]);
        k, tlast := k - 1, tlast - 1;
      }
    }

    /** The loop of center for the other lines: the first character first. */
    method MoveDown()
      requires Valid() && pfirst >= NCOLS
      modifies work
      ensures work[..][NCOLS..NCOLS + (plast + 1 - pfirst)] == old(Line())
    {
      ghost var w0, n := work[..], plast + 1 - pfirst;
      var k, tfirst := pfirst, NCOLS;
      while k <= plast
        invariant pfirst <= k <= plast + 1 && tfirst == k - (pfirst - NCOLS)
        invariant Shifted(w0, work[..], pfirst, NCOLS, n, k - pfirst, n)
      {
        MoveFirst(w0, work[..], pfirst, NCOLS, n, k - pfirst);
        Put(tfirst, work[k]);
        k, tfirst := k + 1, tfirst + 1;
      }
    }

    /** center: the line is moved to the middle of the work area. False stands for the exit when it is too long. */
    method Center() returns (ok: bool)
      requires Valid()
      modifies this, work
      ensures ok <==> old(plast - pfirst) <= MAXLINE
      ensures ok ==> Valid() && pfirst == NCOLS && Line() == old(Line())
    {
      if plast - pfirst > MAXLINE {
        return false;
      }
      ghost var s, n := Line(), plast - pfirst;
      assert s[n] == work[plast];
      if pfirst < NCOLS {
        MoveUp();
      } else {
        MoveDown();
      }
      plast := NCOLS + (plast - pfirst);
      pfirst := NCOLS;
      assert work[..][NCOLS..NCOLS + (n + 1)][n] == work[plast];
      ok := true;
    }

    /** What outputtabs does with a space. */
    method Space(ghost w0: string, ghost first: nat, ghost goal: string, mark0: nat, tlast0: nat, logcol0: int, tabs0: int)
      returns (mark: nat, tlast: nat, logcol: int, tabs: int)
      requires Pending(memory, w0, work[..], first, mark0, tlast0, pfirst, plast + 1, logcol0, tabs0, goal)
      modifies work
      ensures Looking(memory, w0, work[..], first, mark, tlast, pfirst, plast + 1, logcol, tabs, goal)
    {
      ghost var w := work[..];
      mark, tlast, logcol, tabs := mark0, tlast0, logcol0, tabs0;
      Put(tlast, ' ');
      tlast, logcol := tlast + 1, logcol + 1;
      if logcol == memory(tabs) {
        PutTab(memory, w0, w, first, mark0, tlast0, pfirst, plast + 1, logcol0, tabs0, goal);
        Put(mark, '\t');
        mark := mark + 1;
        tlast := mark;
        tabs := tabs + 1;
      } else {
        PutSpace(memory, w0, w, first, mark0, tlast0, pfirst, plast + 1, logcol0, tabs0, goal);
      }
    }

    /** One more space. */
    method NextSpace(ghost w0: string, ghost first: nat, ghost goal: string, mark0: nat, tlast0: nat, logcol0: int, tabs0: int)
      returns (mark: nat, tlast: nat, logcol: int, tabs: int)
      requires Looking(memory, w0, work[..], first, mark0, tlast0, pfirst, plast + 1, logcol0, tabs0, goal)
      requires work[..][pfirst] == ' ' && plast < |w0| && w0[plast] == '\n'
      modifies work, this`pfirst
      ensures pfirst == old(pfirst) + 1 && Looking(memory, w0, work[..], first, mark, tlast, pfirst, plast + 1, logcol, tabs, goal)
    {
      AnotherSpace(memory, w0, work[..], first, mark0, tlast0, pfirst, plast + 1, logcol0, tabs0, goal);
      pfirst := pfirst + 1;
      mark, tlast, logcol, tabs := Space(w0, first, goal, mark0, tlast0, logcol0, tabs0);
    }

    /** All the spaces that follow. */
    method MoreSpaces(ghost w0: string, ghost first: nat, ghost goal: string, mark0: nat, tlast0: nat, logcol0: int, tabs0: int)
      returns (ghost mark: nat, tlast: nat, logcol: int, tabs: int)
      requires Looking(memory, w0, work[..], first, mark0, tlast0, pfirst, plast + 1, logcol0, tabs0, goal) && w0[plast] == '\n'
      modifies work, this`pfirst
      ensures pfirst >= old(pfirst) && Looking(memory, w0, work[..], first, mark, tlast, pfirst, plast + 1, logcol, tabs, goal)
      ensures work[..][pfirst] != ' '
    {
      var m := mark0;
      tlast, logcol, tabs := tlast0, logcol0, tabs0;
      while work[pfirst] == ' '
        invariant old(pfirst) <= pfirst && Looking(memory, w0, work[..], first, m, tlast, pfirst, plast + 1, logcol, tabs, goal)
        decreases plast - pfirst
      {
        m, tlast, logcol, tabs := NextSpace(w0, first, goal, m, tlast, logcol, tabs);
      }
      mark := m;
    }

    /** The inner loop of outputtabs, after a space was read. */
    method Blanks(ghost w0: string, ghost first: nat, ghost goal: string, tlast0: nat, logcol0: int, tabs0: int)
      returns (tlast: nat, logcol: int, tabs: int)
      requires Pending(memory, w0, work[..], first, tlast0, tlast0, pfirst, plast + 1, logcol0, tabs0, goal) && w0[plast] == '\n'
      modifies work, this`pfirst
      ensures pfirst >= old(pfirst) && Contracting(memory, w0, work[..], first, tlast, pfirst, plast + 1, logcol, tabs, goal)
    {
      var mark;
      ghost var m;
      mark, tlast, logcol, tabs := Space(w0, first, goal, tlast0, tlast0, logcol0, tabs0);
      m, tlast, logcol, tabs := MoreSpaces(w0, first, goal, mark, tlast, logcol, tabs);
      NoOtherSpace(memory, w0, work[..], first, m, tlast, pfirst, plast + 1, logcol, tabs, goal);
    }

    /** outputtabs comes to a space. */
    method ToSpace(ghost w0: string, ghost first: nat, ghost goal: string, tlast0: nat, logcol0: int, tabs0: int)
      returns (tlast: nat, logcol: int, tabs: int)
      requires Contracting(memory, w0, work[..], first, tlast0, pfirst, plast + 1, logcol0, tabs0, goal)
      requires pfirst <= plast && work[..][pfirst] == ' ' && w0[plast] == '\n'
      modifies work, this`pfirst
      ensures pfirst > old(pfirst) && Contracting(memory, w0, work[..], first, tlast, pfirst, plast + 1, logcol, tabs, goal)
    {
      ReadSpace(memory, w0, work[..], first, tlast0, pfirst, plast + 1, logcol0, tabs0, goal);
      pfirst := pfirst + 1;
      tlast, logcol, tabs := Blanks(w0, first, goal, tlast0, logcol0, if logcol0 == memory(tabs0) then tabs0 + 1 else tabs0);
    }

    /** What outputtabs does with a character that is not a space. */
    method Other(ghost w0: string, ghost first: nat, ghost goal: string, tlast0: nat, logcol0: int, tabs0: int)
      returns (tlast: nat, logcol: int, tabs: int)
      requires pfirst <= plast && Contracting(memory, w0, work[..], first, tlast0, pfirst, plast + 1, logcol0, tabs0, goal)
      requires work[..][pfirst] != ' '
      modifies work, this`pfirst
      ensures pfirst == old(pfirst) + 1 && Contracting(memory, w0, work[..], first, tlast, pfirst, plast + 1, logcol, tabs, goal)
    {
      ReadOther(memory, w0, work[..], first, tlast0, pfirst, plast + 1, logcol0, tabs0, goal);
      tabs := if logcol0 == memory(tabs0) then tabs0 + 1 else tabs0;
      var c := work[pfirst];
      pfirst := pfirst + 1;
      Put(tlast0, c);
      tlast := tlast0 + 1;
      if c == BS {
        logcol := Back(logcol0);
        tabs := BackStop(memory, logcol, tabs);
      } else {
        logcol := logcol0 + 1;
      }
    }

    /** The loop of outputtabs. */
    method Contractline(ghost w0: string, ghost goal: string, p: int) returns (tlast: nat, ghost logcol: int, ghost tabs: int)
      requires Contracting(memory, w0, work[..], pfirst, pfirst, pfirst, plast + 1, 1, p, goal) && plast < |w0| && w0[plast] == '\n'
      modifies work, this`pfirst
      ensures pfirst == plast + 1 && Contracting(memory, w0, work[..], old(pfirst), tlast, pfirst, pfirst, logcol, tabs, goal)
    {
      ghost var tfirst := pfirst;
      var col, k := 1, p;
      tlast := pfirst;
      while pfirst <= plast
        invariant Contracting(memory, w0, work[..], tfirst, tlast, pfirst, plast + 1, col, k, goal)
        decreases plast + 1 - pfirst
      {
        if work[pfirst] == ' ' {
          tlast, col, k := ToSpace(w0, tfirst, goal, tlast, col, k);
        } else {
          tlast, col, k := Other(w0, tfirst, goal, tlast, col, k);
        }
      }
      logcol, tabs := col, k;
    }

    /** outputtabs: the line is contracted in place. */
    method Outputtabs(p: int)
      requires Valid()
      modifies this, work
      ensures Valid() && pfirst == old(pfirst) && Line() == Contracted(memory, old(Line()), 1, p)
    {
      ghost var w0, goal := work[..], Contracted(memory, Line(), 1, p);
      var tfirst := pfirst;
      ghost var logcol, tabs;
      var tlast;
      tlast, logcol, tabs := Contractline(w0, goal, p);
      OutputEnds(memory, w0, work[..], tfirst, tlast, pfirst, old(plast), p, logcol, tabs, goal);
      pfirst := tfirst;
      plast := tlast - 1;
    }

    /** Spaces up to the next stop. */
    method Fill(tlast0: nat, logcol0: int, k: int) returns (tlast: nat, logcol: int)
      requires tlast0 + Gap(memory, logcol0, k) <= work.Length
      modifies work
      ensures tlast == tlast0 + Gap(memory, logcol0, k) && logcol == logcol0 + Gap(memory, logcol0, k)
      ensures work[..] == Over(old(work[..]), tlast0, Spaces(Gap(memory, logcol0, k)))
    {
      ghost var w := work[..];
      tlast, logcol := tlast0, logcol0;
      assert Over(w, tlast0, Spaces(0)) == w;
      while logcol < memory(k)
        invariant tlast0 <= tlast <= tlast0 + Gap(memory, logcol0, k) && logcol - logcol0 == tlast - tlast0
        invariant tlast + Gap(memory, logcol, k) == tlast0 + Gap(memory, logcol0, k)
        invariant work[..] == Over(w, tlast0, Spaces(tlast - tlast0))
      {
        SpacedMore(w, tlast0, tlast - tlast0);
        Put(tlast, ' ');
        tlast, logcol := tlast + 1, logcol + 1;
      }
    }

    /** What inputtabs does with a tab. */
    method Tab(tlast0: nat, logcol0: int, tabs0: int) returns (tlast: nat, logcol: int, tabs: int)
      requires pfirst < work.Length && work[pfirst] == '\t' && Fits(memory, work[..], tlast0, pfirst, logcol0, tabs0)
      modifies work, this`pfirst
      ensures pfirst == old(pfirst) + 1
      ensures Turned(memory, old(work[..]), tlast0, old(pfirst), logcol0, tabs0, work[..], tlast, logcol, tabs)
    {
      var k := if logcol0 >= memory(tabs0) then tabs0 + 1 else tabs0;
      pfirst := pfirst + 1;
      tlast, logcol := Fill(tlast0, logcol0, k);
      tabs := k + 1;
    }

    /** What inputtabs does with another character. */
    method NoTab(tlast0: nat, logcol0: int, tabs0: int) returns (tlast: nat, logcol: int, tabs: int)
      requires pfirst < work.Length && work[pfirst] != '\t' && Fits(memory, work[..], tlast0, pfirst, logcol0, tabs0)
      modifies work, this`pfirst
      ensures pfirst == old(pfirst) + 1
      ensures Turned(memory, old(work[..]), tlast0, old(pfirst), logcol0, tabs0, work[..], tlast, logcol, tabs)
    {
      tabs := if logcol0 >= memory(tabs0) then tabs0 + 1 else tabs0;
      var c := work[pfirst];
      pfirst := pfirst + 1;
      Put(tlast0, c);
      tlast := tlast0 + 1;
      if c == BS {
        logcol := Back(logcol0);
        tabs := BackStop(memory, logcol, tabs);
      } else {
        logcol := logcol0 + 1;
      }
    }

    /** The switch of inputtabs. */
    method Character(tlast0: nat, logcol0: int, tabs0: int) returns (tlast: nat, logcol: int, tabs: int)
      requires pfirst < work.Length && Fits(memory, work[..], tlast0, pfirst, logcol0, tabs0)
      modifies work, this`pfirst
      ensures pfirst == old(pfirst) + 1
      ensures Turned(memory, old(work[..]), tlast0, old(pfirst), logcol0, tabs0, work[..], tlast, logcol, tabs)
    {
      if work[pfirst] == '\t' {
        tlast, logcol, tabs := Tab(tlast0, logcol0, tabs0);
      } else {
        tlast, logcol, tabs := NoTab(tlast0, logcol0, tabs0);
      }
    }

    /** One turn, on the way to goal. */
    method Turn(ghost goal: string, tlast0: nat, logcol0: int, tabs0: int) returns (tlast: nat, logcol: int, tabs: int)
      requires pfirst <= plast && Leaves(memory, work[..], tlast0, pfirst, plast + 1, logcol0, tabs0) == Front(goal)
      modifies work, this`pfirst
      ensures pfirst == old(pfirst) + 1 && Leaves(memory, work[..], tlast, pfirst, plast + 1, logcol, tabs) == Front(goal)
    {
      LeavesOn(memory, work[..], tlast0, pfirst, plast + 1, logcol0, tabs0);
      tlast, logcol, tabs := Character(tlast0, logcol0, tabs0);
    }

    /** The loop of inputtabs. */
    method Expandline(ghost goal: string, p: int) returns (tlast: nat)
      requires plast < work.Length && Leaves(memory, work[..], 0, pfirst, plast + 1, 1, p) == Front(goal)
      modifies work, this`pfirst
      ensures tlast <= work.Length && work[..tlast] == goal
    {
      var logcol, tabs := 1, p;
      tlast := 0;
      while pfirst <= plast
        invariant Leaves(memory, work[..], tlast, pfirst, plast + 1, logcol, tabs) == Front(goal)
        decreases plast + 1 - pfirst
      {
        tlast, logcol, tabs := Turn(goal, tlast, logcol, tabs);
      }
    }

    /** From the middle of the work area to its front. */
    method Infront(p: int)
      requires Valid() && pfirst == NCOLS && |Written(memory, Line(), 1, p, NCOLS)| <= work.Length
      modifies this, work
      ensures Within() && pfirst == 0 && Line() == Written(memory, old(Line()), 1, p, NCOLS)
    {
      ghost var goal := Written(memory, Line(), 1, p, NCOLS);
      LeavesWritten(memory, work[..], plast, p, goal);
      var tlast := Expandline(goal, p);
      pfirst := 0;
      plast := tlast - 1;
    }

    /** inputtabs: the line is expanded to the front of the work area, if and only if no part of it expands so far that it
        reaches what is still to be read, which begins in the middle; otherwise the newline is lost as well. The
        requirement is that what is written stays in the work area. */
    method Inputtabs(p: int) returns (ok: bool)
      requires Valid() && (plast - pfirst <= MAXLINE ==> |Written(memory, Line(), 1, p, NCOLS)| <= work.Length)
      modifies this, work
      ensures ok <==> old(plast - pfirst) <= MAXLINE
      ensures ok ==> Within() && pfirst == 0 && Line() == Written(memory, old(Line()), 1, p, NCOLS)
      ensures ok ==> (Line() == Expanded(memory, old(Line()), 1, p) <==> Keeps(memory, old(Line()), 1, p, NCOLS))
      ensures ok ==> (Valid() <==> Keeps(memory, old(Line()), 1, p, NCOLS))
    {
      ghost var line := Line();
      assert line[plast - pfirst] == work[plast];
      WrittenExactly(memory, line, 1, p, NCOLS);
      ok := Center();
      if ok {
        Infront(p);
        assert Line()[plast - pfirst] == work[plast];
      }
    }

    /** The line that is a tab and then "ab", with a stop that is too far away: the letters and the newline are lost, and all
        that comes out are spaces. */
    method Damaged(far: int)
      requires Valid() && Line() == "\tab\n" && memory(0) == 1 && memory(1) == far && NCOLS + 3 <= far < 3 * NCOLS
      modifies this, work
      ensures Within() && !Valid() && pfirst == 0 && Line() == Spaces(far + 2)
    {
      TooFar(memory, far, Line());
      assert |Line()| == 4;
      var ok := Inputtabs(0);
    }

    /** Contracting and expanding with the same stops gives the line again. */
    method OutAndIn(p: int, ghost stops: seq<int>) returns (ok: bool)
      requires Valid() && plast - pfirst <= MAXLINE && Plain(Line()) && IsSpec(memory, p, stops)
      modifies this, work
      ensures ok && Valid() && Line() == old(Line())
    {
      RoundTrip(memory, p, stops, Line());
      ghost var short := Contracted(memory, Line(), 1, p);
      ShortKeeps(memory, short, 1, p, NCOLS);
      Outputtabs(p);
      assert Line()[plast - pfirst] == work[plast];
      WrittenExactly(memory, short, 1, p, NCOLS);
      ok := Inputtabs(p);
    }
  }

  lemma OutputEnds(t: Memory, w0: string, w: string, first: nat, tlast: nat, pf: nat, last: nat, p: int, col: int, k: int, goal: string)
    requires Contracting(t, w0, w, first, tlast, pf, pf, col, k, goal) && first <= last < |w0| && w0[last] == '\n'
    requires goal == Contracted(t, w0[first..last + 1], 1, p)
    ensures w[first..tlast] == goal && tlast > first && w[tlast - 1] == '\n'
  {
    ContractedEnded(t, w0[first..last + 1], 1, p);
    assert w[first..tlast][tlast - first - 1] == w[tlast - 1];
  }
}
