/**
  newform: what expanding and contracting tabs does to a line. Memory from the tab specification on is a function:
  nothing is known of what comes behind the zero that ends the specification, where inputtabs may go on reading.
*/
module Tabs {

  type Memory = int -> int

  const BS: char := '\U{0008}'

  function Spaces(n: nat): (s: string)
    ensures |s| == n && forall i :: 0 <= i < n ==> s[i] == ' '
  {
    seq(n, _ => ' ')
  }

  /** The tab stops of a specification that begins at p: they increase from 1, and a zero ends them. */
  ghost predicate IsSpec(t: Memory, p: int, stops: seq<int>) {
    && stops != [] && stops[0] == 1 && t(p + |stops|) == 0
    && (forall j :: 0 <= j < |stops| ==> t(p + j) == stops[j])
    && forall i, j :: 0 <= i < j < |stops| ==> stops[i] < stops[j]
  }

  ghost predicate Plain(s: string) {
    forall i :: 0 <= i < |s| ==> s[i] != '\t' && s[i] != BS
  }

  // ---------------------------------------------------------------------
  // inputtabs and outputtabs as functions of the rest of the line, the column and the tab pointer
  // ---------------------------------------------------------------------

  /** A backspace: the column, and the pointer to the next stop. */
  function Back(col: int): int { if col > 1 then col - 1 else col }

  function BackStop(t: Memory, col: int, k: int): int { if col < t(k) then k - 1 else k }

  /** The pointer before a character is expanded. */
  function Moved(t: Memory, col: int, k: int): int { if col >= t(k) then k + 1 else k }

  /** How many columns a tab covers. */
  function Gap(t: Memory, col: int, l: int): nat {
    if col < t(l) then t(l) - col else 0
  }

  /** What a character expands to, and the column and the pointer behind it. */
  function Piece(t: Memory, c: char, col: int, l: int): string {
    if c == '\t' then Spaces(Gap(t, col, l)) else [c]
  }

  function ColBehind(t: Memory, c: char, col: int, l: int): int {
    if c == '\t' then col + Gap(t, col, l) else if c == BS then Back(col) else col + 1
  }

  function StopBehind(t: Memory, c: char, col: int, l: int): int {
    if c == '\t' then l + 1 else if c == BS then BackStop(t, Back(col), l) else l
  }

  function Expanded(t: Memory, s: string, col: int, k: int): string {
    if s == "" then ""
    else
      var l := Moved(t, col, k);
      Piece(t, s[0], col, l) + Expanded(t, s[1..], ColBehind(t, s[0], col, l), StopBehind(t, s[0], col, l))
  }

  function Contracted(t: Memory, s: string, col: int, k: int): string
    decreases |s|, 0
  {
    if s == "" then ""
    else
      var k := if col == t(k) then k + 1 else k;
      if s[0] == BS then [s[0]] + Contracted(t, s[1..], Back(col), BackStop(t, Back(col), k))
      else if s[0] == ' ' then Blank(t, s[1..], col, k, 0)
      else [s[0]] + Contracted(t, s[1..], col + 1, k)
  }

  /** A space was read behind n spaces since the last stop. */
  function Blank(t: Memory, s: string, col: int, k: int, n: nat): string
    decreases |s|, 2
  {
    if col + 1 == t(k) then ['\t'] + More(t, s, col + 1, k + 1, 0) else More(t, s, col + 1, k, n + 1)
  }

  /** Looking for another space behind n spaces since the last stop. */
  function More(t: Memory, s: string, col: int, k: int, n: nat): string
    decreases |s|, 1
  {
    if s != "" && s[0] == ' ' then Blank(t, s[1..], col, k, n) else Spaces(n) + Contracted(t, s, col, k)
  }

  // ---------------------------------------------------------------------
  // A contracted line is not longer
  // ---------------------------------------------------------------------

  lemma {:induction false} NotLonger(t: Memory, s: string, col: int, k: int)
    ensures |Contracted(t, s, col, k)| <= |s|
    decreases |s|, 0
  {
    if s != "" {
      var k := if col == t(k) then k + 1 else k;
      if s[0] == BS {
        NotLonger(t, s[1..], Back(col), BackStop(t, Back(col), k));
      } else if s[0] == ' ' {
        BlankNotLonger(t, s[1..], col, k, 0);
      } else {
        NotLonger(t, s[1..], col + 1, k);
      }
    }
  }

  lemma {:induction false} BlankNotLonger(t: Memory, s: string, col: int, k: int, n: nat)
    ensures |Blank(t, s, col, k, n)| <= n + 1 + |s|
    decreases |s|, 2
  {
    if col + 1 == t(k) { MoreNotLonger(t, s, col + 1, k + 1, 0); } else { MoreNotLonger(t, s, col + 1, k, n + 1); }
  }

  lemma {:induction false} MoreNotLonger(t: Memory, s: string, col: int, k: int, n: nat)
    ensures |More(t, s, col, k, n)| <= n + |s|
    decreases |s|, 1
  {
    if s != "" && s[0] == ' ' { BlankNotLonger(t, s[1..], col, k, n); } else { NotLonger(t, s, col, k); }
  }

  // ---------------------------------------------------------------------
  // The newline stays at the end
  // ---------------------------------------------------------------------

  predicate Ended(s: string) { s != "" && s[|s| - 1] == '\n' }

  lemma {:induction false} ContractedEnded(t: Memory, s: string, col: int, k: int)
    requires Ended(s)
    ensures Ended(Contracted(t, s, col, k))
    decreases |s|, 0
  {
    var k := if col == t(k) then k + 1 else k;
    if |s| > 1 {
      if s[0] == BS {
        ContractedEnded(t, s[1..], Back(col), BackStop(t, Back(col), k));
      } else if s[0] == ' ' {
        BlankEnded(t, s[1..], col, k, 0);
      } else {
        ContractedEnded(t, s[1..], col + 1, k);
      }
    }
  }

  lemma {:induction false} BlankEnded(t: Memory, s: string, col: int, k: int, n: nat)
    requires Ended(s)
    ensures Ended(Blank(t, s, col, k, n))
    decreases |s|, 2
  {
    if col + 1 == t(k) { MoreEnded(t, s, col + 1, k + 1, 0); } else { MoreEnded(t, s, col + 1, k, n + 1); }
  }

  lemma {:induction false} MoreEnded(t: Memory, s: string, col: int, k: int, n: nat)
    requires Ended(s)
    ensures Ended(More(t, s, col, k, n))
    decreases |s|, 1
  {
    if s[0] == ' ' { BlankEnded(t, s[1..], col, k, n); } else { ContractedEnded(t, s, col, k); }
  }

  lemma AppendEnded(a: string, b: string)
    requires Ended(b)
    ensures Ended(a + b)
  {
  }

  lemma {:induction false} ExpandedEnded(t: Memory, s: string, col: int, k: int)
    requires Ended(s)
    ensures Ended(Expanded(t, s, col, k))
  {
    var l := Moved(t, col, k);
    var rest := Expanded(t, s[1..], ColBehind(t, s[0], col, l), StopBehind(t, s[0], col, l));
    if |s| == 1 {
      assert Piece(t, s[0], col, l) + rest == "\n";
    } else {
      ExpandedEnded(t, s[1..], ColBehind(t, s[0], col, l), StopBehind(t, s[0], col, l));
      AppendEnded(Piece(t, s[0], col, l), rest);
    }
  }

  // ---------------------------------------------------------------------
  // Contracting and then expanding
  // ---------------------------------------------------------------------

  lemma {:induction false} ExpandedPlain(t: Memory, s: string, col: int, k: int)
    requires Plain(s)
    ensures Expanded(t, s, col, k) == s
  {
    if s != "" { ExpandedPlain(t, s[1..], col + 1, if col >= t(k) then k + 1 else k); }
  }

  /** Behind the last stop all is kept. */
  lemma {:induction false} KeptPlain(t: Memory, s: string, col: int, k: int)
    requires Plain(s) && t(k) == 0 && col >= 1
    ensures Contracted(t, s, col, k) == s
    decreases |s|, 0
  {
    if s != "" {
      if s[0] == ' ' {
        KeptBlank(t, s[1..], col, k, 0);
        assert Spaces(1) + s[1..] == s;
      } else {
        KeptPlain(t, s[1..], col + 1, k);
      }
    }
  }

  lemma {:induction false} KeptBlank(t: Memory, s: string, col: int, k: int, n: nat)
    requires Plain(s) && t(k) == 0 && col >= 1
    ensures Blank(t, s, col, k, n) == Spaces(n + 1) + s
    decreases |s|, 2
  {
    KeptMore(t, s, col + 1, k, n + 1);
  }

  lemma {:induction false} KeptMore(t: Memory, s: string, col: int, k: int, n: nat)
    requires Plain(s) && t(k) == 0 && col >= 1
    ensures More(t, s, col, k, n) == Spaces(n) + s
    decreases |s|, 1
  {
    if s != "" && s[0] == ' ' {
      KeptBlank(t, s[1..], col, k, n);
      assert Spaces(n + 1) + s[1..] == Spaces(n) + s;
    } else {
      KeptPlain(t, s, col, k);
    }
  }

  /** Spaces that do not come to a stop. */
  lemma {:induction false} ExpandedSpaces(t: Memory, n: nat, s: string, col: int, k: int)
    requires col + n < t(k)
    ensures Expanded(t, Spaces(n) + s, col, k) == Spaces(n) + Expanded(t, s, col + n, k)
  {
    if n == 0 {
      assert Spaces(n) + s == s;
    } else {
      var r := Spaces(n) + s;
      assert r[1..] == Spaces(n - 1) + s;
      ExpandedSpaces(t, n - 1, s, col + 1, k);
      assert [' '] + (Spaces(n - 1) + Expanded(t, s, col + n, k)) == Spaces(n) + Expanded(t, s, col + n, k);
    }
  }

  /** The pointer is in the specification, and the stop it points to is not behind least. */
  ghost predicate Ahead(t: Memory, p: int, stops: seq<int>, k: int, least: int) {
    IsSpec(t, p, stops) && p <= k <= p + |stops| && (k < p + |stops| ==> t(k) >= least)
  }

  lemma NextStop(t: Memory, p: int, stops: seq<int>, k: int, least: int)
    requires Ahead(t, p, stops, k, least) && k < p + |stops|
    ensures Ahead(t, p, stops, k + 1, t(k) + 1) && t(k) >= 1
  {
    var j := k - p;
    assert t(p + j) == stops[j] && stops[0] <= stops[j];
    if j + 1 < |stops| { assert t(p + (j + 1)) == stops[j + 1]; }
  }

  /** A tab, n columns in front of the next stop. */
  lemma ExpandedTab(t: Memory, s: string, col: int, n: nat, k: int, k': int)
    requires n > 0 && t(k) == col + n && k == if col >= t(k') then k' + 1 else k'
    ensures Expanded(t, ['\t'] + s, col, k') == Spaces(n) + Expanded(t, s, col + n, k + 1)
  {
    assert (['\t'] + s)[1..] == s;
  }

  lemma BlankTab(t: Memory, s: string, col: int, k: int, n: nat, k': int)
    requires col + 1 == t(k) && k == if col - n >= t(k') then k' + 1 else k'
    requires Expanded(t, More(t, s, col + 1, k + 1, 0), col + 1, k + 1) == s
    ensures Expanded(t, Blank(t, s, col, k, n), col - n, k') == Spaces(n + 1) + s
  {
    ExpandedTab(t, More(t, s, col + 1, k + 1, 0), col - n, n + 1, k, k');
  }

  lemma {:induction false} BackAgain(t: Memory, p: int, stops: seq<int>, s: string, col: int, k: int, k': int)
    requires Plain(s) && Ahead(t, p, stops, k, col) && col >= 1 && (k' == k || k == p + |stops|)
    ensures Expanded(t, Contracted(t, s, col, k), col, k') == s
    decreases |s|, 1
  {
    if k == p + |stops| {
      KeptPlain(t, s, col, k);
      ExpandedPlain(t, s, col, k');
    } else if s != "" {
      if col == t(k) {
        NextStop(t, p, stops, k, col);
        BackFrom(t, p, stops, s, col, k + 1, k');
      } else {
        BackFrom(t, p, stops, s, col, k, k');
      }
    }
  }

  lemma PlainStep(t: Memory, c: char, s: string, col: int, k: int, k': int)
    requires c != '\t' && c != BS && k == if col >= t(k') then k' + 1 else k'
    ensures Expanded(t, [c] + s, col, k') == [c] + Expanded(t, s, col + 1, k)
  {
    assert ([c] + s)[1..] == s;
  }

  /** The pointer k was moved on if need be; k' was not. */
  lemma {:induction false} BackFrom(t: Memory, p: int, stops: seq<int>, s: string, col: int, k: int, k': int)
    requires Plain(s) && s != "" && Ahead(t, p, stops, k, col + 1) && col >= 1 && k == if col >= t(k') then k' + 1 else k'
    requires k' == k || col == t(k')
    ensures Expanded(t, Contracted(t, s, col, k'), col, k') == s
    decreases |s|, 0
  {
    if s[0] == ' ' {
      BlankBack(t, p, stops, s[1..], col, k, 0, k');
      assert Spaces(1) + s[1..] == s;
    } else {
      PlainStep(t, s[0], Contracted(t, s[1..], col + 1, k), col, k, k');
      BackAgain(t, p, stops, s[1..], col + 1, k, k);
    }
  }

  lemma {:induction false} BlankBack(t: Memory, p: int, stops: seq<int>, s: string, col: int, k: int, n: nat, k': int)
    requires Plain(s) && Ahead(t, p, stops, k, col + 1) && col - n >= 1
    requires k == p + |stops| || k == if col - n >= t(k') then k' + 1 else k'
    ensures Expanded(t, Blank(t, s, col, k, n), col - n, k') == Spaces(n + 1) + s
    decreases |s|, 3
  {
    if k == p + |stops| {
      KeptBlank(t, s, col, k, n);
      ExpandedPlain(t, Spaces(n + 1) + s, col - n, k');
    } else if col + 1 == t(k) {
      NextStop(t, p, stops, k, col + 1);
      MoreBack(t, p, stops, s, col + 1, k + 1, 0, k + 1);
      assert Spaces(0) + s == s;
      BlankTab(t, s, col, k, n, k');
    } else {
      MoreBack(t, p, stops, s, col + 1, k, n + 1, k');
    }
  }

  lemma {:induction false} MoreBack(t: Memory, p: int, stops: seq<int>, s: string, col: int, k: int, n: nat, k': int)
    requires Plain(s) && Ahead(t, p, stops, k, col + 1) && col - n >= 1
    requires k == p + |stops| || k == if col - n >= t(k') then k' + 1 else k'
    ensures Expanded(t, More(t, s, col, k, n), col - n, k') == Spaces(n) + s
    decreases |s|, 2
  {
    if k == p + |stops| {
      KeptMore(t, s, col, k, n);
      ExpandedPlain(t, Spaces(n) + s, col - n, k');
    } else if s != "" && s[0] == ' ' {
      BlankBack(t, p, stops, s[1..], col, k, n, k');
      assert Spaces(n + 1) + s[1..] == Spaces(n) + s;
    } else {
      BackAgain(t, p, stops, s, col, k, k);
      ExpandedSpaces(t, n, Contracted(t, s, col, k), col - n, k);
      Adjusted(t, Spaces(n) + Contracted(t, s, col, k), col - n, k, k');
    }
  }

  /** Moving the pointer on beforehand makes no difference. */
  lemma Adjusted(t: Memory, s: string, col: int, k: int, k': int)
    requires col < t(k) && k == if col >= t(k') then k' + 1 else k'
    ensures Expanded(t, s, col, k') == Expanded(t, s, col, k)
  {
  }

  /** Any line without tabs and backspaces comes back. */
  lemma RoundTrip(t: Memory, p: int, stops: seq<int>, s: string)
    requires IsSpec(t, p, stops) && Plain(s)
    ensures Expanded(t, Contracted(t, s, 1, p), 1, p) == s && |Contracted(t, s, 1, p)| <= |s|
  {
    assert t(p + 0) == stops[0];
    BackAgain(t, p, stops, s, 1, p, p);
    NotLonger(t, s, 1, p);
  }

  // ---------------------------------------------------------------------
  // Lines with backspaces
  // ---------------------------------------------------------------------

  /** The column behind a text that is printed from column col on. */
  function Cursor(text: string, col: int): int {
    if text == "" then col
    else Cursor(text[1..], if text[0] != BS then col + 1 else if col > 1 then col - 1 else 1)
  }

  /** The pointer l is to the first stop behind column col. */
  ghost predicate OnStop(t: Memory, p: int, stops: seq<int>, col: int, l: int) {
    IsSpec(t, p, stops) && p < l < p + |stops| && 1 <= col && t(l - 1) <= col < t(l)
  }

  lemma StopsGrow(t: Memory, p: int, stops: seq<int>, i: int, j: int)
    requires IsSpec(t, p, stops) && p <= i < j < p + |stops|
    ensures 1 <= t(i) < t(j)
  {
    assert t(p + (i - p)) == stops[i - p] && t(p + (j - p)) == stops[j - p];
    assert stops[0] <= stops[i - p];
  }

  ghost predicate InFront(stops: seq<int>, col: int) {
    stops != [] && col < stops[|stops| - 1]
  }

  lemma LastIs(t: Memory, p: int, stops: seq<int>, l: int)
    requires IsSpec(t, p, stops) && p <= l < p + |stops| && InFront(stops, t(l))
    ensures l + 1 < p + |stops|
  {
    assert t(p + (l - p)) == stops[l - p];
  }

  /** Behind a character the pointer is right again, as long as the column is in front of the last stop. */
  lemma NextPointer(t: Memory, p: int, stops: seq<int>, c: char, col: int, l: int)
    requires OnStop(t, p, stops, col, l) && InFront(stops, ColBehind(t, c, col, l))
    ensures var col', k' := ColBehind(t, c, col, l), StopBehind(t, c, col, l); OnStop(t, p, stops, col', Moved(t, col', k'))
    ensures var l' := Moved(t, ColBehind(t, c, col, l), StopBehind(t, c, col, l)); if c == BS then l - 1 <= l' <= l else l <= l'
  {
    if c == '\t' {
      LastIs(t, p, stops, l);
      StopsGrow(t, p, stops, l, l + 1);
    } else if c == BS {
      if l - 1 > p { StopsGrow(t, p, stops, l - 2, l - 1); }
      assert t(p + 0) == stops[0];
    } else if col + 1 == t(l) {
      LastIs(t, p, stops, l);
      StopsGrow(t, p, stops, l, l + 1);
    }
  }

  lemma FirstPointer(t: Memory, p: int, stops: seq<int>)
    requires IsSpec(t, p, stops) && InFront(stops, 1)
    ensures OnStop(t, p, stops, 1, Moved(t, 1, p))
  {
    assert t(p + 0) == stops[0];
    LastIs(t, p, stops, p);
    StopsGrow(t, p, stops, p, p + 1);
  }

  /** Column and pointer behind a part of a line. */
  function Behind(t: Memory, s: string, col: int, k: int): (int, int) {
    if s == "" then (col, k)
    else
      var l := Moved(t, col, k);
      Behind(t, s[1..], ColBehind(t, s[0], col, l), StopBehind(t, s[0], col, l))
  }

  lemma {:induction false} CursorSpaces(n: nat, text: string, col: int)
    ensures Cursor(Spaces(n) + text, col) == Cursor(text, col + n)
  {
    if n == 0 {
      assert Spaces(n) + text == text;
    } else {
      assert (Spaces(n) + text)[1..] == Spaces(n - 1) + text;
      CursorSpaces(n - 1, text, col + 1);
    }
  }

  /** The column that is counted is that of the expanded text. */
  lemma {:induction false} BehindCursor(t: Memory, s: string, col: int, k: int)
    requires col >= 1
    ensures Behind(t, s, col, k).0 == Cursor(Expanded(t, s, col, k), col)
  {
    if s != "" {
      var l := Moved(t, col, k);
      var rest := Expanded(t, s[1..], ColBehind(t, s[0], col, l), StopBehind(t, s[0], col, l));
      BehindCursor(t, s[1..], ColBehind(t, s[0], col, l), StopBehind(t, s[0], col, l));
      if s[0] == '\t' { CursorSpaces(Gap(t, col, l), rest, col); } else { assert ([s[0]] + rest)[1..] == rest; }
    }
  }

  /** One character more. */
  lemma {:induction false} ExpandedMore(t: Memory, s: string, c: char, col: int, k: int)
    ensures var (col', k') := Behind(t, s, col, k); var l' := Moved(t, col', k');
            && Expanded(t, s + [c], col, k) == Expanded(t, s, col, k) + Piece(t, c, col', l')
            && Behind(t, s + [c], col, k) == (ColBehind(t, c, col', l'), StopBehind(t, c, col', l'))
  {
    if s == "" {
      assert s + [c] == [c] && [c][1..] == "";
    } else {
      var l := Moved(t, col, k);
      assert (s + [c])[1..] == s[1..] + [c];
      ExpandedMore(t, s[1..], c, ColBehind(t, s[0], col, l), StopBehind(t, s[0], col, l));
    }
  }

  /** All columns of the expanded line so far are in front of the last stop. */
  ghost predicate Short(t: Memory, p: int, stops: seq<int>, s: string) {
    forall i :: 0 <= i <= |s| ==> InFront(stops, Cursor(Expanded(t, s[..i], 1, p), 1))
  }

  lemma {:induction false} PointerBehind(t: Memory, p: int, stops: seq<int>, s: string)
    requires IsSpec(t, p, stops) && Short(t, p, stops, s)
    ensures var (col, k) := Behind(t, s, 1, p); OnStop(t, p, stops, col, Moved(t, col, k)) && col == Cursor(Expanded(t, s, 1, p), 1)
  {
    BehindCursor(t, s, 1, p);
    assert s[..|s|] == s;
    if s == "" {
      FirstPointer(t, p, stops);
    } else {
      var n := |s| - 1;
      forall i | 0 <= i <= n ensures s[..n][..i] == s[..i] {}
      PointerBehind(t, p, stops, s[..n]);
      assert s[..n] + [s[n]] == s;
      ExpandedMore(t, s[..n], s[n], 1, p);
      var (col, k) := Behind(t, s[..n], 1, p);
      NextPointer(t, p, stops, s[n], col, Moved(t, col, k));
    }
  }

  /** Stop j is the first one behind column col. */
  ghost predicate FirstBehind(stops: seq<int>, col: int, j: int) {
    0 <= j < |stops| && stops[j] > col && forall i :: 0 <= i < j ==> stops[i] <= col
  }

  lemma StopIs(t: Memory, p: int, stops: seq<int>, col: int, l: int)
    requires OnStop(t, p, stops, col, l)
    ensures FirstBehind(stops, col, l - p) && t(l) == stops[l - p]
  {
    var j := l - p;
    assert t(p + j) == stops[j] && t(p + (j - 1)) == stops[j - 1];
    forall i | 0 <= i < j ensures stops[i] <= col { if i < j - 1 { assert stops[i] < stops[j - 1]; } }
  }

  /** The next character of a line is put out as it is, or it is a tab and becomes the spaces up to the first stop behind
      the column reached, where a backspace counts as a column less. */
  lemma ExpandedNext(t: Memory, p: int, stops: seq<int>, s: string, c: char)
    requires IsSpec(t, p, stops) && Short(t, p, stops, s)
    ensures c != '\t' ==> Expanded(t, s + [c], 1, p) == Expanded(t, s, 1, p) + [c]
    ensures var e := Expanded(t, s, 1, p); var col := Cursor(e, 1);
            c == '\t' ==> exists j :: FirstBehind(stops, col, j) && Expanded(t, s + [c], 1, p) == e + Spaces(stops[j] - col)
  {
    PointerBehind(t, p, stops, s);
    ExpandedMore(t, s, c, 1, p);
    var (col, k) := Behind(t, s, 1, p);
    StopIs(t, p, stops, col, Moved(t, col, k));
  }

  // ---------------------------------------------------------------------
  // Contracting lines with backspaces
  // ---------------------------------------------------------------------

  function NextCol(c: char, col: int): int {
    if c != BS then col + 1 else if col > 1 then col - 1 else 1
  }

  /** There is no tab, and all columns are in front of the last stop. */
  ghost predicate Near(stops: seq<int>, s: string, col: int) {
    InFront(stops, col) && (s == "" || (s[0] != '\t' && Near(stops, s[1..], NextCol(s[0], col))))
  }

  lemma {:induction false} NearMeans(stops: seq<int>, s: string, col: int)
    requires '\t' !in s && forall i :: 0 <= i <= |s| ==> InFront(stops, Cursor(s[..i], col))
    ensures Near(stops, s, col)
  {
    assert s[..0] == "";
    if s != "" {
      forall i | 0 <= i <= |s[1..]| ensures InFront(stops, Cursor(s[1..][..i], NextCol(s[0], col))) {
        assert s[..i + 1][1..] == s[1..][..i];
      }
      NearMeans(stops, s[1..], NextCol(s[0], col));
    }
  }

  /** outputtabs is not ahead of the first stop behind its column; it may be behind after a backspace. */
  lemma {:induction false} BackC(t: Memory, p: int, stops: seq<int>, s: string, col: int, k: int, k': int)
    requires Near(stops, s, col) && OnStop(t, p, stops, col, Moved(t, col, k')) && p <= k <= Moved(t, col, k')
    ensures Expanded(t, Contracted(t, s, col, k), col, k') == s
    decreases |s|, 1
  {
    if s != "" {
      var l, j := Moved(t, col, k'), if col == t(k) then k + 1 else k;
      if s[0] == ' ' {
        BlankC(t, p, stops, s[1..], col, j, 0, k');
        assert Spaces(1) + s[1..] == s;
      } else {
        NextPointer(t, p, stops, s[0], col, l);
        var col', j' := ColBehind(t, s[0], col, l), if s[0] == BS then BackStop(t, Back(col), j) else j;
        assert t(p + 0) == stops[0];
        var c := Contracted(t, s[1..], col', j');
        assert ([s[0]] + c)[1..] == c;
        BackC(t, p, stops, s[1..], col', j', StopBehind(t, s[0], col, l));
      }
    }
  }

  lemma OneSpace(n: nat, x: string)
    requires n > 0
    ensures Spaces(n) + x == [' '] + (Spaces(n - 1) + x) && (Spaces(n) + x)[1..] == Spaces(n - 1) + x
  {
  }

  /** Spaces, with the pointer that they lead to. */
  lemma {:induction false} SpacesC(t: Memory, p: int, stops: seq<int>, n: nat, o: string, col: int, k: int) returns (k': int)
    requires OnStop(t, p, stops, col, Moved(t, col, k)) && InFront(stops, col + n)
    ensures Expanded(t, Spaces(n) + o, col, k) == Spaces(n) + Expanded(t, o, col + n, k')
    ensures OnStop(t, p, stops, col + n, Moved(t, col + n, k')) && Moved(t, col, k) <= Moved(t, col + n, k')
    decreases n
  {
    k' := k;
    if n == 0 {
      assert Spaces(n) + o == o;
    } else {
      var l := Moved(t, col, k);
      NextPointer(t, p, stops, ' ', col, l);
      k' := SpacesC(t, p, stops, n - 1, o, col + 1, l);
      OneSpace(n, o);
      OneSpace(n, Expanded(t, o, col + n, k'));
    }
  }

  /** The spaces since column m come to a stop. */
  lemma AtStop(t: Memory, p: int, stops: seq<int>, m: int, col: int, k: int, l: int)
    requires OnStop(t, p, stops, m, l) && p <= k <= l && m <= col && col + 1 == t(k) && InFront(stops, col + 1)
    ensures k == l && OnStop(t, p, stops, col + 1, l + 1) && Moved(t, col + 1, l + 1) == l + 1
  {
    if k < l - 1 { StopsGrow(t, p, stops, k, l - 1); }
    LastIs(t, p, stops, l);
    StopsGrow(t, p, stops, l, l + 1);
  }

  /** A space was read, behind n spaces that begin at column col - n. */
  lemma {:induction false} BlankC(t: Memory, p: int, stops: seq<int>, s: string, col: int, k: int, n: nat, k': int)
    requires Near(stops, s, col + 1) && OnStop(t, p, stops, col - n, Moved(t, col - n, k'))
    requires p <= k <= Moved(t, col - n, k') && (k == Moved(t, col - n, k') ==> col < t(k))
    ensures Expanded(t, Blank(t, s, col, k, n), col - n, k') == Spaces(n + 1) + s
    decreases |s|, 3
  {
    if col + 1 == t(k) {
      AtStop(t, p, stops, col - n, col, k, Moved(t, col - n, k'));
      MoreC(t, p, stops, s, col + 1, k + 1, 0, k + 1);
      assert Spaces(0) + s == s;
      ExpandedTab(t, More(t, s, col + 1, k + 1, 0), col - n, n + 1, k, k');
    } else {
      MoreC(t, p, stops, s, col + 1, k, n + 1, k');
    }
  }

  lemma {:induction false} MoreC(t: Memory, p: int, stops: seq<int>, s: string, col: int, k: int, n: nat, k': int)
    requires Near(stops, s, col) && OnStop(t, p, stops, col - n, Moved(t, col - n, k'))
    requires p <= k <= Moved(t, col - n, k') && (k == Moved(t, col - n, k') ==> col < t(k))
    ensures Expanded(t, More(t, s, col, k, n), col - n, k') == Spaces(n) + s
    decreases |s|, 2
  {
    if s != "" && s[0] == ' ' {
      BlankC(t, p, stops, s[1..], col, k, n, k');
      assert Spaces(n + 1) + s[1..] == Spaces(n) + s;
    } else {
      var k'' := SpacesC(t, p, stops, n, Contracted(t, s, col, k), col - n, k');
      BackC(t, p, stops, s, col, k, k'');
    }
  }

  /** A line without tabs comes back also with its backspaces, when it stays in front of the last stop. */
  lemma RoundTripBack(t: Memory, p: int, stops: seq<int>, s: string)
    requires IsSpec(t, p, stops) && '\t' !in s && forall i :: 0 <= i <= |s| ==> InFront(stops, Cursor(s[..i], 1))
    ensures Expanded(t, Contracted(t, s, 1, p), 1, p) == s
  {
    assert s[..0] == "";
    NearMeans(stops, s, 1);
    FirstPointer(t, p, stops);
    BackC(t, p, stops, s, 1, p, p);
  }

  // ---------------------------------------------------------------------
  // No line that expands to the same is shorter
  // ---------------------------------------------------------------------

  /** A line without backspaces whose tabs all lead to a stop of the specification. */
  ghost predicate Proper(t: Memory, end: int, o: string, col: int, k: int) {
    if o == "" then true
    else
      var k := if col >= t(k) then k + 1 else k;
      && o[0] != BS && (o[0] == '\t' ==> k < end && col < t(k))
      && Proper(t, end, o[1..], if o[0] == '\t' then t(k) else col + 1, if o[0] == '\t' then k + 1 else k)
  }

  lemma {:induction false} BlankCosts(t: Memory, s: string, col: int, k: int, n: nat)
    ensures |Blank(t, s, col, k, n + 1)| <= 1 + |Blank(t, s, col, k, n)|
    decreases |s|, 2
  {
    if col + 1 != t(k) { MoreCosts(t, s, col + 1, k, n + 1); }
  }

  lemma {:induction false} MoreCosts(t: Memory, s: string, col: int, k: int, n: nat)
    ensures |More(t, s, col, k, n + 1)| <= 1 + |More(t, s, col, k, n)|
    decreases |s|, 1
  {
    if s != "" && s[0] == ' ' { BlankCosts(t, s[1..], col, k, n); }
  }

  /** With no spaces read, going on is beginning again. */
  lemma MoreNone(t: Memory, s: string, col: int, k: int)
    requires t(k) != col
    ensures More(t, s, col, k, 0) == Contracted(t, s, col, k)
  {
    assert Spaces(0) + Contracted(t, s, col, k) == Contracted(t, s, col, k);
  }

  lemma SpaceCosts(t: Memory, s: string, col: int, k: int)
    requires col + 1 == t(k) ==> t(k + 1) != col + 1
    ensures |Blank(t, s, col, k, 0)| <= 1 + |Contracted(t, s, col + 1, k)|
  {
    if col + 1 == t(k) {
      MoreNone(t, s, col + 1, k + 1);
    } else {
      MoreNone(t, s, col + 1, k);
      MoreCosts(t, s, col + 1, k, 0);
    }
  }

  /** Spaces up to the next stop. */
  lemma {:induction false} SpacesToStop(t: Memory, m: nat, s: string, col: int, k: int, n: nat)
    requires m > 0 && col + m == t(k)
    ensures Blank(t, Spaces(m - 1) + s, col, k, n) == ['\t'] + More(t, s, t(k), k + 1, 0)
    decreases m
  {
    var r := Spaces(m - 1) + s;
    if m == 1 {
      assert r == s;
    } else {
      assert r[1..] == Spaces(m - 2) + s && r[0] == ' ';
      SpacesToStop(t, m - 1, s, col + 1, k, n + 1);
    }
  }

  lemma TabCosts(t: Memory, m: nat, s: string, col: int, k: int, l: int)
    requires m > 0 && col + m == t(l) && t(l + 1) != t(l) && l == if col == t(k) then k + 1 else k
    ensures |Contracted(t, Spaces(m) + s, col, k)| == 1 + |Contracted(t, s, t(l), l + 1)|
  {
    var x := Spaces(m) + s;
    assert x[0] == ' ' && x[1..] == Spaces(m - 1) + s;
    SpacesToStop(t, m, s, col, l, 0);
    MoreNone(t, s, t(l), l + 1);
  }

  lemma {:induction false} ShortestFrom(t: Memory, p: int, stops: seq<int>, o: string, col: int, k: int, k': int)
    requires Proper(t, p + |stops|, o, col, k) && Ahead(t, p, stops, k', col) && col >= 1
    requires k == k' || k >= k' == p + |stops|
    ensures |Contracted(t, Expanded(t, o, col, k), col, k')| <= |o|
    decreases |o|, 1
  {
    if o != "" {
      if k' < p + |stops| && col == t(k') {
        NextStop(t, p, stops, k', col);
        ShortestMoved(t, p, stops, o, col, k, k', k + 1, k' + 1);
      } else {
        ShortestMoved(t, p, stops, o, col, k, k', if col >= t(k) then k + 1 else k, k');
      }
    }
  }

  /** l and l' are the pointers when they were moved on. */
  lemma {:induction false} ShortestMoved(t: Memory, p: int, stops: seq<int>, o: string, col: int, k: int, k': int, l: int, l': int)
    requires o != "" && Proper(t, p + |stops|, o, col, k) && Ahead(t, p, stops, l', col + 1) && col >= 1
    requires l == (if col >= t(k) then k + 1 else k) && l' == (if col == t(k') then k' + 1 else k')
    requires l == l' || l >= l' == p + |stops|
    ensures |Contracted(t, Expanded(t, o, col, k), col, k')| <= |o|
    decreases |o|, 0
  {
    var x := Expanded(t, o, col, k);
    if o[0] == '\t' {
      var m, y := t(l) - col, Expanded(t, o[1..], t(l), l + 1);
      assert x == Spaces(m) + y;
      NextStop(t, p, stops, l, col + 1);
      TabCosts(t, m, y, col, k', l);
      ShortestFrom(t, p, stops, o[1..], t(l), l + 1, l + 1);
    } else {
      CharCosts(t, p, stops, o[0], Expanded(t, o[1..], col + 1, l), col, k', l');
      ShortestFrom(t, p, stops, o[1..], col + 1, l, l');
    }
  }

  /** A character of its own costs one at most. */
  lemma CharCosts(t: Memory, p: int, stops: seq<int>, c: char, y: string, col: int, k: int, l: int)
    requires c != '\t' && c != BS && Ahead(t, p, stops, l, col + 1) && col >= 1 && l == if col == t(k) then k + 1 else k
    ensures |Contracted(t, [c] + y, col, k)| <= 1 + |Contracted(t, y, col + 1, l)|
  {
    assert ([c] + y)[1..] == y;
    if c == ' ' {
      if l < p + |stops| { NextStop(t, p, stops, l, col + 1); }
      SpaceCosts(t, y, col, l);
    }
  }

  lemma Shortest(t: Memory, p: int, stops: seq<int>, s: string, o: string)
    requires IsSpec(t, p, stops) && Proper(t, p + |stops|, o, 1, p) && Expanded(t, o, 1, p) == s
    ensures |Contracted(t, s, 1, p)| <= |o|
  {
    assert t(p + 0) == stops[0];
    ShortestFrom(t, p, stops, o, 1, p, p);
  }

  // ---------------------------------------------------------------------
  // When it matters what lies behind the specification
  // ---------------------------------------------------------------------

  /** No tab is met with the pointer behind the zero that ends the specification. */
  ghost predicate Inside(t: Memory, end: int, o: string, col: int, k: int) {
    o == "" ||
    var l := Moved(t, col, k);
    (o[0] == '\t' ==> l <= end) && Inside(t, end, o[1..], ColBehind(t, o[0], col, l), StopBehind(t, o[0], col, l))
  }

  predicate NoBackspace(o: string) { forall i :: 0 <= i < |o| ==> o[i] != BS }

  /** Two pointers, of which the specification tells no more than one. */
  predicate Together(p: int, end: int, k: int, k': int) {
    (k == k' && p <= k <= end) || (k > end && k' > end)
  }

  lemma SameStop(t: Memory, u: Memory, p: int, stops: seq<int>, k: int)
    requires IsSpec(t, p, stops) && IsSpec(u, p, stops) && p <= k <= p + |stops|
    ensures t(k) == u(k)
  {
    var j := k - p;
    if j < |stops| { assert t(p + j) == stops[j] && u(p + j) == stops[j]; }
  }

  /** One character in two memories. */
  lemma SameStep(t: Memory, u: Memory, p: int, stops: seq<int>, c: char, col: int, k: int, k': int)
    requires IsSpec(t, p, stops) && IsSpec(u, p, stops) && Together(p, p + |stops|, k, k') && col >= 1 && c != BS
    ensures var l, l' := Moved(t, col, k), Moved(u, col, k');
            && Together(p, p + |stops|, l, l')
            && (c != '\t' || l <= p + |stops| ==>
                  && Piece(u, c, col, l') == Piece(t, c, col, l) && ColBehind(u, c, col, l') == ColBehind(t, c, col, l) >= col
                  && Together(p, p + |stops|, StopBehind(t, c, col, l), StopBehind(u, c, col, l')))
  {
    if k <= p + |stops| { SameStop(t, u, p, stops, k); }
    var l := Moved(t, col, k);
    if l <= p + |stops| && k <= p + |stops| { SameStop(t, u, p, stops, l); }
  }

  /** Inside, all memories with the specification give the same. */
  lemma {:induction false} InsideSame(t: Memory, u: Memory, p: int, stops: seq<int>, o: string, col: int, k: int, k': int)
    requires IsSpec(t, p, stops) && IsSpec(u, p, stops) && Together(p, p + |stops|, k, k') && col >= 1
    requires NoBackspace(o) && Inside(t, p + |stops|, o, col, k)
    ensures Expanded(u, o, col, k') == Expanded(t, o, col, k)
    decreases |o|
  {
    if o != "" {
      var l, l' := Moved(t, col, k), Moved(u, col, k');
      SameStep(t, u, p, stops, o[0], col, k, k');
      InsideSame(t, u, p, stops, o[1..], ColBehind(t, o[0], col, l), StopBehind(t, o[0], col, l), StopBehind(u, o[0], col, l'));
    }
  }

  /** A memory with this specification, and x everywhere behind it. */
  function With(p: int, stops: seq<int>, x: int): Memory {
    a => if p <= a < p + |stops| then stops[a - p] else if a == p + |stops| then 0 else x
  }

  lemma WithSpec(p: int, stops: seq<int>, x: int)
    requires stops != [] && stops[0] == 1 && forall i, j :: 0 <= i < j < |stops| ==> stops[i] < stops[j]
    ensures IsSpec(With(p, stops, x), p, stops)
  {
  }

  /** How far it is to the last stop. */
  function ToLast(stops: seq<int>, col: int): nat
    requires stops != []
  {
    if stops[|stops| - 1] > col then stops[|stops| - 1] - col else 0
  }

  /** One character goes one column further, or to a stop of the specification, when there is nothing behind it. */
  lemma StepBound(t: Memory, p: int, stops: seq<int>, c: char, col: int, k: int)
    requires IsSpec(t, p, stops) && c != BS && col >= 1 && p <= k
    ensures var l := Moved(t, col, k);
            && p <= l <= StopBehind(t, c, col, l)
            && (l <= p + |stops| || c != '\t' || t(l) == 0 ==>
                  col <= ColBehind(t, c, col, l) && |Piece(t, c, col, l)| + ToLast(stops, ColBehind(t, c, col, l)) <= 1 + ToLast(stops, col)
                  && ColBehind(t, c, col, l) + ToLast(stops, ColBehind(t, c, col, l)) <= 1 + col + ToLast(stops, col))
  {
    var l := Moved(t, col, k);
    var j := l - p;
    if j < |stops| { assert t(p + j) == stops[j]; }
  }

  lemma {:induction false} NothingBehind(t: Memory, p: int, stops: seq<int>, o: string, col: int, k: int)
    requires IsSpec(t, p, stops) && (forall x :: x > p + |stops| ==> t(x) == 0) && NoBackspace(o) && col >= 1 && p <= k
    ensures |Expanded(t, o, col, k)| <= |o| + ToLast(stops, col)
    decreases |o|
  {
    if o != "" {
      var l := Moved(t, col, k);
      StepBound(t, p, stops, o[0], col, k);
      NothingBehind(t, p, stops, o[1..], ColBehind(t, o[0], col, l), StopBehind(t, o[0], col, l));
    }
  }

  /** With a far stop behind the specification, a tab that is not inside reaches it. */
  lemma {:induction false} FarBehind(t: Memory, u: Memory, p: int, stops: seq<int>, o: string, col: int, k: int, k': int, far: int)
    requires IsSpec(t, p, stops) && IsSpec(u, p, stops) && (forall x :: x > p + |stops| ==> u(x) == far)
    requires Together(p, p + |stops|, k, k') && p <= k' <= p + |stops| + 1
    requires NoBackspace(o) && !Inside(t, p + |stops|, o, col, k) && 1 <= col && col + |o| + ToLast(stops, col) < far
    ensures |Expanded(u, o, col, k')| >= far - col
    decreases |o|
  {
    var l, l' := Moved(t, col, k), Moved(u, col, k');
    SameStep(t, u, p, stops, o[0], col, k, k');
    StepBound(u, p, stops, o[0], col, k');
    if o[0] != '\t' || l <= p + |stops| {
      var c := ColBehind(u, o[0], col, l');
      FarBehind(t, u, p, stops, o[1..], c, StopBehind(t, o[0], col, l), StopBehind(u, o[0], col, l'), far);
      assert |Piece(u, o[0], col, l')| >= c - col;
    } else {
      assert Piece(u, o[0], col, l') == Spaces(far - col);
    }
  }

  /** What a line without backspaces expands to depends on the specification alone, if and only if it is inside. */
  lemma MemoryMatters(t: Memory, p: int, stops: seq<int>, o: string)
    requires IsSpec(t, p, stops) && NoBackspace(o)
    ensures Inside(t, p + |stops|, o, 1, p) <==> forall u :: IsSpec(u, p, stops) ==> Expanded(u, o, 1, p) == Expanded(t, o, 1, p)
  {
    if Inside(t, p + |stops|, o, 1, p) {
      forall u | IsSpec(u, p, stops) ensures Expanded(u, o, 1, p) == Expanded(t, o, 1, p) { InsideSame(t, u, p, stops, o, 1, p, p); }
    } else {
      var far := 3 + |o| + ToLast(stops, 1);
      WithSpec(p, stops, 0);
      WithSpec(p, stops, far);
      NothingBehind(With(p, stops, 0), p, stops, o, 1, p);
      FarBehind(t, With(p, stops, far), p, stops, o, 1, p, p, far);
      assert |Expanded(With(p, stops, far), o, 1, p)| != |Expanded(With(p, stops, 0), o, 1, p)|;
    }
  }

  /** A tab behind the only stop: it depends on what comes behind the zero. */
  lemma TabBehind(t: Memory, u: Memory)
    requires IsSpec(t, 0, [1]) && t(2) == 5 && IsSpec(u, 0, [1]) && u(2) == 3
    ensures Expanded(t, "a\t", 1, 0) == "a" + Spaces(3) && Expanded(u, "a\t", 1, 0) == "a" + Spaces(1)
  {
    var o := "a\t";
    assert o[1..] == "\t" && o[1..][1..] == "";
    assert t(0 + 0) == 1 == u(0 + 0);
    assert Expanded(t, "\t", 2, 1) == Spaces(3) + "" && Expanded(u, "\t", 2, 1) == Spaces(1) + "";
  }
}
