/**
  cal: the calendar of a month, computed without dconv.c but in agreement with it.
*/
module Cal {
  import opened Calendar

  /** jan1 */
  method Jan1(yr: int) returns (w: int)
    requires yr >= 1
    ensures w == Weekday(Ordinal(Date(yr, 1, 1)))
  {
    var y := yr;
    var d := 4 + y + (y + 3) / 4;
    if y > 1800 {
      d := d - (y - 1701) / 100;
      d := d + (y - 1601) / 400;
    }
    if y > 1752 {
      d := d + 3;
    }
    Jan1Is(y, d);
    w := d % 7;
  }

  lemma Jan1Is(y: int, d: int)
    requires y >= 1
    requires d == 4 + y + (y + 3) / 4 - (if y > 1800 then (y - 1701) / 100 - (y - 1601) / 400 else 0) + (if y > 1752 then 3 else 0)
    ensures d >= 0 && d % 7 == Weekday(Ordinal(Date(y, 1, 1)))
  {
    YearBaseIs(y);
    Shift4(1, y - 1);
    var k := if y > 1752 then 52 * (y - 1) - 2 else 52 * (y - 1);
    assert Ordinal(Date(y, 1, 1)) + 5 == 7 * k + d;
    Sevens(k, d);
  }

  lemma Sevens(k: int, x: int)
    ensures (7 * k + x) % 7 == x % 7
  {
  }

  /** Where a date is printed: the row and the column of the month. */
  function CellOf(t: Date): int
    requires t.y >= 1
  {
    Weekday(Ordinal(Date(t.y, t.m, 1))) + DayInMonth(t) - 1
  }

  /** The column is the day of the week. */
  lemma ColumnIsWeekday(t: Date)
    requires Valid(t)
    ensures CellOf(t) >= 0 && CellOf(t) % 7 == Weekday(Ordinal(t)) && CellOf(t) / 7 < 6
  {
    var first := Date(t.y, t.m, 1);
    DayInMonthRange(t);
    var x := Ordinal(first) + 5;
    Sevens(x / 7, x % 7 + DayInMonth(t) - 1);
    assert Ordinal(t) + 5 == x + DayInMonth(t) - 1;
    assert x == 7 * (x / 7) + x % 7;
  }

  lemma YearMod(y: int)
    requires y >= 1
    ensures var a, b := Weekday(Ordinal(Date(y, 1, 1))), Weekday(Ordinal(Date(y + 1, 1, 1)));
            (b + 7 - a) % 7 == YearLength(y) % 7
  {
    var x := Ordinal(Date(y, 1, 1)) + 5;
    var n := YearLength(y);
    assert x == 7 * (x / 7) + x % 7;
    assert (x + n) == 7 * ((x + n) / 7) + (x + n) % 7;
    Sevens((x + n) / 7 - x / 7 - 1, (x + n) % 7 + 7 - x % 7);
  }

  const MON: seq<int> := [0, 31, 29, 31, 30, 31, 30, 31, 31, 30, 31, 30, 31]

  function Digit(n: int): (c: char)
    requires 0 <= n < 10
    ensures c as int == 48 + n
  {
    "0123456789"[n]
  }

  /** The number of a day of the month, in two characters and a blank, at offset p. */
  ghost predicate Shown(buf: seq<char>, p: int, i: int)
    requires 1 <= i <= 31
  {
    0 <= p && p + 1 < |buf| && buf[p + 1] == Digit(i % 10) && (i > 9 ==> buf[p] == Digit(i / 10))
  }

  /** Offset of a cell in a buffer of rows of w characters. */
  function Offset(p: int, w: int, cell: int): int
    requires cell >= 0
  {
    p + w * (cell / 7) + 3 * (cell % 7)
  }

  // ---------------------------------------------------------------------
  // Rows and columns
  // ---------------------------------------------------------------------

  lemma MulGrows(w: int, a: int, b: int)
    requires w >= 0 && a < b
    ensures w * a + w <= w * b
  {
    assert w * (b - a - 1) >= 0;
    assert w * b == w * (b - a - 1) + w * a + w;
  }

  /** Cells do not overlap. */
  lemma CellsApart(p: int, w: int, c: int, c': int)
    requires w >= 21 && 0 <= c < c'
    ensures Offset(p, w, c) + 3 <= Offset(p, w, c')
  {
    if c / 7 < c' / 7 { MulGrows(w, c / 7, c' / 7); }
  }

  /** A cell of the first six rows lies in the buffer, in the first 21 columns. */
  lemma CellInside(p: int, w: int, c: int)
    requires w >= 21 && 0 <= c < 42 && p >= 0
    ensures p <= Offset(p, w, c) && Offset(p, w, c) + 1 < p + 5 * w + 21
    ensures (Offset(p, w, c) - p) % w < 20 && (Offset(p, w, c) + 1 - p) % w < 21
  {
    var row, col := c / 7, c % 7;
    assert 0 <= w * row;
    if row < 5 { MulGrows(w, row, 5); }
    RowMod(w, row, 3 * col);
    RowMod(w, row, 3 * col + 1);
  }

  lemma RowMod(w: int, row: int, x: int)
    requires 0 <= x < w
    ensures (w * row + x) % w == x
  {
    var q := (w * row + x) / w;
    assert w * row + x == w * q + (w * row + x) % w;
    if q < row { MulGrows(w, q, row); }
    if row < q { MulGrows(w, row, q); }
  }

  /** The next cell: to the right, or at the beginning of the next row. */
  lemma NextCell(p: int, w: int, c: int)
    requires c >= 0
    ensures if c % 7 == 6 then (c + 1) % 7 == 0 && (c + 1) / 7 == c / 7 + 1 && Offset(p, w, c + 1) == p + w * (c / 7) + w
            else (c + 1) % 7 == c % 7 + 1 && (c + 1) / 7 == c / 7 && Offset(p, w, c + 1) == Offset(p, w, c) + 3
  {
    assert w * (c / 7 + 1) == w * (c / 7) + w;
  }

  /** The first of the month stands in the first row, three characters further for each day since Sunday. */
  lemma FirstPlace(y: int, m: int, p: int, w: int)
    requires y >= 1 && 1 <= m <= 12
    ensures CellOf(Date(y, m, 1)) >= 0
    ensures Offset(p, w, CellOf(Date(y, m, 1))) == p + 3 * Weekday(Ordinal(Date(y, m, 1)))
  {
    assert Valid(Date(y, m, 1));
    ColumnIsWeekday(Date(y, m, 1));
    assert CellOf(Date(y, m, 1)) < 7;
  }

  /** The next date of the month stands three characters further, or in the first column of the next row when its column
      is that of Sunday. */
  lemma NextPlace(t: Date, cell: int, p: int, w: int)
    requires Valid(t) && Next(t).m == t.m && cell == CellOf(t)
    ensures cell >= 0 && CellOf(Next(t)) == cell + 1
    ensures Offset(p, w, cell + 1) == Offset(p, w, cell) + if (cell + 1) % 7 == 0 then w - 18 else 3
  {
    CellNext(t);
    NextOffset(p, w, cell);
  }

  lemma CellNext(t: Date)
    requires Valid(t) && Next(t).m == t.m
    ensures CellOf(t) >= 0 && CellOf(Next(t)) == CellOf(t) + 1
  {
    ColumnIsWeekday(t);
    SameMonth(t);
  }

  lemma SameMonth(t: Date)
    requires Valid(t) && Next(t).m == t.m
    ensures Next(t).y == t.y && DayInMonth(Next(t)) == DayInMonth(t) + 1
  {
  }

  lemma NextOffset(p: int, w: int, c: int)
    requires c >= 0
    ensures Offset(p, w, c + 1) == Offset(p, w, c) + if (c + 1) % 7 == 0 then w - 18 else 3
  {
    NextCell(p, w, c);
  }

  // ---------------------------------------------------------------------
  // The table of month lengths
  // ---------------------------------------------------------------------

  /** The lengths that cal chooses are those of the year. */
  ghost predicate LengthsOf(mon: seq<int>, y: int) {
    |mon| == 13 && forall k :: 1 <= k <= 12 ==> mon[k] == MonthLength(y, k)
  }

  /** The months that do not change. */
  predicate Steady(mon: seq<int>) {
    |mon| == 13 && forall k :: 1 <= k <= 12 && k != 2 && k != 9 ==> mon[k] == MON[k]
  }

  lemma LengthsAre(mon: seq<int>, y: int)
    requires Steady(mon) && mon[2] == MonthLength(y, 2) && mon[9] == MonthLength(y, 9)
    ensures LengthsOf(mon, y)
  {
  }

  lemma KindOfYear(d: int, e: int, y: int)
    requires y >= 1 && d == Weekday(Ordinal(Date(y, 1, 1))) && e == Weekday(Ordinal(Date(y + 1, 1, 1)))
    ensures (e + 7 - d) % 7 == if y == 1752 then 5 else if Leap(y) then 2 else 1
  {
    assert (e + 7 - d) % 7 == YearLength(y) % 7 by { YearMod(y); }
    LengthMod(y);
  }

  lemma LengthMod(y: int)
    ensures YearLength(y) % 7 == if y == 1752 then 5 else if Leap(y) then 2 else 1
  {
  }

  /** The switch of cal, from the weekdays of this and the next New Year's Day. */
  method Lengths(mon: array<int>, y: int) returns (d: int)
    requires y >= 1 && Steady(mon[..])
    modifies mon
    ensures d == Weekday(Ordinal(Date(y, 1, 1))) && LengthsOf(mon[..], y) && Steady(mon[..])
  {
    d := Jan1(y);
    mon[2] := 29;
    mon[9] := 30;
    var e := Jan1(y + 1);
    KindOfYear(d, e, y);
    match (e + 7 - d) % 7
    case 1 => mon[2] := 28;
    case 2 =>
    case _ => mon[9] := 19;
    LengthsAre(mon[..], y);
  }

  /** The weekday of the first of the month. */
  method FirstColumn(mon: seq<int>, y: int, m: int, d0: int) returns (d: int)
    requires y >= 1 && 1 <= m <= 12 && LengthsOf(mon, y) && d0 == Weekday(Ordinal(Date(y, 1, 1)))
    ensures d == Weekday(Ordinal(Date(y, m, 1)))
  {
    d := d0;
    var i := 1;
    while i < m
      invariant 1 <= i <= m && d == d0 + DaysBeforeMonth(y, i)
    {
      d := d + mon[i];
      i := i + 1;
    }
    MonthsLater(y, m, d0, d);
    d := d % 7;
  }

  lemma MonthsLater(y: int, m: int, d0: int, d: int)
    requires y >= 1 && 1 <= m <= 12 && d0 == Weekday(Ordinal(Date(y, 1, 1))) && d == d0 + DaysBeforeMonth(y, m)
    ensures d % 7 == Weekday(Ordinal(Date(y, m, 1)))
  {
    var x := Ordinal(Date(y, 1, 1)) + 5;
    Sevens(x / 7, d);
    assert x == 7 * (x / 7) + x % 7;
    assert Ordinal(Date(y, m, 1)) + 5 == x + DaysBeforeMonth(y, m);
  }

  // ---------------------------------------------------------------------
  // The days of the month
  // ---------------------------------------------------------------------

  /** The number of the n-th day of a month, with or without the gap of September 1752. */
  function DayNumber(gap: bool, n: int): int {
    if gap && n > 2 then n + 11 else n
  }

  /** The day at place x of the month stands in its cell. */
  ghost predicate PlaceShown(buf: seq<char>, p: int, w: int, c: int, gap: bool, x: int) {
    c + x >= 0 && 1 <= DayNumber(gap, x + 1) <= 31 && Shown(buf, Offset(p, w, c + x), DayNumber(gap, x + 1))
  }

  /** Writing the next cell leaves the others alone. */
  lemma StillShown(before: seq<char>, after: seq<char>, p: int, w: int, c: int, gap: bool, x: int, s: int, cell: int)
    requires w >= 21 && c >= 0 && 0 <= x && c + x < cell && s == Offset(p, w, cell) && |before| == |after|
    requires PlaceShown(before, p, w, c, gap, x)
    requires forall k :: 0 <= k < |after| && k != s && k != s + 1 ==> after[k] == before[k]
    ensures PlaceShown(after, p, w, c, gap, x)
  {
    CellsApart(p, w, c + x, cell);
  }

  /** The first n days are shown, from cell c on, and nothing is written outside of the 21 columns. */
  ghost predicate Filled(buf: seq<char>, was: seq<char>, p: int, w: int, c: int, gap: bool, n: int)
    requires w >= 21 && c >= 0 && 0 <= n && DayNumber(gap, n) <= 31
  {
    && |buf| == |was|
    && (forall x :: 0 <= x < n ==> PlaceShown(buf, p, w, c, gap, x))
    && (forall k :: 0 <= k < |buf| && (k < p || (k - p) % w >= 21) ==> buf[k] == was[k])
  }

  lemma PutShows(before: seq<char>, after: seq<char>, was: seq<char>, p: int, w: int, c: int, gap: bool, n: int, s: int)
    requires w >= 21 && 0 <= c <= 6 && 0 <= n && DayNumber(gap, n + 1) <= 31 && p >= 0 && p + 5 * w + 21 <= |before|
    requires c + n < 42 && s == Offset(p, w, c + n) && Filled(before, was, p, w, c, gap, n) && |before| == |after|
    requires Shown(after, s, DayNumber(gap, n + 1)) && forall k :: 0 <= k < |after| && k != s && k != s + 1 ==> after[k] == before[k]
    ensures Filled(after, was, p, w, c, gap, n + 1)
  {
    CellInside(p, w, c + n);
    forall x | 0 <= x < n ensures PlaceShown(after, p, w, c, gap, x) {
      StillShown(before, after, p, w, c, gap, x, s, c + n);
    }
    assert PlaceShown(after, p, w, c, gap, n);
  }

  /** Two characters for a day. */
  method Put(buf: array<char>, s: int, i: int, ghost p: int, ghost w: int, ghost c: int, ghost gap: bool, ghost n: int, ghost was: seq<char>)
    requires w >= 21 && 0 <= c <= 6 && 0 <= n && i == DayNumber(gap, n + 1) <= 31 && p >= 0 && p + 5 * w + 21 <= buf.Length
    requires c + n < 42 && s == Offset(p, w, c + n) && Filled(buf[..], was, p, w, c, gap, n)
    modifies buf
    ensures Filled(buf[..], was, p, w, c, gap, n + 1)
  {
    CellInside(p, w, c + n);
    ghost var before := buf[..];
    Digits(buf, s, i);
    PutShows(before, buf[..], was, p, w, c, gap, n, s);
  }

  method Digits(buf: array<char>, s: int, i: int)
    requires 0 <= s && s + 1 < buf.Length && 1 <= i <= 31
    modifies buf
    ensures Shown(buf[..], s, i) && forall k :: 0 <= k < buf.Length && k != s && k != s + 1 ==> buf[..][k] == old(buf[..])[k]
  {
    if i > 9 {
      buf[s] := Digit(i / 10);
    }
    buf[s + 1] := Digit(i % 10);
  }

  /** One day, and on to the next column or row. */
  method Day(buf: array<char>, i: int, p: int, s: int, d: int, w: int,
             ghost p0: int, ghost c: int, ghost gap: bool, ghost n: int, ghost was: seq<char>)
    returns (p': int, s': int, d': int)
    requires w >= 21 && 0 <= c <= 6 && 0 <= n && i == DayNumber(gap, n + 1) <= 31 && p0 >= 0 && p0 + 5 * w + 21 <= buf.Length
    requires c + n < 42 && At(p0, w, c + n, p, s, d) && Filled(buf[..], was, p0, w, c, gap, n)
    modifies buf
    ensures At(p0, w, c + n + 1, p', s', d') && Filled(buf[..], was, p0, w, c, gap, n + 1)
  {
    Put(buf, s, i, p0, w, c, gap, n, was);
    NextCell(p0, w, c + n);
    p', s', d' := p, s + 3, d + 1;
    if d' == 7 {
      d' := 0;
      s' := p + w;
      p' := s';
    }
  }

  /** The next cell is at s, in column d of the row that begins at p. */
  ghost predicate At(p0: int, w: int, cell: int, p: int, s: int, d: int)
    requires cell >= 0
  {
    s == Offset(p0, w, cell) && d == cell % 7 && p == p0 + w * (cell / 7)
  }

  /** The loop of cal. */
  method Days(mon: array<int>, buf: array<char>, m: int, d0: int, p0: int, w: int, ghost gap: bool)
    requires 0 <= d0 <= 6 && w >= 21 && p0 >= 0 && p0 + 5 * w + 21 <= buf.Length
    requires mon.Length == 13 && 1 <= m <= 12 && 19 <= mon[m] <= 31 && (mon[m] == 19 <==> gap) && (gap ==> m == 9)
    modifies mon, buf
    ensures Filled(buf[..], old(buf[..]), p0, w, d0, gap, old(mon[m]))
    ensures forall k :: 0 <= k < 13 && k != 9 ==> mon[k] == old(mon[k])
  {
    ghost var was, len, n := buf[..], mon[m], 0;
    var p, s, d, i := p0, p0 + 3 * d0, d0, 1;
    while i <= mon[m]
      invariant 0 <= n <= len && i == DayNumber(gap, n + 1) - (if gap && n == 2 then 11 else 0)
      invariant mon[m] == (if gap && n > 2 then 30 else len)
      invariant forall k :: 0 <= k < 13 && k != 9 ==> mon[k] == old(mon[k])
      invariant At(p0, w, d0 + n, p, s, d) && Filled(buf[..], was, p0, w, d0, gap, n)
      decreases len - n
    {
      if i == 3 && mon[m] == 19 {
        i := i + 11;
        mon[m] := mon[m] + 11;
      }
      p, s, d := Day(buf, i, p, s, d, w, p0, d0, gap, n, was);
      i := i + 1;
      n := n + 1;
    }
  }

  /** cal: every date of month m of year y stands in buf, in rows of w characters from p0 on, in the column of its
      weekday, and the rows are otherwise left alone. */
  method Month(mon: array<int>, buf: array<char>, m: int, y: int, p0: int, w: int)
    requires y >= 1 && 1 <= m <= 12 && w >= 21 && p0 >= 0 && p0 + 5 * w + 21 <= buf.Length
    requires Steady(mon[..])
    modifies mon, buf
    ensures Steady(mon[..])
    ensures forall j :: 1 <= j <= 31 && Valid(Date(y, m, j)) ==>
              CellOf(Date(y, m, j)) >= 0 && Shown(buf[..], Offset(p0, w, CellOf(Date(y, m, j))), j)
    ensures forall k :: 0 <= k < buf.Length && (k < p0 || (k - p0) % w >= 21) ==> buf[k] == old(buf[k])
  {
    ghost var was := buf[..];
    var d := Lengths(mon, y);
    d := FirstColumn(mon[..], y, m, d);
    assert mon[..][m] == MonthLength(y, m);
    ghost var gap := y == 1752 && m == 9;
    ghost var steady := mon[..];
    Days(mon, buf, m, d, p0, w, gap);
    assert forall k :: 0 <= k < 13 && k != 9 ==> mon[..][k] == steady[k];
    DatesShown(buf[..], was, p0, w, y, m, d);
  }

  /** From the places in the month to the dates. */
  lemma DatesShown(buf: seq<char>, was: seq<char>, p: int, w: int, y: int, m: int, c: int)
    requires y >= 1 && 1 <= m <= 12 && w >= 21 && c == Weekday(Ordinal(Date(y, m, 1)))
    requires Filled(buf, was, p, w, c, y == 1752 && m == 9, MonthLength(y, m))
    ensures forall j :: 1 <= j <= 31 && Valid(Date(y, m, j)) ==>
              CellOf(Date(y, m, j)) >= 0 && Shown(buf, Offset(p, w, CellOf(Date(y, m, j))), j)
  {
    forall j | 1 <= j <= 31 && Valid(Date(y, m, j))
      ensures CellOf(Date(y, m, j)) >= 0 && Shown(buf, Offset(p, w, CellOf(Date(y, m, j))), j)
    {
      var n := DayInMonth(Date(y, m, j));
      DayInMonthRange(Date(y, m, j));
      assert PlaceShown(buf, p, w, c, y == 1752 && m == 9, n - 1);
      CellIs(Date(y, m, j), c);
    }
  }

  lemma CellIs(t: Date, c: int)
    requires Valid(t) && c == Weekday(Ordinal(Date(t.y, t.m, 1)))
    ensures CellOf(t) == c + (DayInMonth(t) - 1) >= 0
    ensures DayNumber(t.y == 1752 && t.m == 9, DayInMonth(t)) == t.d
  {
    DayInMonthRange(t);
  }
}
