/**
  NUL-terminated strings and strcmp, as join and awk use them.
*/
module CStrings {

  /** A NUL-terminated string. */
  datatype Field = Nul | Char(c: nat, rest: Field)

  /** strcmp */
  function Cmp(s: Field, t: Field): int {
    match (s, t)
    case (Nul, Nul) => 0
    case (Nul, Char(_, _)) => -1
    case (Char(_, _), Nul) => 1
    case (Char(c, s'), Char(d, t')) => if c != d then c - d else Cmp(s', t')
  }

  predicate Less(s: Field, t: Field) { Cmp(s, t) < 0 }

  /** The characters of a string. */
  function Text(s: Field): seq<nat> {
    match s case Nul => [] case Char(c, s') => [c] + Text(s')
  }

  /** The first n characters are the same, and behind them s has ended and t goes on, or s has the smaller character. */
  ghost predicate Parts(s: seq<nat>, t: seq<nat>, n: nat) {
    n <= |s| && n < |t| && s[..n] == t[..n] && (n == |s| || s[n] < t[n])
  }

  ghost predicate PartAt(s: Field, t: Field, n: nat) {
    Parts(Text(s), Text(t), n)
  }

  lemma PartsOn(s: seq<nat>, t: seq<nat>, c: nat, n: nat)
    ensures Parts([c] + s, [c] + t, n + 1) <==> Parts(s, t, n)
  {
    var s', t' := [c] + s, [c] + t;
    if n <= |s| && n < |t| {
      assert s'[..n + 1] == [c] + s[..n] && t'[..n + 1] == [c] + t[..n];
      assert s'[..n + 1][1..] == s[..n] && t'[..n + 1][1..] == t[..n];
    }
  }

  lemma PartsHead(s: seq<nat>, t: seq<nat>, n: nat)
    requires Parts(s, t, n) && s != []
    ensures s[0] < t[0] || (n > 0 && s[0] == t[0])
  {
    if n > 0 { assert s[..n][0] == t[..n][0]; }
  }

  lemma {:induction false} LessParts(s: Field, t: Field) returns (n: nat)
    requires Less(s, t)
    ensures PartAt(s, t, n)
  {
    n := 0;
    if s.Char? && s.c == t.c {
      n := LessParts(s.rest, t.rest);
      PartsOn(Text(s.rest), Text(t.rest), s.c, n);
      n := n + 1;
    }
  }

  lemma {:induction false} PartsLess(s: Field, t: Field, n: nat)
    requires PartAt(s, t, n)
    ensures Less(s, t)
  {
    if s.Char? {
      PartsHead(Text(s), Text(t), n);
      if s.c == t.c {
        assert n > 0;
        PartsOn(Text(s.rest), Text(t.rest), s.c, n - 1);
        PartsLess(s.rest, t.rest, n - 1);
      }
    }
  }

  /** strcmp orders strings as a dictionary does. */
  lemma LessMeans(s: Field, t: Field)
    ensures Less(s, t) <==> exists n: nat :: PartAt(s, t, n)
  {
    if Less(s, t) { var n := LessParts(s, t); }
    if n: nat :| PartAt(s, t, n) { PartsLess(s, t, n); }
  }

  /** Two strings are one if and only if their characters are the same. */
  lemma {:induction false} TextSame(s: Field, t: Field)
    ensures Text(s) == Text(t) <==> s == t
  {
    if s.Char? && t.Char? {
      TextSame(s.rest, t.rest);
      assert Text(s)[1..] == Text(s.rest) && Text(t)[1..] == Text(t.rest);
    }
  }

  lemma {:induction false} CmpEqual(s: Field, t: Field)
    ensures Cmp(s, t) == 0 <==> s == t
  {
    if s.Char? && t.Char? && s.c == t.c { CmpEqual(s.rest, t.rest); }
  }

  lemma {:induction false} CmpOpposite(s: Field, t: Field)
    ensures Cmp(s, t) > 0 <==> Less(t, s)
  {
    if s.Char? && t.Char? && s.c == t.c { CmpOpposite(s.rest, t.rest); }
  }

  lemma {:induction false} LessTrans(s: Field, t: Field, u: Field)
    requires Less(s, t) && Less(t, u)
    ensures Less(s, u)
  {
    if s.Char? && t.Char? && u.Char? && s.c == t.c == u.c { LessTrans(s.rest, t.rest, u.rest); }
  }

  lemma LessNot(s: Field, t: Field)
    requires Less(s, t)
    ensures s != t && !Less(t, s)
  {
    CmpEqual(s, t);
    CmpOpposite(s, t);
  }
}
