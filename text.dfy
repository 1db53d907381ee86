/**
 * The two string steps both halves of the system lean on: JavaScript's
 * `String.prototype.split` with a one-character separator, and lower-casing.
 *
 * Lower-casing is modelled on ASCII letters only; every other character is
 * left as it is.
 */
module Text {

  /** `s.split(sep)`: the maximal runs between separators, empty runs kept. */
  function Split(s: string, sep: char): (r: seq<string>)
    ensures |r| >= 1
    decreases |s|
  {
    if s == [] then [[]]
    else if s[0] == sep then [[]] + Split(s[1..], sep)
    else
      var rest := Split(s[1..], sep);
      [[s[0]] + rest[0]] + rest[1..]
  }

  /** `parts.join(sep)`, the inverse of Split. */
  function Join(parts: seq<string>, sep: char): string
    requires |parts| >= 1
    decreases |parts|
  {
    if |parts| == 1 then parts[0] else parts[0] + [sep] + Join(parts[1..], sep)
  }

  /** Number of occurrences of `c` in `s`. */
  function Occurrences(s: string, c: char): nat
  {
    multiset(s)[c]
  }

  /** No piece of a split contains the separator. */
  lemma {:induction false} SplitPiecesFree(s: string, sep: char)
    ensures forall i :: 0 <= i < |Split(s, sep)| ==> sep !in Split(s, sep)[i]
    decreases |s|
  {
    if s != [] {
      SplitPiecesFree(s[1..], sep);
    }
  }

  /** Split of a text with a known first character. */
  lemma SplitCons(c: char, s: string, sep: char)
    ensures Split([c] + s, sep) ==
      if c == sep then [[]] + Split(s, sep) else [[c] + Split(s, sep)[0]] + Split(s, sep)[1..]
  {
    assert ([c] + s)[1..] == s;
  }

  /** Join of a list with a known first piece. */
  lemma JoinCons(p: string, rest: seq<string>, sep: char)
    requires |rest| >= 1
    ensures Join([p] + rest, sep) == p + [sep] + Join(rest, sep)
  {
    assert ([p] + rest)[1..] == rest;
  }

  /** Splitting keeps every character: joining the pieces back gives `s`. */
  lemma {:induction false} JoinSplit(s: string, sep: char)
    ensures Join(Split(s, sep), sep) == s
    decreases |s|
  {
    if s != [] {
      var c, t := s[0], s[1..];
      assert s == [c] + t;
      var rest := Split(t, sep);
      JoinSplit(t, sep);
      SplitCons(c, t, sep);
      if c == sep {
        JoinCons([], rest, sep);
      } else if |rest| > 1 {
        assert rest == [rest[0]] + rest[1..];
        JoinCons(rest[0], rest[1..], sep);
        JoinCons([c] + rest[0], rest[1..], sep);
      }
    }
  }

  /** Splitting a join of separator-free pieces gives the pieces back. */
  lemma {:induction false} SplitJoin(parts: seq<string>, sep: char)
    requires |parts| >= 1
    requires forall i :: 0 <= i < |parts| ==> sep !in parts[i]
    ensures Split(Join(parts, sep), sep) == parts
    decreases |parts|, |parts[0]|
  {
    var tail := parts[1..];
    assert parts == [parts[0]] + tail;
    if parts[0] == [] {
      if |parts| > 1 {
        SplitJoin(tail, sep);
        JoinCons([], tail, sep);
        SplitCons(sep, Join(tail, sep), sep);
      }
    } else {
      var c, p := parts[0][0], parts[0][1..];
      assert parts[0] == [c] + p;
      var shorter := [p] + tail;
      assert sep !in shorter[0] by { assert forall x :: x in p ==> x in parts[0]; }
      assert shorter[1..] == tail;
      SplitJoin(shorter, sep);
      if |parts| > 1 {
        JoinCons(parts[0], tail, sep);
        JoinCons(p, tail, sep);
      }
      assert Join(parts, sep) == [c] + Join(shorter, sep);
      assert c != sep;
      SplitCons(c, Join(shorter, sep), sep);
    }
  }

  /** Joining two piece lists joins them with one separator between. */
  lemma {:induction false} JoinAppend(p: seq<string>, q: seq<string>, sep: char)
    requires |p| >= 1 && |q| >= 1
    ensures Join(p + q, sep) == Join(p, sep) + [sep] + Join(q, sep)
    decreases |p|
  {
    if |p| == 1 {
      assert (p + q)[1..] == q;
    } else {
      JoinAppend(p[1..], q, sep);
      assert (p + q)[1..] == p[1..] + q;
    }
  }

  /** A separator splits the text around it: `(x + sep + y).split(sep)` is
      `x.split(sep)` followed by `y.split(sep)`. */
  lemma SplitAroundSeparator(x: string, y: string, sep: char)
    ensures Split(x + [sep] + y, sep) == Split(x, sep) + Split(y, sep)
  {
    var p, q := Split(x, sep), Split(y, sep);
    JoinSplit(x, sep);
    JoinSplit(y, sep);
    JoinAppend(p, q, sep);
    SplitPiecesFree(x, sep);
    SplitPiecesFree(y, sep);
    SplitJoin(p + q, sep);
  }

  /** There is one more piece than there are separators. */
  lemma {:induction false} SplitCount(s: string, sep: char)
    ensures |Split(s, sep)| == Occurrences(s, sep) + 1
    decreases |s|
  {
    if s != [] {
      SplitCount(s[1..], sep);
      assert s == [s[0]] + s[1..];
      assert multiset(s) == multiset([s[0]]) + multiset(s[1..]);
    }
  }

  /** A string without the separator splits into itself alone. */
  lemma {:induction false} SplitNoSeparator(s: string, sep: char)
    requires sep !in s
    ensures Split(s, sep) == [s]
  {
    SplitJoin([s], sep);
  }

  function LowerChar(c: char): char
  {
    if 'A' <= c <= 'Z' then (c as int + 32) as char else c
  }

  /** `s.toLowerCase()`, on ASCII letters. */
  function Lower(s: string): (r: string)
    ensures |r| == |s|
    ensures forall i :: 0 <= i < |s| ==> r[i] == LowerChar(s[i])
    ensures IsLower(r)
  {
    seq(|s|, i requires 0 <= i < |s| => LowerChar(s[i]))
  }

  /** Lower-casing works character by character from the front. */
  lemma LowerCons(c: char, s: string)
    ensures Lower([c] + s) == [LowerChar(c)] + Lower(s)
  {
  }

  /** Each piece lower-cased. */
  function LowerEach(parts: seq<string>): (r: seq<string>)
    ensures |r| == |parts|
    ensures forall i :: 0 <= i < |parts| ==> r[i] == Lower(parts[i])
  {
    seq(|parts|, i requires 0 <= i < |parts| => Lower(parts[i]))
  }

  /** Lower-casing never makes or removes a space, so splitting on spaces
      and then lower-casing each piece is splitting the lower-cased text. */
  lemma {:induction false} LowerEachSplit(s: string)
    ensures LowerEach(Split(s, ' ')) == Split(Lower(s), ' ')
    decreases |s|
  {
    if s == [] {
      assert Lower(s) == [];
    } else {
      var c, t := s[0], s[1..];
      assert s == [c] + t;
      var rest := Split(t, ' ');
      LowerEachSplit(t);
      LowerCons(c, t);
      SplitCons(c, t, ' ');
      SplitCons(LowerChar(c), Lower(t), ' ');
      var q := Split(Lower(t), ' ');
      if c == ' ' {
        assert LowerEach(Split(s, ' ')) == [[]] + LowerEach(rest);
      } else {
        assert LowerChar(c) != ' ';
        LowerCons(c, rest[0]);
        assert LowerEach(rest)[0] == q[0];
        assert LowerEach(rest)[1..] == q[1..];
        assert LowerEach(Split(s, ' ')) == [Lower([c] + rest[0])] + LowerEach(rest)[1..];
      }
    }
  }

  /** A string holds no upper-case letter. */
  predicate IsLower(s: string)
  {
    forall i :: 0 <= i < |s| ==> !('A' <= s[i] <= 'Z')
  }

  /** Lower-casing is idempotent, and a lower-case string is exactly one that
      lower-casing leaves alone. */
  lemma LowerIdempotent(s: string)
    ensures Lower(Lower(s)) == Lower(s)
    ensures IsLower(s) <==> Lower(s) == s
  {
    if !IsLower(s) {
      var i :| 0 <= i < |s| && 'A' <= s[i] <= 'Z';
      assert Lower(s)[i] != s[i];
    }
  }
}
