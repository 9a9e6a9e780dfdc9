/** The operations on Python `str` values that the folder mapper uses,
    `s.split(sep)` with a one-character separator and the slice `s[:-n]`,
    plus `sep.join(xs)` and `s.count(c)` as the reference definitions used
    to specify them. */
module PyStr {

  /** `s.count(c)` for a one-character `c`. */
  function Count(s: string, c: char): nat
  {
    if s == [] then 0 else (if s[0] == c then 1 else 0) + Count(s[1..], c)
  }

  /** `s.split(sep)`: cuts at every separator and keeps the empty pieces, so the
      result always has one piece more than `s` has separators. */
  function Split(s: string, sep: char): (r: seq<string>)
    ensures |r| == Count(s, sep) + 1
  {
    if s == [] then [[]]
    else
      var rest := Split(s[1..], sep);
      if s[0] == sep then [[]] + rest
      else [[s[0]] + rest[0]] + rest[1..]
  }

  /** `sep.join(xs)`, built from the last piece backwards. */
  function Join(xs: seq<string>, sep: char): string
  {
    if xs == [] then []
    else if |xs| == 1 then xs[0]
    else Join(xs[..|xs| - 1], sep) + [sep] + xs[|xs| - 1]
  }

  /** The slice `s[:-n]` for `n > 0`: everything but the last `n` characters,
      or the empty string when `s` is shorter than that. */
  function CutEnd(s: string, n: nat): (r: string)
    requires n > 0
    ensures |s| >= n ==> s == r + s[|s| - n..]
    ensures |s| < n ==> r == []
  {
    if |s| >= n then s[..|s| - n] else []
  }

  lemma {:induction false} CountAppend(a: string, b: string, c: char)
    ensures Count(a + b, c) == Count(a, c) + Count(b, c)
  {
    if a != [] {
      assert (a + b)[1..] == a[1..] + b;
      CountAppend(a[1..], b, c);
    } else {
      assert a + b == b;
    }
  }

  lemma {:induction false} CountAbsent(s: string, c: char)
    requires c !in s
    ensures Count(s, c) == 0
  {
    if s != [] {
      CountAbsent(s[1..], c);
    }
  }

  /** A string without the separator splits into itself alone. */
  lemma {:induction false} SplitWithoutSeparator(s: string, sep: char)
    requires sep !in s
    ensures Split(s, sep) == [s]
  {
    if s != [] {
      SplitWithoutSeparator(s[1..], sep);
      assert [s[0]] + s[1..] == s;
    }
  }

  /** Splitting distributes over a separator placed between two strings. */
  lemma {:induction false} SplitAround(a: string, b: string, sep: char)
    ensures Split(a + [sep] + b, sep) == Split(a, sep) + Split(b, sep)
  {
    if a == [] {
      assert a + [sep] + b == [sep] + b;
      assert ([sep] + b)[1..] == b;
    } else {
      assert (a + [sep] + b)[1..] == a[1..] + [sep] + b;
      SplitAround(a[1..], b, sep);
      var left := Split(a[1..], sep);
      var rest := Split(a[1..] + [sep] + b, sep);
      assert rest == left + Split(b, sep);
      if a[0] != sep {
        assert rest[0] == left[0];
        assert rest[1..] == left[1..] + Split(b, sep);
      }
    }
  }

  lemma {:induction false} JoinFront(a: string, xs: seq<string>, sep: char)
    requires |xs| >= 1
    ensures Join([a] + xs, sep) == a + [sep] + Join(xs, sep)
  {
    var all := [a] + xs;
    assert all[..|all| - 1] == [a] + xs[..|xs| - 1];
    if |xs| > 1 {
      JoinFront(a, xs[..|xs| - 1], sep);
    }
  }

  /** No piece of a split holds the separator, nor any character that the
      string itself does not hold. */
  lemma {:induction false} SplitPiecesLack(s: string, sep: char, c: char)
    requires c == sep || c !in s
    ensures forall i :: 0 <= i < |Split(s, sep)| ==> c !in Split(s, sep)[i]
  {
    if s != [] {
      SplitPiecesLack(s[1..], sep, c);
    }
  }

  /** Putting a character in front of the first piece puts it in front of
      the join. */
  lemma JoinPrepend(c: char, xs: seq<string>, sep: char)
    requires |xs| >= 1
    ensures Join([[c] + xs[0]] + xs[1..], sep) == [c] + Join(xs, sep)
  {
    if |xs| > 1 {
      assert xs == [xs[0]] + xs[1..];
      JoinFront(xs[0], xs[1..], sep);
      JoinFront([c] + xs[0], xs[1..], sep);
    }
  }

  /** Round trip one way: joining the pieces of a split gives the string back. */
  lemma {:induction false} JoinSplit(s: string, sep: char)
    ensures Join(Split(s, sep), sep) == s
  {
    if s != [] {
      var rest := Split(s[1..], sep);
      JoinSplit(s[1..], sep);
      if s[0] == sep {
        JoinFront([], rest, sep);
      } else {
        JoinPrepend(s[0], rest, sep);
      }
      assert [s[0]] + s[1..] == s;
    }
  }

  /** Round trip the other way: pieces without the separator come back from
      splitting their join. */
  lemma {:induction false} SplitJoin(xs: seq<string>, sep: char)
    requires |xs| >= 1
    requires forall i :: 0 <= i < |xs| ==> sep !in xs[i]
    ensures Split(Join(xs, sep), sep) == xs
  {
    if |xs| == 1 {
      SplitWithoutSeparator(xs[0], sep);
    } else {
      var init := xs[..|xs| - 1];
      SplitJoin(init, sep);
      SplitAround(Join(init, sep), xs[|xs| - 1], sep);
      SplitWithoutSeparator(xs[|xs| - 1], sep);
      assert init + [xs[|xs| - 1]] == xs;
    }
  }
}
