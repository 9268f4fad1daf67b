/** Character-string helpers shared by the model: the few Python `str`
    operations the file browser relies on (split, rstrip, find, lower and
    the ordering `<` of strings), each with the property the callers need. */
module Strings {

  datatype Option<+T> = None | Some(value: T)

  const NUL: char := '\0'

  function Min(a: int, b: int): int { if a <= b then a else b }

  /** Python's `s[:n]` for a non-negative `n`: the first `n` characters, or all of `s`. */
  function Take(s: string, n: nat): (r: string)
    ensures r <= s && |r| == Min(n, |s|)
  {
    if n <= |s| then s[..n] else s
  }

  // ---------------------------------------------------------------------------
  // str.split(c) and its inverse
  // ---------------------------------------------------------------------------

  /** Python's `s.split(c)` for a one-character separator: the pieces between
      consecutive occurrences of `c`; there is always one piece more than there
      are separators. */
  function SplitOn(s: string, c: char): (r: seq<string>)
    ensures |r| >= 1
    ensures (|r| == 1) == (c !in s)
    ensures forall i :: 0 <= i < |r| ==> c !in r[i]
  {
    if s == [] then [[]]
    else
      var rest := SplitOn(s[1..], c);
      if s[0] == c then [[]] + rest
      else [[s[0]] + rest[0]] + rest[1..]
  }

  /** Python's `c.join(pieces)`. */
  function JoinWith(pieces: seq<string>, c: char): string
  {
    if |pieces| == 0 then []
    else if |pieces| == 1 then pieces[0]
    else pieces[0] + [c] + JoinWith(pieces[1..], c)
  }

  /** Joining the pieces of a split gives back the string. */
  lemma {:induction false} JoinSplit(s: string, c: char)
    ensures JoinWith(SplitOn(s, c), c) == s
  {
    if s != [] {
      var rest := SplitOn(s[1..], c);
      JoinSplit(s[1..], c);
      if s[0] == c {
        JoinCons([], rest, c);
        assert [] + [c] + s[1..] == s;
      } else {
        JoinExtendFirst(s[0], rest, c);
        assert [s[0]] + s[1..] == s;
      }
    }
  }

  lemma JoinCons(x: string, rest: seq<string>, c: char)
    requires rest != []
    ensures JoinWith([x] + rest, c) == x + [c] + JoinWith(rest, c)
  {
    assert ([x] + rest)[1..] == rest;
  }

  /** Putting a character in front of the first piece puts it in front of the join. */
  lemma JoinExtendFirst(h: char, rest: seq<string>, c: char)
    requires rest != []
    ensures JoinWith([[h] + rest[0]] + rest[1..], c) == [h] + JoinWith(rest, c)
  {
    if |rest| == 1 {
      assert [[h] + rest[0]] + rest[1..] == [[h] + rest[0]];
    } else {
      JoinCons([h] + rest[0], rest[1..], c);
      JoinCons(rest[0], rest[1..], c);
      assert rest == [rest[0]] + rest[1..];
    }
  }

  /** Splitting a string that starts with a separator-free piece `x` then `c`. */
  lemma {:induction false} SplitAfterPiece(x: string, c: char, t: string)
    requires c !in x
    ensures SplitOn(x + [c] + t, c) == [x] + SplitOn(t, c)
  {
    if x == [] {
      assert x + [c] + t == [c] + t;
      SplitCons(c, t, c);
    } else {
      var u := x[1..] + [c] + t;
      assert x + [c] + t == [x[0]] + u;
      SplitAfterPiece(x[1..], c, t);
      SplitCons(x[0], u, c);
      assert [x[0]] + x[1..] == x;
    }
  }

  /** One step of the split, from the front. */
  lemma SplitCons(h: char, u: string, c: char)
    ensures SplitOn([h] + u, c) ==
            if h == c then [[]] + SplitOn(u, c) else [[h] + SplitOn(u, c)[0]] + SplitOn(u, c)[1..]
  {
    assert ([h] + u)[1..] == u;
  }

  /** A string without the separator splits into itself. */
  lemma {:induction false} SplitNoSeparator(x: string, c: char)
    requires c !in x
    ensures SplitOn(x, c) == [x]
  {
    if x != [] {
      SplitNoSeparator(x[1..], c);
      assert x == [x[0]] + x[1..];
    }
  }

  /** Splitting a join of separator-free pieces gives back the pieces. */
  lemma {:induction false} SplitJoin(pieces: seq<string>, c: char)
    requires |pieces| >= 1
    requires forall i :: 0 <= i < |pieces| ==> c !in pieces[i]
    ensures SplitOn(JoinWith(pieces, c), c) == pieces
  {
    if |pieces| == 1 {
      SplitNoSeparator(pieces[0], c);
    } else {
      SplitJoin(pieces[1..], c);
      SplitAfterPiece(pieces[0], c, JoinWith(pieces[1..], c));
      assert pieces == [pieces[0]] + pieces[1..];
    }
  }

  // ---------------------------------------------------------------------------
  // Searching and stripping
  // ---------------------------------------------------------------------------

  /** Python's `s.find(c, start)`: the first index at or after `start` holding `c`, or -1. */
  function Find(s: string, c: char, start: nat): (r: int)
    ensures -1 <= r < |s|
    ensures r >= 0 ==> start <= r && s[r] == c
    ensures forall k :: start <= k < |s| && (r < 0 || k < r) ==> s[k] != c
    decreases |s| - start
  {
    if start >= |s| then -1
    else if s[start] == c then start
    else Find(s, c, start + 1)
  }

  /** The index just past the last character of `s` that lies in `seps`, or 0
      when there is none (Python's `s.rfind(sep) + 1` for one separator). */
  function AfterLastSep(s: string, seps: set<char>): (i: nat)
    ensures i <= |s|
    ensures i > 0 ==> s[i - 1] in seps
    ensures forall k :: i <= k < |s| ==> s[k] !in seps
  {
    if s == [] then 0
    else if s[|s| - 1] in seps then |s|
    else AfterLastSep(s[..|s| - 1], seps)
  }

  /** Python's `s.rstrip(chars)`: the longest prefix of `s` that does not end in `chars`. */
  function RStrip(s: string, chars: set<char>): (r: string)
    ensures r <= s
    ensures r != [] ==> r[|r| - 1] !in chars
    ensures forall k :: |r| <= k < |s| ==> s[k] in chars
  {
    if s == [] || s[|s| - 1] !in chars then s
    else RStrip(s[..|s| - 1], chars)
  }

  predicate AllIn(s: string, chars: set<char>)
  {
    forall k :: 0 <= k < |s| ==> s[k] in chars
  }

  /** Python's `s.replace(a, b)` for single characters. */
  function ReplaceChar(s: string, a: char, b: char): (r: string)
    ensures |r| == |s|
    ensures forall k :: 0 <= k < |s| ==> r[k] == if s[k] == a then b else s[k]
  {
    seq(|s|, k requires 0 <= k < |s| => if s[k] == a then b else s[k])
  }

  // ---------------------------------------------------------------------------
  // Case mapping (ASCII letters only)
  // ---------------------------------------------------------------------------

  function LowerChar(ch: char): char
  {
    if 'A' <= ch <= 'Z' then (ch as int + 32) as char else ch
  }

  function UpperChar(ch: char): char
  {
    if 'a' <= ch <= 'z' then (ch as int - 32) as char else ch
  }

  /** `s.lower()`, restricted to the ASCII letters. */
  function Lower(s: string): (r: string)
    ensures |r| == |s|
    ensures forall k :: 0 <= k < |s| ==> r[k] == LowerChar(s[k])
  {
    if s == [] then [] else [LowerChar(s[0])] + Lower(s[1..])
  }

  /** `s.upper()`, restricted to the ASCII letters. */
  function Upper(s: string): (r: string)
    ensures |r| == |s|
    ensures forall k :: 0 <= k < |s| ==> r[k] == UpperChar(s[k])
  {
    seq(|s|, k requires 0 <= k < |s| => UpperChar(s[k]))
  }

  // ---------------------------------------------------------------------------
  // Python's `<` on str: lexicographic by code point
  // ---------------------------------------------------------------------------

  predicate StrLess(a: string, b: string)
  {
    if a == [] then b != []
    else b != [] && (a[0] < b[0] || (a[0] == b[0] && StrLess(a[1..], b[1..])))
  }

  lemma {:induction false} StrLessIrreflexive(a: string)
    ensures !StrLess(a, a)
  {
    if a != [] {
      StrLessIrreflexive(a[1..]);
    }
  }

  lemma {:induction false} StrLessAsymmetric(a: string, b: string)
    ensures StrLess(a, b) ==> !StrLess(b, a)
  {
    if a != [] && b != [] && a[0] == b[0] {
      StrLessAsymmetric(a[1..], b[1..]);
    }
  }

  lemma {:induction false} StrLessTransitive(a: string, b: string, c: string)
    requires StrLess(a, b) && StrLess(b, c)
    ensures StrLess(a, c)
  {
    if a != [] && a[0] == b[0] && b[0] == c[0] {
      StrLessTransitive(a[1..], b[1..], c[1..]);
    }
  }

  /** Two different strings are always ordered one way or the other. */
  lemma {:induction false} StrLessTotal(a: string, b: string)
    ensures a == b || StrLess(a, b) || StrLess(b, a)
  {
    if a != [] && b != [] && a[0] == b[0] {
      StrLessTotal(a[1..], b[1..]);
      if a[1..] == b[1..] {
        assert a == [a[0]] + a[1..] && b == [b[0]] + b[1..];
      }
    }
  }
}
