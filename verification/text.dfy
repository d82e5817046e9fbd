/** The few string operations of Python's `str` that the supervisor relies on,
    each restricted to the form in which the supervisor uses it. */
module Text {

  /** `s.replace(c, r)` for a one-character pattern `c`: every occurrence of
      `c`, scanning left to right, is replaced by `r`. */
  function ReplaceChar(s: string, c: char, r: string): (t: string)
    ensures c !in s ==> t == s
    ensures c !in r ==> c !in t
  {
    if s == [] then [] else (if s[0] == c then r else [s[0]]) + ReplaceChar(s[1..], c, r)
  }

  /** A character absent from both the text and the replacement stays absent. */
  lemma {:induction false} ReplaceCharAbsent(s: string, c: char, r: string, x: char)
    requires x !in s && x !in r
    ensures x !in ReplaceChar(s, c, r)
  {
    if s != [] {
      ReplaceCharAbsent(s[1..], c, r, x);
    }
  }

  /** Replacement works piecewise: it commutes with concatenation. */
  lemma {:induction false} ReplaceCharAppend(a: string, b: string, c: char, r: string)
    ensures ReplaceChar(a + b, c, r) == ReplaceChar(a, c, r) + ReplaceChar(b, c, r)
  {
    if a != [] {
      var h := if a[0] == c then r else [a[0]];
      assert (a + b)[0] == a[0] && (a + b)[1..] == a[1..] + b;
      assert ReplaceChar(a + b, c, r) == h + ReplaceChar(a[1..] + b, c, r);
      assert ReplaceChar(a, c, r) == h + ReplaceChar(a[1..], c, r);
      ReplaceCharAppend(a[1..], b, c, r);
    } else {
      assert a + b == b;
    }
  }

  /** Replacing by the empty string drops one character per occurrence. */
  lemma {:induction false} ReplaceCharByNothingLength(s: string, c: char)
    ensures |ReplaceChar(s, c, "")| == |s| - multiset(s)[c]
  {
    if s != [] {
      assert s == [s[0]] + s[1..];
      ReplaceCharByNothingLength(s[1..], c);
    }
  }

  /** Replacing by a two-character string adds one character per occurrence. */
  lemma {:induction false} ReplaceCharByPairLength(s: string, c: char, r: string)
    requires |r| == 2
    ensures |ReplaceChar(s, c, r)| == |s| + multiset(s)[c]
  {
    if s != [] {
      assert s == [s[0]] + s[1..];
      ReplaceCharByPairLength(s[1..], c, r);
    }
  }

  /** Python's `sub in s`: `p` occurs somewhere in `s` as a contiguous piece. */
  predicate Contains(s: string, p: string) {
    exists i :: 0 <= i <= |s| && p <= s[i..]
  }

  /** The characters `str.isspace` accepts; `str.strip()` with no argument removes them. */
  predicate IsSpace(ch: char) {
    ch == ' ' || ('\t' <= ch <= '\r') || ('\U{1C}' <= ch <= '\U{1F}') ||
    ch == '\U{85}' || ch == '\U{A0}' || ch == '\U{1680}' || ('\U{2000}' <= ch <= '\U{200A}') ||
    ch == '\U{2028}' || ch == '\U{2029}' || ch == '\U{202F}' || ch == '\U{205F}' || ch == '\U{3000}'
  }

  predicate AllSpace(s: string) {
    forall i :: 0 <= i < |s| ==> IsSpace(s[i])
  }

  function StripLeft(s: string): (r: string)
    ensures r == [] || !IsSpace(r[0])
  {
    if s != [] && IsSpace(s[0]) then StripLeft(s[1..]) else s
  }

  function StripRight(s: string): string {
    if s != [] && IsSpace(s[|s| - 1]) then StripRight(s[..|s| - 1]) else s
  }

  /** Python's `s.strip()`: leading and trailing white space removed. */
  function Strip(s: string): (r: string)
    ensures r == [] || (!IsSpace(r[0]) && !IsSpace(r[|r| - 1]))
  {
    StripRightKeepsHead(StripLeft(s));
    StripRight(StripLeft(s))
  }

  lemma {:induction false} StripRightKeepsHead(s: string)
    requires s == [] || !IsSpace(s[0])
    ensures var r := StripRight(s); r == [] || (!IsSpace(r[0]) && !IsSpace(r[|r| - 1]))
  {
    if s != [] && IsSpace(s[|s| - 1]) {
      StripRightKeepsHead(s[..|s| - 1]);
    }
  }

  lemma {:induction false} StripLeftPadded(a: string, x: string)
    requires AllSpace(a)
    requires x == [] || !IsSpace(x[0])
    ensures StripLeft(a + x) == x
  {
    if a != [] {
      assert (a + x)[1..] == a[1..] + x;
      StripLeftPadded(a[1..], x);
    }
  }

  lemma {:induction false} StripRightPadded(x: string, b: string)
    requires AllSpace(b)
    requires x == [] || !IsSpace(x[|x| - 1])
    ensures StripRight(x + b) == x
  {
    if b != [] {
      assert (x + b)[..|x + b| - 1] == x + b[..|b| - 1];
      StripRightPadded(x, b[..|b| - 1]);
    } else {
      assert x + b == x;
    }
  }

  /** Stripping removes exactly the white-space padding around a word that
      neither starts nor ends with white space. */
  lemma StripPadded(a: string, x: string, b: string)
    requires AllSpace(a) && AllSpace(b)
    requires x == [] || (!IsSpace(x[0]) && !IsSpace(x[|x| - 1]))
    ensures Strip(a + x + b) == x
  {
    if x == [] {
      assert a + x + b == a + b;
      StripLeftPadded(a + b, []);
      assert a + b + [] == a + b;
    } else {
      assert a + x + b == a + (x + b);
      StripLeftPadded(a, x + b);
      StripRightPadded(x, b);
    }
  }

  /** Stripping twice is stripping once. */
  lemma StripIdempotent(s: string)
    ensures Strip(Strip(s)) == Strip(s)
  {
    var r := Strip(s);
    assert [] + r + [] == r;
    StripPadded([], r, []);
  }

  function LowerChar(ch: char): char {
    if 'A' <= ch <= 'Z' then (ch as int - 'A' as int + 'a' as int) as char else ch
  }

  /** Python's `s.lower()`, for the ASCII letters. */
  function Lower(s: string): (r: string)
    ensures |r| == |s|
    ensures forall i :: 0 <= i < |s| ==> r[i] == LowerChar(s[i])
  {
    seq(|s|, i requires 0 <= i < |s| => LowerChar(s[i]))
  }

  /** Lower-casing keeps every occurrence, so a lower-case keyword is found
      in the lowered text whatever the case it was written in. */
  lemma LowerKeepsOccurrences(s: string, p: string)
    requires Contains(s, p)
    ensures Contains(Lower(s), Lower(p))
  {
    var i :| 0 <= i <= |s| && p <= s[i..];
    assert Lower(p) <= Lower(s)[i..];
  }

  /** A search for the regular expression `n0.*n1.*...` in `s` when every
      `nk` stands for itself: the needles occur in `s` in order, without
      overlapping. Tries the leftmost placement first and backtracks. */
  predicate MatchesInOrder(s: string, needles: seq<string>)
    decreases |needles|, |s|
  {
    if needles == [] then true
    else if needles[0] <= s && MatchesInOrder(s[|needles[0]|..], needles[1..]) then true
    else s != [] && MatchesInOrder(s[1..], needles)
  }

  /** `n` occurs at position `i` of `s` and the needles `rest` are found
      after it. */
  predicate FoundAt(s: string, n: string, rest: seq<string>, i: int) {
    0 <= i <= |s| && n <= s[i..] && MatchesInOrder(s[i + |n|..], rest)
  }

  /** A successful search has a placement for its first needle. */
  lemma {:induction false} MatchesInOrderHasPlacement(s: string, n: string, rest: seq<string>)
    requires MatchesInOrder(s, [n] + rest)
    ensures exists i :: FoundAt(s, n, rest, i)
    decreases |s|
  {
    var ns := [n] + rest;
    assert ns[0] == n && ns[1..] == rest;
    if n <= s && MatchesInOrder(s[|n|..], rest) {
      assert s[0..] == s;
      assert FoundAt(s, n, rest, 0);
    } else {
      MatchesInOrderHasPlacement(s[1..], n, rest);
      var j :| FoundAt(s[1..], n, rest, j);
      assert s[1..][j..] == s[j + 1..];
      assert FoundAt(s, n, rest, j + 1);
    }
  }

  /** Any placement of the first needle makes the search succeed. */
  lemma {:induction false} PlacementMatches(s: string, n: string, rest: seq<string>, i: int)
    requires FoundAt(s, n, rest, i)
    ensures MatchesInOrder(s, [n] + rest)
    decreases i
  {
    var ns := [n] + rest;
    assert ns[0] == n && ns[1..] == rest;
    if i == 0 {
      assert s[0..] == s;
    } else {
      assert s[1..][i - 1..] == s[i..];
      assert FoundAt(s[1..], n, rest, i - 1);
      PlacementMatches(s[1..], n, rest, i - 1);
    }
  }

  /** The search succeeds exactly when the first needle occurs at some
      position after which the remaining needles match. */
  lemma MatchesInOrderStep(s: string, n: string, rest: seq<string>)
    ensures MatchesInOrder(s, [n] + rest) <==> exists i :: FoundAt(s, n, rest, i)
  {
    if MatchesInOrder(s, [n] + rest) {
      MatchesInOrderHasPlacement(s, n, rest);
    }
    if i :| FoundAt(s, n, rest, i) {
      PlacementMatches(s, n, rest, i);
    }
  }

  /** A needle placed after any prefix is found there. */
  lemma MatchesInOrderAfter(x: string, n: string, y: string, rest: seq<string>)
    requires MatchesInOrder(y, rest)
    ensures MatchesInOrder(x + n + y, [n] + rest)
  {
    var s := x + n + y;
    assert n <= s[|x|..] && s[|x| + |n|..] == y;
    PlacementMatches(s, n, rest, |x|);
  }

  /** Three needles placed one after another, with any text around them,
      are found in that order. */
  lemma MatchesThreeInOrder(x0: string, n0: string, x1: string, n1: string, x2: string, n2: string, y: string)
    ensures MatchesInOrder(x0 + n0 + (x1 + n1 + (x2 + n2 + y)), [n0, n1, n2])
  {
    assert MatchesInOrder(y, []);
    MatchesInOrderAfter(x2, n2, y, []);
    assert [n2] + [] == [n2];
    MatchesInOrderAfter(x1, n1, x2 + n2 + y, [n2]);
    assert [n1] + [n2] == [n1, n2];
    MatchesInOrderAfter(x0, n0, x1 + n1 + (x2 + n2 + y), [n1, n2]);
    assert [n0] + [n1, n2] == [n0, n1, n2];
  }
}
