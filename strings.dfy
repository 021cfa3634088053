/** The pieces of Python's `str` (and of `sorted`) that the scripts rely on,
    restricted to what they actually use: code-point ordering, sorting,
    joining, character replacement, stripping, ASCII case mapping and
    substring search. */
module Strings {

  // ---------------------------------------------------------------------
  // Ordering and sorting

  /** Python's `<` on strings: code point by code point, a proper prefix first. */
  predicate Less(a: string, b: string)
    decreases |a|
  {
    if a == [] then b != []
    else if b == [] then false
    else a[0] < b[0] || (a[0] == b[0] && Less(a[1..], b[1..]))
  }

  predicate LessEq(a: string, b: string) {
    a == b || Less(a, b)
  }

  lemma {:induction false} LessIrreflexive(a: string)
    ensures !Less(a, a)
  {
    if a != [] {
      LessIrreflexive(a[1..]);
    }
  }

  lemma {:induction false} LessAsymmetric(a: string, b: string)
    requires Less(a, b)
    ensures !Less(b, a)
  {
    if a != [] && b != [] && a[0] == b[0] {
      LessAsymmetric(a[1..], b[1..]);
    }
  }

  lemma {:induction false} LessTransitive(a: string, b: string, c: string)
    requires Less(a, b) && Less(b, c)
    ensures Less(a, c)
  {
    if a != [] && b != [] && c != [] && a[0] == b[0] && b[0] == c[0] {
      LessTransitive(a[1..], b[1..], c[1..]);
    }
  }

  lemma {:induction false} LessTotal(a: string, b: string)
    ensures a == b || Less(a, b) || Less(b, a)
  {
    if a != [] && b != [] && a[0] == b[0] {
      LessTotal(a[1..], b[1..]);
      assert a == [a[0]] + a[1..] && b == [b[0]] + b[1..];
    }
  }

  lemma LessEqAntisymmetric(a: string, b: string)
    requires LessEq(a, b) && LessEq(b, a)
    ensures a == b
  {
    if a != b {
      LessAsymmetric(a, b);
    }
  }

  lemma LessEqTransitive(a: string, b: string, c: string)
    requires LessEq(a, b) && LessEq(b, c)
    ensures LessEq(a, c)
  {
    if a != b && b != c {
      LessTransitive(a, b, c);
    }
  }

  predicate Sorted(s: seq<string>) {
    forall i, j :: 0 <= i < j < |s| ==> LessEq(s[i], s[j])
  }

  /** A string no greater than the head of a sorted list can go in front. */
  lemma ConsSorted(x: string, s: seq<string>)
    requires Sorted(s) && (s != [] ==> LessEq(x, s[0]))
    ensures Sorted([x] + s)
  {
    var r := [x] + s;
    forall i, j | 0 <= i < j < |r| ensures LessEq(r[i], r[j]) {
      if i == 0 && j > 1 {
        LessEqTransitive(x, s[0], s[j - 1]);
      }
    }
  }

  function Insert(x: string, s: seq<string>): (r: seq<string>)
    requires Sorted(s)
    ensures Sorted(r)
    ensures multiset(r) == multiset(s) + multiset{x}
  {
    if s == [] then [x]
    else if LessEq(x, s[0]) then
      ConsSorted(x, s);
      assert s == [s[0]] + s[1..];
      [x] + s
    else
      SortedTail(s);
      var t := Insert(x, s[1..]);
      assert s == [s[0]] + s[1..];
      InsertHeadBound(x, s, t);
      ConsSorted(s[0], t);
      [s[0]] + t
  }

  /** What goes behind the head of a sorted list starts no lower than it. */
  lemma InsertHeadBound(x: string, s: seq<string>, t: seq<string>)
    requires Sorted(s) && s != [] && !LessEq(x, s[0])
    requires multiset(t) == multiset(s[1..]) + multiset{x}
    ensures t != [] ==> LessEq(s[0], t[0])
  {
    if t != [] {
      assert t[0] in multiset(t);
      if t[0] == x {
        LessTotal(x, s[0]);
      } else {
        assert t[0] in s[1..];
        var k :| 0 <= k < |s[1..]| && s[1..][k] == t[0];
        assert s[k + 1] == t[0];
      }
    }
  }

  /** Python's `sorted` on a list of strings. */
  function Sort(s: seq<string>): (r: seq<string>)
    ensures Sorted(r)
    ensures multiset(r) == multiset(s)
  {
    if s == [] then []
    else
      assert s == [s[0]] + s[1..];
      Insert(s[0], Sort(s[1..]))
  }

  lemma SortedHeadIsLeast(a: seq<string>, y: string)
    requires Sorted(a) && a != [] && y in multiset(a)
    ensures LessEq(a[0], y)
  {
    assert y in a;
    var i :| 0 <= i < |a| && a[i] == y;
  }

  /** Two sorted lists with the same elements are the same list. */
  lemma {:induction false} SortedUnique(a: seq<string>, b: seq<string>)
    requires Sorted(a) && Sorted(b)
    requires multiset(a) == multiset(b)
    ensures a == b
  {
    if a == [] {
      assert |b| == |multiset(b)| == 0;
    } else {
      assert |b| == |multiset(b)| == |multiset(a)| == |a|;
      SortedHeadIsLeast(a, b[0]);
      SortedHeadIsLeast(b, a[0]);
      LessEqAntisymmetric(a[0], b[0]);
      SortedTail(a);
      SortedTail(b);
      TailMultiset(a);
      TailMultiset(b);
      SortedUnique(a[1..], b[1..]);
      SameHeadSameTail(a, b);
    }
  }

  lemma SortedTail(a: seq<string>)
    requires Sorted(a) && a != []
    ensures Sorted(a[1..])
  {
    forall i, j | 0 <= i < j < |a| - 1 ensures LessEq(a[1..][i], a[1..][j]) {
      assert a[1..][i] == a[i + 1] && a[1..][j] == a[j + 1];
    }
  }

  lemma TailMultiset<A>(a: seq<A>)
    requires a != []
    ensures multiset(a[1..]) == multiset(a) - multiset{a[0]}
  {
    assert a == [a[0]] + a[1..];
  }

  lemma SameHeadSameTail(a: seq<string>, b: seq<string>)
    requires a != [] && b != [] && a[0] == b[0] && a[1..] == b[1..]
    ensures a == b
  {
    assert a == [a[0]] + a[1..] && b == [b[0]] + b[1..];
  }

  /** Sorting forgets the order of its input. */
  lemma SortPermutationInvariant(s: seq<string>, t: seq<string>)
    requires multiset(s) == multiset(t)
    ensures Sort(s) == Sort(t)
  {
    SortedUnique(Sort(s), Sort(t));
  }

  // ---------------------------------------------------------------------
  // Mapping over sequences

  function Map<A, B>(f: A -> B, s: seq<A>): (r: seq<B>)
    ensures |r| == |s|
    ensures forall i :: 0 <= i < |s| ==> r[i] == f(s[i])
  {
    if s == [] then [] else [f(s[0])] + Map(f, s[1..])
  }

  lemma MapConcat<A, B>(f: A -> B, s: seq<A>, t: seq<A>)
    ensures Map(f, s + t) == Map(f, s) + Map(f, t)
  {
  }

  /** Mapping a permutation gives a permutation. */
  lemma {:induction false} MapPermutation<A, B>(f: A -> B, s: seq<A>, t: seq<A>)
    requires multiset(s) == multiset(t)
    ensures multiset(Map(f, s)) == multiset(Map(f, t))
    decreases |s|
  {
    if s == [] {
      assert |t| == |multiset(t)| == 0;
    } else {
      var i := IndexOf(t, s[0]);
      RemoveAt(t, i);
      TailMultiset(s);
      MapPermutation(f, s[1..], t[..i] + t[i + 1..]);
      MapPermutationStep(f, s, t, i);
    }
  }

  /** The step: `s[0]`, found at index `i` of `t`, maps to the same value. */
  lemma MapPermutationStep<A, B>(f: A -> B, s: seq<A>, t: seq<A>, i: nat)
    requires s != [] && i < |t| && t[i] == s[0]
    requires multiset(Map(f, s[1..])) == multiset(Map(f, t[..i] + t[i + 1..]))
    ensures multiset(Map(f, s)) == multiset(Map(f, t))
  {
    MapRemoveAt(f, t, i);
    MapRemoveAt(f, s, 0);
    assert s[..0] + s[1..] == s[1..];
  }

  lemma IndexOf<A>(t: seq<A>, x: A) returns (i: nat)
    requires x in multiset(t)
    ensures i < |t| && t[i] == x
  {
    assert x in t;
    i :| 0 <= i < |t| && t[i] == x;
  }

  /** Taking out the `i`-th element leaves the other elements. */
  lemma RemoveAt<A>(t: seq<A>, i: nat)
    requires i < |t|
    ensures t == t[..i] + [t[i]] + t[i + 1..]
    ensures |t[..i] + t[i + 1..]| < |t|
    ensures multiset(t[..i] + t[i + 1..]) == multiset(t) - multiset{t[i]}
  {
    assert t == t[..i] + [t[i]] + t[i + 1..];
  }

  lemma MapRemoveAt<A, B>(f: A -> B, t: seq<A>, i: nat)
    requires i < |t|
    ensures multiset(Map(f, t)) == multiset(Map(f, t[..i] + t[i + 1..])) + multiset{f(t[i])}
  {
    var a, b := t[..i], t[i + 1..];
    RemoveAt(t, i);
    MapConcat(f, a + [t[i]], b);
    MapConcat(f, a, [t[i]]);
    MapConcat(f, a, b);
    assert Map(f, [t[i]]) == [f(t[i])];
    var ma, mb := Map(f, a), Map(f, b);
    assert Map(f, t) == ma + [f(t[i])] + mb;
    assert multiset(ma + [f(t[i])] + mb) == multiset(ma) + multiset{f(t[i])} + multiset(mb);
    assert multiset(Map(f, a + b)) == multiset(ma) + multiset(mb);
  }

  // ---------------------------------------------------------------------
  // Building and searching strings

  /** Python's `sep.join(parts)`. */
  function Join(sep: string, parts: seq<string>): string {
    if parts == [] then ""
    else if |parts| == 1 then parts[0]
    else parts[0] + sep + Join(sep, parts[1..])
  }

  predicate StartsWith(s: string, prefix: string) {
    |prefix| <= |s| && s[..|prefix|] == prefix
  }

  predicate EndsWith(s: string, suffix: string) {
    |suffix| <= |s| && s[|s| - |suffix|..] == suffix
  }

  /** Python's `sub in s`. */
  predicate Contains(s: string, sub: string) {
    exists i :: 0 <= i <= |s| - |sub| && OccursAt(s, sub, i)
  }

  /** `sub` occurs in `s` starting at index `i`. */
  predicate OccursAt(s: string, sub: string, i: int) {
    0 <= i && i + |sub| <= |s| && s[i..i + |sub|] == sub
  }

  /** `s.split('/')[-1]`, and `os.path.basename(s)`: the longest suffix
      without a `/`. */
  function LastSegment(s: string): (r: string)
    ensures '/' !in r
    ensures EndsWith(s, r)
    ensures r == s || s[|s| - |r| - 1] == '/'
  {
    if s == [] || s[|s| - 1] == '/' then []
    else
      var r := LastSegment(s[..|s| - 1]);
      assert s[..|s| - 1] + [s[|s| - 1]] == s;
      r + [s[|s| - 1]]
  }

  /** The length of the longest prefix of `s` all of whose characters
      satisfy `p`: what a greedy `[...]*` consumes. */
  function PrefixLength(p: char -> bool, s: string): (n: nat)
    ensures n <= |s|
    ensures forall k :: 0 <= k < n ==> p(s[k])
    ensures n < |s| ==> !p(s[n])
  {
    if s != [] && p(s[0]) then 1 + PrefixLength(p, s[1..]) else 0
  }

  lemma {:induction false} PrefixLengthOf(p: char -> bool, a: string, b: string)
    requires forall k :: 0 <= k < |a| ==> p(a[k])
    requires b == [] || !p(b[0])
    ensures PrefixLength(p, a + b) == |a|
  {
    if a == [] {
      assert a + b == b;
    } else {
      assert (a + b)[1..] == a[1..] + b;
      PrefixLengthOf(p, a[1..], b);
    }
  }

  /** The length of the longest suffix of `s` all of whose characters
      satisfy `p`. */
  function SuffixLength(p: char -> bool, s: string): (n: nat)
    ensures n <= |s|
    ensures forall k :: |s| - n <= k < |s| ==> p(s[k])
    ensures n < |s| ==> !p(s[|s| - n - 1])
  {
    if s != [] && p(s[|s| - 1]) then 1 + SuffixLength(p, s[..|s| - 1]) else 0
  }

  lemma {:induction false} SuffixLengthOf(p: char -> bool, a: string, b: string)
    requires forall k :: 0 <= k < |b| ==> p(b[k])
    requires a == [] || !p(a[|a| - 1])
    ensures SuffixLength(p, a + b) == |b|
    decreases |b|
  {
    if b == [] {
      assert a + b == a;
    } else {
      assert (a + b)[..|a + b| - 1] == a + b[..|b| - 1];
      SuffixLengthOf(p, a, b[..|b| - 1]);
    }
  }

  /** `s.replace(a, b)` for single characters `a` and `b`. */
  function ReplaceChar(s: string, a: char, b: char): (r: string)
    ensures |r| == |s|
    ensures forall i :: 0 <= i < |s| ==> r[i] == (if s[i] == a then b else s[i])
  {
    if s == [] then [] else [if s[0] == a then b else s[0]] + ReplaceChar(s[1..], a, b)
  }

  /** `s.lstrip(c)` for a single character `c`. */
  function LStrip(s: string, c: char): string {
    if s != [] && s[0] == c then LStrip(s[1..], c) else s
  }

  /** `lstrip` removes exactly the leading run of `c`. */
  lemma {:induction false} LStripShape(s: string, c: char)
    ensures |LStrip(s, c)| <= |s| && LStrip(s, c) == s[|s| - |LStrip(s, c)|..]
    ensures forall i :: 0 <= i < |s| - |LStrip(s, c)| ==> s[i] == c
    ensures LStrip(s, c) == [] || LStrip(s, c)[0] != c
  {
    if s != [] && s[0] == c {
      LStripShape(s[1..], c);
      forall i | 1 <= i < |s| - |LStrip(s, c)| ensures s[i] == c {
        assert s[i] == s[1..][i - 1];
      }
    }
  }

  /** `s.rstrip(c)` for a single character `c`. */
  function RStrip(s: string, c: char): string {
    if s != [] && s[|s| - 1] == c then RStrip(s[..|s| - 1], c) else s
  }

  /** `rstrip` removes exactly the trailing run of `c`. */
  lemma {:induction false} RStripShape(s: string, c: char)
    ensures |RStrip(s, c)| <= |s| && RStrip(s, c) == s[..|RStrip(s, c)|]
    ensures forall i :: |RStrip(s, c)| <= i < |s| ==> s[i] == c
    ensures RStrip(s, c) == [] || RStrip(s, c)[|RStrip(s, c)| - 1] != c
  {
    if s != [] && s[|s| - 1] == c {
      RStripShape(s[..|s| - 1], c);
      forall i | |RStrip(s, c)| <= i < |s| - 1 ensures s[i] == c {
        assert s[i] == s[..|s| - 1][i];
      }
    }
  }

  /** A string that does not start with `c` keeps its first character. */
  lemma {:induction false} RStripKeepsHead(s: string, c: char)
    requires s != [] && s[0] != c
    ensures RStrip(s, c) != [] && RStrip(s, c)[0] == s[0]
    decreases |s|
  {
    if s[|s| - 1] == c {
      RStripKeepsHead(s[..|s| - 1], c);
    }
  }

  /** `s.strip(c)` for a single character `c`. */
  function Strip(s: string, c: char): string {
    RStrip(LStrip(s, c), c)
  }

  /** Every character in `s` is `c` except an inner slice: `Strip(s, c)`
      removes exactly the leading and trailing runs of `c`. */
  lemma StripShape(s: string, c: char) returns (i: nat, j: nat)
    ensures i <= j <= |s| && Strip(s, c) == s[i..j]
    ensures forall k :: 0 <= k < i ==> s[k] == c
    ensures forall k :: j <= k < |s| ==> s[k] == c
    ensures Strip(s, c) == [] || (Strip(s, c)[0] != c && Strip(s, c)[|Strip(s, c)| - 1] != c)
  {
    var l := LStrip(s, c);
    LStripShape(s, c);
    i := |s| - |l|;
    var r := RStrip(l, c);
    RStripShape(l, c);
    j := i + |r|;
    assert r == l[..|r|];
    assert l == s[i..];
    forall k | j <= k < |s| ensures s[k] == c {
      assert s[k] == l[k - i];
    }
    if r != [] {
      assert r[0] == l[0];
    }
  }

  /** Python's `str.lower()` on the ASCII letters; other characters are kept. */
  function LowerChar(c: char): char {
    if 'A' <= c <= 'Z' then (c as int + 32) as char else c
  }

  function Lower(s: string): (r: string)
    ensures |r| == |s|
    ensures forall i :: 0 <= i < |s| ==> r[i] == LowerChar(s[i])
  {
    if s == [] then [] else [LowerChar(s[0])] + Lower(s[1..])
  }

  predicate IsDigit(c: char) { '0' <= c <= '9' }
  predicate IsUpper(c: char) { 'A' <= c <= 'Z' }
  predicate IsLowerLetter(c: char) { 'a' <= c <= 'z' }
  predicate IsLetter(c: char) { IsUpper(c) || IsLowerLetter(c) }

  predicate AllDigits(s: string) {
    forall i :: 0 <= i < |s| ==> IsDigit(s[i])
  }

  /** Decimal rendering of a natural number. */
  function NatToString(n: nat): (r: string)
    ensures r != [] && AllDigits(r)
  {
    var d := ['0', '1', '2', '3', '4', '5', '6', '7', '8', '9'][n % 10];
    if n < 10 then [d] else NatToString(n / 10) + [d]
  }
}
