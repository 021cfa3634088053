/** An ASCII model of Django's `slugify`, the title normaliser of the
    fingerprint: after Unicode decomposition and dropping what is not
    ASCII, remove every character that is neither a word character, a
    space nor a dash, strip the spaces at both ends, lower-case, and turn
    each run of dashes and spaces into one dash. Python 2's ASCII classes
    apply: word characters are letters, digits and `_`; spaces are
    space, tab, newline, carriage return, form feed and vertical tab. */
module Slug {
  import opened Strings

  predicate IsSpace(c: char) {
    c == ' ' || c == '\t' || c == '\n' || c == '\r' || c == '\U{B}' || c == '\U{C}'
  }

  predicate IsWordChar(c: char) {
    IsLetter(c) || IsDigit(c) || c == '_'
  }

  /** A character `re.sub('[^\w\s-]', '', ...)` keeps. */
  predicate Kept(c: char) {
    IsWordChar(c) || IsSpace(c) || c == '-'
  }

  /** A character of the class `[-\s]` the last step collapses. */
  predicate IsDash(c: char) {
    c == '-' || IsSpace(c)
  }

  /** A character that may appear in a slug. */
  predicate SlugChar(c: char) {
    IsLowerLetter(c) || IsDigit(c) || c == '_' || c == '-'
  }

  function KeepWordChars(s: string): (r: string)
    ensures forall i :: 0 <= i < |r| ==> Kept(r[i])
  {
    if s == [] then []
    else (if Kept(s[0]) then [s[0]] else []) + KeepWordChars(s[1..])
  }

  function LStripSpace(s: string): (r: string)
    ensures |r| <= |s| && r == s[|s| - |r|..]
  {
    if s != [] && IsSpace(s[0]) then LStripSpace(s[1..]) else s
  }

  function RStripSpace(s: string): (r: string)
    ensures |r| <= |s| && r == s[..|r|]
  {
    if s != [] && IsSpace(s[|s| - 1]) then RStripSpace(s[..|s| - 1]) else s
  }

  /** `str.strip()` on what `KeepWordChars` leaves. */
  function StripSpace(s: string): (r: string)
    ensures forall i :: 0 <= i < |r| ==> r[i] in s
  {
    var l := LStripSpace(s);
    var r := RStripSpace(l);
    InnerSlice(s, l, r);
    r
  }

  /** A prefix of a suffix of `s` holds only characters of `s`. */
  lemma InnerSlice(s: string, l: string, r: string)
    requires |l| <= |s| && l == s[|s| - |l|..]
    requires |r| <= |l| && r == l[..|r|]
    ensures forall i :: 0 <= i < |r| ==> r[i] in s
  {
    forall i | 0 <= i < |r| ensures r[i] in s {
      assert r[i] == l[i] == s[|s| - |l| + i];
    }
  }

  /** The run of `[-\s]` at the head of `s`, dropped. */
  function DropDashes(s: string): (r: string)
    ensures |r| <= |s| && r == s[|s| - |r|..]
    ensures s != [] && IsDash(s[0]) ==> |r| < |s|
    ensures r == [] || !IsDash(r[0])
  {
    if s != [] && IsDash(s[0]) then DropDashes(s[1..]) else s
  }

  /** `re.sub('[-\s]+', '-', s)`. */
  function Collapse(s: string): (r: string)
    ensures forall i :: 0 <= i < |r| ==> r[i] == '-' || (r[i] in s && !IsDash(r[i]))
    decreases |s|
  {
    if s == [] then []
    else if IsDash(s[0]) then
      var t := DropDashes(s);
      var r := "-" + Collapse(t);
      assert forall c :: c in t ==> c in s;
      r
    else [s[0]] + Collapse(s[1..])
  }

  /** Django's `slugify`, on the ASCII characters. */
  function Slugify(s: string): (r: string)
    ensures forall i :: 0 <= i < |r| ==> SlugChar(r[i])
  {
    var kept := KeepWordChars(s);
    var stripped := StripSpace(kept);
    var lowered := Lower(stripped);
    assert forall i :: 0 <= i < |lowered| ==> Kept(lowered[i]) && !IsUpper(lowered[i]);
    Collapse(lowered)
  }

  // ---------------------------------------------------------------------
  // Case- and punctuation-insensitivity

  lemma {:induction false} KeepLowerCommute(s: string)
    ensures KeepWordChars(Lower(s)) == Lower(KeepWordChars(s))
  {
    if s != [] {
      KeepLowerCommute(s[1..]);
      assert Lower(s) == [LowerChar(s[0])] + Lower(s[1..]);
      var k := if Kept(s[0]) then [s[0]] else [];
      assert Lower(k + KeepWordChars(s[1..])) == Lower(k) + Lower(KeepWordChars(s[1..]));
    }
  }

  lemma LowerConcat(a: string, b: string)
    ensures Lower(a + b) == Lower(a) + Lower(b)
  {
  }

  lemma {:induction false} LStripLowerCommute(s: string)
    ensures LStripSpace(Lower(s)) == Lower(LStripSpace(s))
  {
    if s != [] {
      assert Lower(s)[0] == LowerChar(s[0]);
      assert IsSpace(LowerChar(s[0])) == IsSpace(s[0]);
      assert Lower(s)[1..] == Lower(s[1..]);
      if IsSpace(s[0]) {
        LStripLowerCommute(s[1..]);
      }
    }
  }

  lemma {:induction false} RStripLowerCommute(s: string)
    ensures RStripSpace(Lower(s)) == Lower(RStripSpace(s))
  {
    if s != [] {
      assert Lower(s)[|s| - 1] == LowerChar(s[|s| - 1]);
      assert IsSpace(LowerChar(s[|s| - 1])) == IsSpace(s[|s| - 1]);
      assert Lower(s)[..|s| - 1] == Lower(s[..|s| - 1]);
      if IsSpace(s[|s| - 1]) {
        RStripLowerCommute(s[..|s| - 1]);
      }
    }
  }

  lemma LowerIdempotent(s: string)
    ensures Lower(Lower(s)) == Lower(s)
  {
  }

  /** Letter case does not matter to a slug. */
  lemma SlugifyIgnoresCase(s: string)
    ensures Slugify(Lower(s)) == Slugify(s)
  {
    KeepLowerCommute(s);
    var k := KeepWordChars(s);
    LStripLowerCommute(k);
    RStripLowerCommute(LStripSpace(k));
    LowerIdempotent(StripSpace(k));
  }

  lemma KeepConcat(a: string, b: string)
    ensures KeepWordChars(a + b) == KeepWordChars(a) + KeepWordChars(b)
  {
    if a == [] {
      assert a + b == b;
    } else {
      var k := if Kept(a[0]) then [a[0]] else [];
      assert (a + b)[0] == a[0];
      assert (a + b)[1..] == a[1..] + b;
      KeepConcat(a[1..], b);
      calc {
        KeepWordChars(a + b);
        k + KeepWordChars(a[1..] + b);
        k + (KeepWordChars(a[1..]) + KeepWordChars(b));
        (k + KeepWordChars(a[1..])) + KeepWordChars(b);
      }
    }
  }

  /** Deleting a punctuation character does not change the slug. */
  lemma SlugifyIgnoresPunctuation(s: string, i: nat)
    requires i < |s| && !Kept(s[i])
    ensures Slugify(s[..i] + s[i + 1..]) == Slugify(s)
  {
    assert s == s[..i] + ([s[i]] + s[i + 1..]);
    KeepConcat(s[..i], [s[i]] + s[i + 1..]);
    KeepConcat([s[i]], s[i + 1..]);
    KeepConcat(s[..i], s[i + 1..]);
    assert KeepWordChars([s[i]]) == [];
    assert KeepWordChars(s) == KeepWordChars(s[..i] + s[i + 1..]);
  }

  lemma LowerExample()
    ensures Lower("The Group") == "the group"
  {
    var r := Lower("The Group");
    assert forall i :: 0 <= i < 9 ==> r[i] == LowerChar("The Group"[i]);
    assert LowerChar('T') == 't' && LowerChar('G') == 'g';
  }

  /** A title and its shouted spelling with a trailing "!" give one
      slug. */
  lemma SlugifyExample(loud: string, quiet: string)
    requires loud == "The Group!" && quiet == "the group"
    ensures Slugify(loud) == Slugify(quiet)
  {
    var plain := loud[..9] + loud[10..];
    assert plain == "The Group";
    assert !Kept(loud[9]);
    SlugifyIgnoresPunctuation(loud, 9);
    SlugifyIgnoresCase(plain);
    LowerExample();
  }
}
