/**
 * Ticker symbols: the loader's normalisation (strip surrounding
 * whitespace, then uppercase) and the string order the distinct tickers
 * are sorted by.
 */
module Tickers {

  /** The characters Python's `str.isspace` accepts, which `str.strip` removes. */
  const Whitespace: set<char> := {
    '\t', '\n', '\U{B}', '\U{C}', '\r', '\U{1C}', '\U{1D}', '\U{1E}', '\U{1F}', ' ',
    '\U{85}', '\U{A0}', '\U{1680}',
    '\U{2000}', '\U{2001}', '\U{2002}', '\U{2003}', '\U{2004}', '\U{2005}',
    '\U{2006}', '\U{2007}', '\U{2008}', '\U{2009}', '\U{200A}',
    '\U{2028}', '\U{2029}', '\U{202F}', '\U{205F}', '\U{3000}'}

  predicate IsSpace(c: char) {
    c in Whitespace
  }

  /** The number of whitespace characters `s` starts with. */
  function LeadingSpaces(s: string): (n: nat)
    ensures n <= |s|
    ensures forall k :: 0 <= k < n ==> IsSpace(s[k])
    ensures n < |s| ==> !IsSpace(s[n])
  {
    if s != [] && IsSpace(s[0]) then 1 + LeadingSpaces(s[1..]) else 0
  }

  /** The number of whitespace characters `s` ends with. */
  function TrailingSpaces(s: string): (n: nat)
    ensures n <= |s|
    ensures forall k :: |s| - n <= k < |s| ==> IsSpace(s[k])
    ensures n < |s| ==> !IsSpace(s[|s| - n - 1])
  {
    if s != [] && IsSpace(s[|s| - 1]) then 1 + TrailingSpaces(s[..|s| - 1]) else 0
  }

  /** `s` without its leading whitespace. */
  function TrimLeft(s: string): string {
    s[LeadingSpaces(s)..]
  }

  /** `s` without its trailing whitespace. */
  function TrimRight(s: string): string {
    s[..|s| - TrailingSpaces(s)]
  }

  /**
   * Python's `str.strip()` without arguments: it keeps exactly the middle of
   * `s`, cutting off only whitespace and leaving none at either end.
   */
  function Strip(s: string): (r: string)
    ensures var i := LeadingSpaces(s);
      && i + |r| <= |s| && r == s[i..i + |r|]
      && (forall k :: 0 <= k < i ==> IsSpace(s[k]))
      && (forall k :: i + |r| <= k < |s| ==> IsSpace(s[k]))
      && (r != [] ==> !IsSpace(r[0]) && !IsSpace(r[|r| - 1]))
  {
    TrimBoth(s);
    TrimRight(TrimLeft(s))
  }

  /** The proof of `Strip`'s contract, about its two trimming steps. */
  lemma {:induction false} TrimBoth(s: string)
    ensures var i, r := LeadingSpaces(s), TrimRight(TrimLeft(s));
      && i + |r| <= |s| && r == s[i..i + |r|]
      && (forall k :: 0 <= k < i ==> IsSpace(s[k]))
      && (forall k :: i + |r| <= k < |s| ==> IsSpace(s[k]))
      && (r != [] ==> !IsSpace(r[0]) && !IsSpace(r[|r| - 1]))
  {
    var i := LeadingSpaces(s);
    var l := s[i..];
    var j := TrailingSpaces(l);
    var r := l[..|l| - j];
    assert r == s[i..|s| - j];
    forall k | |s| - j <= k < |s| ensures IsSpace(s[k]) {
      assert s[k] == l[k - i];
    }
    if r != [] {
      assert r[0] == s[i];
      assert r[|r| - 1] == l[|l| - j - 1];
    }
  }

  predicate IsLowerAscii(c: char) {
    'a' <= c <= 'z'
  }

  /** Uppercasing of one character, for the ASCII letters. */
  function UpperChar(c: char): char {
    if IsLowerAscii(c) then (c as int - 32) as char else c
  }

  /**
   * Python's `str.upper()`, restricted to ASCII letters: each lower-case
   * ASCII letter moves to its capital, every other character stays, and no
   * lower-case ASCII letter is left.
   */
  function Upper(s: string): (r: string)
    ensures |r| == |s|
    ensures forall i :: 0 <= i < |s| ==>
      && !IsLowerAscii(r[i])
      && IsSpace(r[i]) == IsSpace(s[i])
      && (IsLowerAscii(s[i]) ==> r[i] as int == s[i] as int - 32)
      && (!IsLowerAscii(s[i]) ==> r[i] == s[i])
  {
    seq(|s|, i requires 0 <= i < |s| => UpperChar(s[i]))
  }

  /** The ticker normalisation the loader applies to every row; its result is trimmed and has no lower-case ASCII letter. */
  function Normalize(s: string): (r: string)
    ensures |r| <= |s|
    ensures Normalized(r)
  {
    Upper(Strip(s))
  }

  /** A ticker that normalisation leaves alone: trimmed and free of lower-case ASCII letters. */
  predicate Normalized(t: string) {
    && (t != [] ==> !IsSpace(t[0]) && !IsSpace(t[|t| - 1]))
    && forall i :: 0 <= i < |t| ==> !IsLowerAscii(t[i])
  }

  /** Uppercasing neither creates nor removes whitespace. */
  lemma UpperCharSpace(c: char)
    ensures IsSpace(UpperChar(c)) == IsSpace(c)
    ensures !IsLowerAscii(UpperChar(c))
  {
  }

  /** Normalisation leaves a normalised ticker unchanged. */
  lemma {:induction false} NormalizedFixed(t: string)
    requires Normalized(t)
    ensures Normalize(t) == t
  {
    assert LeadingSpaces(t) == 0;
    assert TrimLeft(t) == t;
    assert TrailingSpaces(t) == 0;
    assert TrimRight(t) == t;
    assert Upper(t) == t;
  }

  /** Normalising twice is normalising once. */
  lemma {:induction false} NormalizeIdempotent(s: string)
    ensures Normalize(Normalize(s)) == Normalize(s)
  {
    NormalizedFixed(Normalize(s));
  }

  /** Python's string `<`: lexicographic by code point, a proper prefix first. */
  predicate LexLess(a: string, b: string) {
    if a == [] then b != []
    else if b == [] then false
    else if a[0] == b[0] then LexLess(a[1..], b[1..])
    else a[0] < b[0]
  }

  lemma {:induction false} LexLessIrreflexive(a: string)
    ensures !LexLess(a, a)
  {
    if a != [] {
      LexLessIrreflexive(a[1..]);
    }
  }

  lemma {:induction false} LexLessTransitive(a: string, b: string, c: string)
    requires LexLess(a, b) && LexLess(b, c)
    ensures LexLess(a, c)
  {
    if a != [] && b != [] && c != [] && a[0] == b[0] && b[0] == c[0] {
      LexLessTransitive(a[1..], b[1..], c[1..]);
    }
  }

  /** Any two different strings are ordered one way or the other. */
  lemma {:induction false} LexLessTotal(a: string, b: string)
    requires a != b
    ensures LexLess(a, b) || LexLess(b, a)
  {
    if a != [] && b != [] && a[0] == b[0] {
      assert a == [a[0]] + a[1..] && b == [b[0]] + b[1..];
      LexLessTotal(a[1..], b[1..]);
    }
  }

  lemma {:induction false} LexLessAsymmetric(a: string, b: string)
    requires LexLess(a, b)
    ensures !LexLess(b, a)
  {
    if LexLess(b, a) {
      LexLessTransitive(a, b, a);
      LexLessIrreflexive(a);
    }
  }

  /** Strictly increasing in string order, hence also free of duplicates. */
  ghost predicate StrictlySorted(s: seq<string>) {
    forall i, j :: 0 <= i < j < |s| ==> LexLess(s[i], s[j])
  }

  function Elements(s: seq<string>): set<string> {
    set x | x in s
  }

  /** Adds `t` to a strictly sorted list of distinct strings, keeping it so. */
  function InsertUnique(t: string, s: seq<string>): seq<string> {
    if s == [] then [t]
    else if t == s[0] then s
    else if LexLess(t, s[0]) then [t] + s
    else [s[0]] + InsertUnique(t, s[1..])
  }

  lemma {:induction false} StrictlySortedTail(s: seq<string>)
    requires s != [] && StrictlySorted(s)
    ensures StrictlySorted(s[1..])
  {
    forall i, j | 0 <= i < j < |s[1..]| ensures LexLess(s[1..][i], s[1..][j]) {
      assert s[1..][i] == s[i + 1] && s[1..][j] == s[j + 1];
    }
  }

  /** Inserting before a larger head. */
  lemma InsertFrontSpec(t: string, s: seq<string>)
    requires s != [] && LexLess(t, s[0])
    ensures Elements([t] + s) == Elements(s) + {t}
    ensures StrictlySorted(s) ==> StrictlySorted([t] + s)
  {
    var r := [t] + s;
    assert forall x :: x in r <==> x == t || x in s;
    if StrictlySorted(s) {
      forall i, j | 0 <= i < j < |r| ensures LexLess(r[i], r[j]) {
        if i == 0 && j > 1 {
          LexLessTransitive(t, s[0], s[j - 1]);
        } else if i > 0 {
          assert r[i] == s[i - 1] && r[j] == s[j - 1];
        }
      }
    }
  }

  /** The head of a strictly sorted list is below every later element. */
  lemma HeadBelow(h: string, s: seq<string>)
    requires StrictlySorted([h] + s)
    ensures forall x :: x in s ==> LexLess(h, x)
  {
    forall x | x in s ensures LexLess(h, x) {
      var m :| 0 <= m < |s| && s[m] == x;
      var hs := [h] + s;
      assert hs[0] == h && hs[m + 1] == x;
      assert LexLess(hs[0], hs[m + 1]);
    }
  }

  /** Putting back the head in front of the tail that received the new ticker. */
  lemma ConsElements(h: string, t: string, s: seq<string>, rest: seq<string>)
    requires Elements(rest) == Elements(s) + {t}
    ensures Elements([h] + rest) == Elements([h] + s) + {t}
  {
    assert forall x :: x in [h] + rest <==> x == h || x in rest;
    assert forall x :: x in [h] + s <==> x == h || x in s;
    forall x ensures x in Elements([h] + rest) <==> x in Elements([h] + s) + {t} {
      assert x in Elements(rest) <==> x in Elements(s) + {t};
    }
  }

  lemma ConsSorted(h: string, t: string, s: seq<string>, rest: seq<string>)
    requires forall x :: x in rest ==> x == t || x in s
    requires LexLess(h, t)
    requires StrictlySorted([h] + s) && StrictlySorted(rest)
    ensures StrictlySorted([h] + rest)
  {
    HeadBelow(h, s);
    var r := [h] + rest;
    forall i, j | 0 <= i < j < |r| ensures LexLess(r[i], r[j]) {
      if i == 0 {
        assert r[j] in rest;
      } else {
        assert r[i] == rest[i - 1] && r[j] == rest[j - 1];
      }
    }
  }

  /** Inserting adds exactly `t` and keeps the list strictly sorted. */
  lemma {:induction false} InsertUniqueSpec(t: string, s: seq<string>)
    ensures Elements(InsertUnique(t, s)) == Elements(s) + {t}
    ensures StrictlySorted(s) ==> StrictlySorted(InsertUnique(t, s))
  {
    if s == [] {
    } else if t == s[0] {
      assert s[0] in s;
    } else if LexLess(t, s[0]) {
      InsertFrontSpec(t, s);
    } else {
      LexLessTotal(t, s[0]);
      InsertUniqueSpec(t, s[1..]);
      if StrictlySorted(s) {
        StrictlySortedTail(s);
      }
      var rest := InsertUnique(t, s[1..]);
      assert s == [s[0]] + s[1..];
      ConsElements(s[0], t, s[1..], rest);
      if StrictlySorted(s) {
        assert forall x :: x in rest ==> x in Elements(rest);
        ConsSorted(s[0], t, s[1..], rest);
      }
    }
  }
}
