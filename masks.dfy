/**
 * Boolean-mask selection of rows, as a dataframe does it: keep the rows a
 * predicate accepts, in their original order. Used both for dropping
 * incomplete rows and for the view's ticker-and-date filter.
 */
module Masks {

  /** The elements of `s` that `p` accepts, in the order of `s`. */
  function Keep<T>(s: seq<T>, p: T -> bool): (r: seq<T>)
    ensures |r| <= |s|
    ensures forall x :: x in r ==> x in s && p(x)
  {
    if s == [] then []
    else if p(s[0]) then [s[0]] + Keep(s[1..], p)
    else Keep(s[1..], p)
  }

  /** Every pair of elements of `s`, taken in order, is related by `R`. */
  ghost predicate Pairwise<T>(s: seq<T>, R: (T, T) -> bool) {
    forall i, j :: 0 <= i < j < |s| ==> R(s[i], s[j])
  }

  /** Keep retains exactly the accepted elements, each as often as it occurs. */
  lemma {:induction false} KeepCount<T>(s: seq<T>, p: T -> bool, x: T)
    ensures multiset(Keep(s, p))[x] == if p(x) then multiset(s)[x] else 0
  {
    if s != [] {
      KeepCount(s[1..], p, x);
      assert s == [s[0]] + s[1..];
    }
  }

  /** Every accepted element of `s` survives the mask. */
  lemma KeepComplete<T>(s: seq<T>, p: T -> bool, x: T)
    requires x in s && p(x)
    ensures x in Keep(s, p)
  {
    KeepCount(s, p, x);
  }

  /** Masking a concatenation masks each part: the original order is kept. */
  lemma {:induction false} KeepAppend<T>(a: seq<T>, b: seq<T>, p: T -> bool)
    ensures Keep(a + b, p) == Keep(a, p) + Keep(b, p)
  {
    if a == [] {
      assert a + b == b;
    } else {
      assert (a + b)[1..] == a[1..] + b;
      KeepAppend(a[1..], b, p);
    }
  }

  /** Two predicates that agree on the elements of `s` select the same rows. */
  lemma {:induction false} KeepAgree<T>(s: seq<T>, p: T -> bool, q: T -> bool)
    requires forall x :: x in s ==> p(x) == q(x)
    ensures Keep(s, p) == Keep(s, q)
  {
    if s != [] {
      assert forall x :: x in s[1..] ==> x in s;
      KeepAgree(s[1..], p, q);
    }
  }

  /** A mask keeps any relation that held between the elements in order. */
  lemma {:induction false} KeepPairwise<T>(s: seq<T>, p: T -> bool, R: (T, T) -> bool)
    requires Pairwise(s, R)
    ensures Pairwise(Keep(s, p), R)
  {
    if s != [] {
      var t := s[1..];
      assert Pairwise(t, R) by {
        forall i, j | 0 <= i < j < |t| ensures R(t[i], t[j]) {
          assert t[i] == s[i + 1] && t[j] == s[j + 1];
        }
      }
      KeepPairwise(t, p, R);
      if p(s[0]) {
        var k := Keep(t, p);
        var r := [s[0]] + k;
        forall i, j | 0 <= i < j < |r| ensures R(r[i], r[j]) {
          if i == 0 {
            assert r[j] in t;
            var m :| 0 <= m < |t| && t[m] == r[j];
            assert s[m + 1] == r[j];
          } else {
            assert r[i] == k[i - 1] && r[j] == k[j - 1];
          }
        }
      }
    }
  }

  /**
   * The element at position `m` of the mask comes from some position `k`
   * of `s`, and what the mask keeps before it is exactly the mask of the
   * elements of `s` before `k`.
   */
  lemma {:induction false} KeepSource<T>(s: seq<T>, p: T -> bool, m: nat)
    requires m < |Keep(s, p)|
    ensures exists k :: 0 <= k < |s| && s[k] == Keep(s, p)[m] && p(s[k]) && Keep(s[..k], p) == Keep(s, p)[..m]
  {
    var t := s[1..];
    if p(s[0]) && m == 0 {
      assert s[..0] == [];
      assert Keep(s, p)[..0] == [];
    } else {
      var m' := if p(s[0]) then m - 1 else m;
      KeepSource(t, p, m');
      var k :| 0 <= k < |t| && t[k] == Keep(t, p)[m'] && p(t[k]) && Keep(t[..k], p) == Keep(t, p)[..m'];
      KeepPrefixCons(s, p, k);
      assert s[k + 1] == t[k];
      if p(s[0]) {
        var r := Keep(t, p);
        assert Keep(s, p) == [s[0]] + r;
        assert ([s[0]] + r)[..m] == [s[0]] + r[..m'];
      }
    }
  }

  /** The mask of a prefix of `s` of length `k + 1`, by its first element. */
  lemma KeepPrefixCons<T>(s: seq<T>, p: T -> bool, k: nat)
    requires k < |s|
    ensures Keep(s[..k + 1], p) == (if p(s[0]) then [s[0]] else []) + Keep(s[1..][..k], p)
  {
    var u := s[..k + 1];
    assert u[0] == s[0] && u[1..] == s[1..][..k];
  }

  /** An accepted element before position `k` of `s` is kept before the mask's own position `m`. */
  lemma KeepBefore<T>(s: seq<T>, p: T -> bool, k: nat, m: nat, j: nat)
    requires k <= |s| && m <= |Keep(s, p)| && Keep(s[..k], p) == Keep(s, p)[..m]
    requires j < k && p(s[j])
    ensures exists i :: 0 <= i < m && Keep(s, p)[i] == s[j]
  {
    assert s[j] == s[..k][j];
    KeepComplete(s[..k], p, s[j]);
    var i :| 0 <= i < m && Keep(s, p)[..m][i] == s[j];
  }
}
