/**
 * Order-preserving filtering, the shape of Python's
 * `[x for x in xs if p(x)]`, with the facts the list filters of the scripts
 * rely on.
 */
module Seqs {

  /** `[x for x in s if p(x)]` */
  function Keep<T(==)>(s: seq<T>, p: T -> bool): (r: seq<T>)
    ensures |r| <= |s|
    ensures forall i :: 0 <= i < |r| ==> r[i] in s && p(r[i])
    ensures forall i :: 0 <= i < |s| && p(s[i]) ==> s[i] in r
    decreases |s|
  {
    if s == [] then []
    else (if p(s[0]) then [s[0]] else []) + Keep(s[1..], p)
  }

  /** How many elements of s satisfy p. */
  function Count<T>(s: seq<T>, p: T -> bool): nat
    decreases |s|
  {
    if s == [] then 0 else (if p(s[0]) then 1 else 0) + Count(s[1..], p)
  }

  /** a can be obtained from b by deleting elements (order preserved). */
  predicate IsSubseq<T(==)>(a: seq<T>, b: seq<T>)
    decreases |b|
  {
    if a == [] then true
    else if b == [] then false
    else (a[0] == b[0] && IsSubseq(a[1..], b[1..])) || IsSubseq(a, b[1..])
  }

  lemma {:induction false} KeepIsSubseq<T>(s: seq<T>, p: T -> bool)
    ensures IsSubseq(Keep(s, p), s)
    ensures |Keep(s, p)| == Count(s, p)
    decreases |s|
  {
    if s != [] {
      KeepIsSubseq(s[1..], p);
      var k := Keep(s, p);
      if p(s[0]) {
        assert k[0] == s[0] && k[1..] == Keep(s[1..], p);
      } else {
        assert k == Keep(s[1..], p);
      }
    }
  }

  /** A subsequence whose elements all satisfy p has at most Count(s, p) of them. */
  lemma {:induction false} SubseqCountBound<T>(a: seq<T>, s: seq<T>, p: T -> bool)
    requires IsSubseq(a, s)
    requires forall i :: 0 <= i < |a| ==> p(a[i])
    ensures |a| <= Count(s, p)
    decreases |s|
  {
    if a != [] {
      if a[0] == s[0] && IsSubseq(a[1..], s[1..]) {
        SubseqCountBound(a[1..], s[1..], p);
        assert p(a[0]);
      } else {
        SubseqCountBound(a, s[1..], p);
      }
    }
  }

  /**
   * Keep is characterised by three facts: its result is a subsequence of s,
   * every element satisfies p, and it has Count(s, p) elements. Any sequence
   * with these three properties is Keep(s, p).
   */
  lemma {:induction false} KeepUnique<T>(a: seq<T>, s: seq<T>, p: T -> bool)
    requires IsSubseq(a, s)
    requires forall i :: 0 <= i < |a| ==> p(a[i])
    requires |a| == Count(s, p)
    ensures a == Keep(s, p)
    decreases |s|
  {
    if s != [] {
      if a != [] && a[0] == s[0] && IsSubseq(a[1..], s[1..]) {
        assert p(s[0]);
        KeepUnique(a[1..], s[1..], p);
        assert a == [a[0]] + a[1..];
      } else if a == [] {
        KeepIsSubseq(s, p);
        assert Keep(s, p) == [];
      } else {
        assert IsSubseq(a, s[1..]);
        SubseqCountBound(a, s[1..], p);
        if p(s[0]) {
          assert false;
        }
        KeepUnique(a, s[1..], p);
      }
    }
  }

  /** Filtering twice with the same predicate changes nothing more. */
  lemma {:induction false} KeepIdempotent<T>(s: seq<T>, p: T -> bool)
    ensures Keep(Keep(s, p), p) == Keep(s, p)
    decreases |s|
  {
    if s != [] {
      KeepIdempotent(s[1..], p);
      var k := Keep(s, p);
      if p(s[0]) {
        assert k[0] == s[0] && k[1..] == Keep(s[1..], p);
        assert Keep(k, p) == [s[0]] + Keep(k[1..], p);
      } else {
        assert k == Keep(s[1..], p);
      }
    }
  }

  /** Two filters may be applied in either order. */
  lemma {:induction false} KeepCommutes<T>(s: seq<T>, p: T -> bool, q: T -> bool)
    ensures Keep(Keep(s, p), q) == Keep(Keep(s, q), p)
    decreases |s|
  {
    if s != [] {
      KeepCommutes(s[1..], p, q);
      var kp, kq := Keep(s, p), Keep(s, q);
      if p(s[0]) {
        assert kp[0] == s[0] && kp[1..] == Keep(s[1..], p);
      } else {
        assert kp == Keep(s[1..], p);
      }
      if q(s[0]) {
        assert kq[0] == s[0] && kq[1..] == Keep(s[1..], q);
      } else {
        assert kq == Keep(s[1..], q);
      }
    }
  }

  /** Counting over a prefix one element longer. */
  lemma {:induction false} CountSnoc<T>(s: seq<T>, x: T, p: T -> bool)
    ensures Count(s + [x], p) == Count(s, p) + (if p(x) then 1 else 0)
    decreases |s|
  {
    if s != [] {
      assert (s + [x])[1..] == s[1..] + [x];
      CountSnoc(s[1..], x, p);
    }
  }

  lemma {:induction false} CountAppend<T>(s: seq<T>, t: seq<T>, p: T -> bool)
    ensures Count(s + t, p) == Count(s, p) + Count(t, p)
    decreases |s|
  {
    if s != [] {
      assert (s + t)[1..] == s[1..] + t;
      CountAppend(s[1..], t, p);
    } else {
      assert s + t == t;
    }
  }

  lemma {:induction false} CountBound<T>(s: seq<T>, p: T -> bool)
    ensures Count(s, p) <= |s|
    decreases |s|
  {
    if s != [] {
      CountBound(s[1..], p);
    }
  }

  /** Every element satisfies p exactly when all of them are counted. */
  lemma {:induction false} CountAll<T>(s: seq<T>, p: T -> bool)
    ensures Count(s, p) == |s| <==> forall i :: 0 <= i < |s| ==> p(s[i])
    decreases |s|
  {
    if s != [] {
      CountAll(s[1..], p);
      CountBound(s[1..], p);
      assert forall i :: 0 <= i < |s| - 1 ==> s[1..][i] == s[i + 1];
    }
  }

  /** One element satisfying p makes the count positive. */
  lemma {:induction false} CountPositive<T>(s: seq<T>, p: T -> bool, i: nat)
    requires i < |s| && p(s[i])
    ensures Count(s, p) > 0
    decreases i
  {
    if i > 0 {
      CountPositive(s[1..], p, i - 1);
    }
  }

  /** Nothing is counted when no element satisfies p. */
  lemma {:induction false} CountNone<T>(s: seq<T>, p: T -> bool)
    requires forall i :: 0 <= i < |s| ==> !p(s[i])
    ensures Count(s, p) == 0
    decreases |s|
  {
    if s != [] {
      assert forall i :: 0 <= i < |s| - 1 ==> s[1..][i] == s[i + 1];
      CountNone(s[1..], p);
    }
  }

  /** The elements of s whose flag is set, in order. */
  function Select<T>(s: seq<T>, keep: seq<bool>): seq<T>
    requires |keep| == |s|
    decreases |s|
  {
    if s == [] then [] else (if keep[0] then [s[0]] else []) + Select(s[1..], keep[1..])
  }

  lemma {:induction false} SelectIsSubseq<T>(s: seq<T>, keep: seq<bool>)
    requires |keep| == |s|
    ensures IsSubseq(Select(s, keep), s)
    decreases |s|
  {
    if s != [] {
      SelectIsSubseq(s[1..], keep[1..]);
      var r := Select(s, keep);
      if keep[0] {
        assert r[0] == s[0] && r[1..] == Select(s[1..], keep[1..]);
      } else {
        assert r == Select(s[1..], keep[1..]);
      }
    }
  }

  /** An element that occurs once in s is selected exactly when its flag is set. */
  lemma {:induction false} SelectMember<T>(s: seq<T>, keep: seq<bool>, i: nat)
    requires |keep| == |s| && i < |s|
    requires forall j :: 0 <= j < |s| && j != i ==> s[j] != s[i]
    ensures s[i] in Select(s, keep) <==> keep[i]
    decreases i
  {
    var rest := Select(s[1..], keep[1..]);
    assert Select(s, keep) == (if keep[0] then [s[0]] else []) + rest;
    if i == 0 {
      forall x | x in rest
        ensures x != s[0]
      {
        SelectIsSubseq(s[1..], keep[1..]);
        SubseqMembers(rest, s[1..]);
        var j :| 0 <= j < |s[1..]| && s[1..][j] == x;
        assert s[j + 1] == x;
      }
    } else {
      SelectMember(s[1..], keep[1..], i - 1);
    }
  }

  /** Every element of a subsequence occurs in the sequence. */
  lemma {:induction false} SubseqMembers<T>(a: seq<T>, b: seq<T>)
    requires IsSubseq(a, b)
    ensures forall x :: x in a ==> x in b
    decreases |b|
  {
    if a != [] {
      if a[0] == b[0] && IsSubseq(a[1..], b[1..]) {
        SubseqMembers(a[1..], b[1..]);
        assert forall x :: x in a ==> x == a[0] || x in a[1..];
      } else {
        SubseqMembers(a, b[1..]);
      }
    }
  }

  /** A relation that holds of every ordered pair of b holds of every ordered pair of a subsequence of b. */
  lemma {:induction false} SubseqPairs<T>(a: seq<T>, b: seq<T>, R: (T, T) -> bool)
    requires IsSubseq(a, b)
    requires forall i, j :: 0 <= i < j < |b| ==> R(b[i], b[j])
    ensures forall i, j :: 0 <= i < j < |a| ==> R(a[i], a[j])
    decreases |b|
  {
    if a != [] {
      if a[0] == b[0] && IsSubseq(a[1..], b[1..]) {
        SubseqPairs(a[1..], b[1..], R);
        SubseqMembers(a[1..], b[1..]);
        forall i, j | 0 <= i < j < |a|
          ensures R(a[i], a[j])
        {
          if i == 0 {
            assert a[j] == a[1..][j - 1];
            assert a[j] in a[1..];
            assert a[j] in b[1..];
            var k :| 0 <= k < |b[1..]| && b[1..][k] == a[j];
            assert R(b[0], b[k + 1]);
          } else {
            assert a[i] == a[1..][i - 1] && a[j] == a[1..][j - 1];
          }
        }
      } else {
        SubseqPairs(a, b[1..], R);
      }
    }
  }

  /** Helper: regrouping a right-nested concatenation of six pieces from the left. */
  lemma AppendLeft6<T>(a: seq<T>, b: seq<T>, c: seq<T>, d: seq<T>, e: seq<T>, f: seq<T>)
    ensures a + (b + (c + (d + (e + f)))) == a + b + c + d + e + f
  {
    assert d + (e + f) == d + e + f;
    assert c + (d + e + f) == c + d + e + f;
    assert b + (c + d + e + f) == b + c + d + e + f;
    assert a + (b + c + d + e + f) == a + b + c + d + e + f;
  }
}
