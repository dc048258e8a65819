/**
 * Finite sequences of integer ids: membership, absence of duplicates, and the
 * ascending enumeration of a finite set, which is the iteration order of Rust's
 * `BTreeSet` and of the keys of a `BTreeMap`.
 */
module Ordered {

  /** The set of elements of a sequence. */
  function Elems(s: seq<int>): set<int>
  {
    set x | x in s
  }

  /**
   * No element occurs twice: the last element does not occur before it, and
   * the elements before it have no duplicate either.
   */
  predicate NoDup(s: seq<int>)
    decreases |s|
  {
    s == [] || (s[|s| - 1] !in s[..|s| - 1] && NoDup(s[..|s| - 1]))
  }

  /** Two positions of a duplicate-free sequence hold different elements. */
  lemma {:induction false} NoDupAt(s: seq<int>, i: int, j: int)
    requires NoDup(s) && 0 <= i < j < |s|
    ensures s[i] != s[j]
    decreases |s|
  {
    var t := s[..|s| - 1];
    if j == |s| - 1 {
      assert s[i] == t[i];
    } else {
      assert s[i] == t[i] && s[j] == t[j];
      NoDupAt(t, i, j);
    }
  }

  /** Pairwise different elements make a duplicate-free sequence. */
  lemma {:induction false} Distinct(s: seq<int>)
    requires forall i, j :: 0 <= i < j < |s| ==> s[i] != s[j]
    ensures NoDup(s)
    decreases |s|
  {
    if s != [] {
      var t := s[..|s| - 1];
      forall i, j | 0 <= i < j < |t| ensures t[i] != t[j] {
        assert t[i] == s[i] && t[j] == s[j];
      }
      Distinct(t);
      forall i | 0 <= i < |t| ensures t[i] != s[|s| - 1] {
        assert t[i] == s[i];
      }
    }
  }

  predicate StrictlyIncreasing(s: seq<int>)
  {
    forall i, j :: 0 <= i < j < |s| ==> s[i] < s[j]
  }

  /** A non-empty set has an element. */
  lemma NonEmpty(s: set<int>)
    requires s != {}
    ensures exists y :: y in s
  {
    assert (forall y :: y !in s) ==> s == {};
  }

  /** A least element, chosen by peeling elements off one at a time. */
  ghost function MinOf(s: set<int>): (m: int)
    requires s != {}
    ensures m in s
    ensures forall x :: x in s ==> m <= x
  {
    NonEmpty(s);
    var y :| y in s;
    var rest := s - {y};
    assert forall x :: x in s ==> x == y || x in rest;
    if rest == {} then y
    else
      var m := MinOf(rest);
      if y < m then y else m
  }

  /** The least element of a non-empty finite set. */
  function SetMin(s: set<int>): (m: int)
    requires s != {}
    ensures m in s
    ensures forall x :: x in s ==> m <= x
  {
    var w := MinOf(s);
    assert w in s && forall x :: x in s ==> w <= x;
    var m :| m in s && forall x :: x in s ==> m <= x;
    m
  }

  /** The elements of `s` in ascending order, each once. */
  function Ascending(s: set<int>): (r: seq<int>)
    ensures Elems(r) == s
    decreases s
  {
    if s == {} then []
    else
      var m := SetMin(s);
      var rest := Ascending(s - {m});
      ElemsConcat([m], rest);
      assert Elems([m]) == {m};
      [m] + rest
  }

  /** The enumeration is strictly increasing. */
  lemma {:induction false} AscendingIncreasing(s: set<int>)
    ensures StrictlyIncreasing(Ascending(s))
    decreases s
  {
    if s != {} {
      var m := SetMin(s);
      var rest := Ascending(s - {m});
      AscendingIncreasing(s - {m});
      assert forall x :: x in Elems(rest) ==> x in s && x != m;
      ConsIncreasing(m, rest);
    }
  }

  lemma ConsIncreasing(m: int, rest: seq<int>)
    requires StrictlyIncreasing(rest)
    requires forall x :: x in Elems(rest) ==> m < x
    ensures StrictlyIncreasing([m] + rest)
  {
    var r := [m] + rest;
    forall i, j | 0 <= i < j < |r| ensures r[i] < r[j] {
      assert r[j] == rest[j - 1];
      if i > 0 {
        assert r[i] == rest[i - 1];
      } else {
        assert rest[j - 1] in Elems(rest);
      }
    }
  }

  lemma ElemsConcat(a: seq<int>, b: seq<int>)
    ensures Elems(a + b) == Elems(a) + Elems(b)
  {
    assert forall x :: x in a + b <==> x in a || x in b;
  }

  lemma IncreasingNoDup(s: seq<int>)
    requires StrictlyIncreasing(s)
    ensures NoDup(s)
  {
    Distinct(s);
  }

  /** A duplicate-free sequence has as many elements as its set of elements. */
  lemma {:induction false} NoDupCard(s: seq<int>)
    requires NoDup(s)
    ensures |Elems(s)| == |s|
    decreases |s|
  {
    if s != [] {
      var t := s[..|s| - 1];
      NoDupCard(t);
      assert s == t + [s[|s| - 1]];
      ElemsConcat(t, [s[|s| - 1]]);
      assert Elems([s[|s| - 1]]) == {s[|s| - 1]};
      assert s[|s| - 1] !in Elems(t);
    }
  }

  /** The enumeration lists every element exactly once. */
  lemma AscendingCard(s: set<int>)
    ensures |Ascending(s)| == |s|
  {
    AscendingIncreasing(s);
    IncreasingNoDup(Ascending(s));
    NoDupCard(Ascending(s));
  }

  /** The ascending enumeration is the only strictly increasing enumeration. */
  lemma {:induction false} AscendingUnique(s: set<int>, r: seq<int>)
    requires StrictlyIncreasing(r) && Elems(r) == s
    ensures r == Ascending(s)
    decreases s
  {
    if r == [] {
      assert s == {};
    } else {
      assert r[0] in Elems(r);
      var m := SetMin(s);
      HeadIsMin(r);
      assert r[0] == m;
      var t := r[1..];
      assert r == [r[0]] + t;
      ElemsConcat([r[0]], t);
      assert r[0] !in Elems(t) by {
        forall k | 0 <= k < |t| ensures t[k] != r[0] {
          assert t[k] == r[k + 1];
        }
      }
      assert Elems(t) == s - {m};
      assert StrictlyIncreasing(t) by {
        forall i, j | 0 <= i < j < |t| ensures t[i] < t[j] {
          assert t[i] == r[i + 1] && t[j] == r[j + 1];
        }
      }
      AscendingUnique(s - {m}, t);
    }
  }

  lemma HeadIsMin(r: seq<int>)
    requires StrictlyIncreasing(r) && r != []
    ensures forall x :: x in Elems(r) ==> r[0] <= x
  {
    forall x | x in Elems(r) ensures r[0] <= x {
      var k :| 0 <= k < |r| && r[k] == x;
      assert k == 0 || r[0] < r[k];
    }
  }

  /** Adding an element above every existing one appends it to the enumeration. */
  lemma AscendingAddMax(s: set<int>, x: int)
    requires forall y :: y in s ==> y < x
    ensures Ascending(s + {x}) == Ascending(s) + [x]
  {
    var a := Ascending(s);
    AscendingIncreasing(s);
    var r := a + [x];
    ElemsConcat(a, [x]);
    assert Elems([x]) == {x};
    assert StrictlyIncreasing(r) by {
      forall i, j | 0 <= i < j < |r| ensures r[i] < r[j] {
        if j < |a| {
          assert r[i] == a[i] && r[j] == a[j];
        } else {
          assert r[i] == a[i] && a[i] in Elems(a);
        }
      }
    }
    AscendingUnique(s + {x}, r);
  }

  /** Joining two duplicate-free sequences with no common element gives a duplicate-free sequence. */
  lemma NoDupConcat(a: seq<int>, b: seq<int>)
    requires NoDup(a) && NoDup(b) && Elems(a) !! Elems(b)
    ensures NoDup(a + b)
  {
    var r := a + b;
    forall i, j | 0 <= i < j < |r| ensures r[i] != r[j] {
      if i < |a| && |a| <= j {
        assert r[i] in Elems(a) && r[j] == b[j - |a|] && b[j - |a|] in Elems(b);
      } else if |a| <= i {
        assert r[i] == b[i - |a|] && r[j] == b[j - |a|];
        NoDupAt(b, i - |a|, j - |a|);
      } else {
        NoDupAt(a, i, j);
      }
    }
    Distinct(r);
  }

  lemma SubsetCard(a: set<int>, b: set<int>)
    requires a <= b
    ensures |a| <= |b|
  {
    assert b == a + (b - a);
  }

  /** Exploring more leaves no more to explore. */
  lemma RemainderMonotone(k: set<int>, e: set<int>, e': set<int>)
    requires e <= e'
    ensures |k - e'| <= |k - e|
  {
    SubsetCard(k - e', k - e);
  }

  /** Adding a new element to the explored part shrinks what is left to explore. */
  lemma RemainderShrinks(k: set<int>, e: set<int>, v: int)
    requires v in k
    ensures v !in e ==> |k - (e + {v})| < |k - e|
    ensures v in e ==> k - (e + {v}) == k - e
  {
    if v !in e {
      assert k - e == (k - (e + {v})) + {v};
    } else {
      assert e + {v} == e;
    }
  }

  /** `s` back to front. */
  function Reverse(s: seq<int>): (r: seq<int>)
    ensures |r| == |s|
    ensures forall i :: 0 <= i < |s| ==> r[i] == s[|s| - 1 - i]
    ensures Elems(r) == Elems(s)
  {
    var r := seq(|s|, i requires 0 <= i < |s| => s[|s| - 1 - i]);
    ReverseElems(s, r);
    r
  }

  /** A sequence holding `s`'s elements back to front holds the same elements. */
  lemma ReverseElems(s: seq<int>, r: seq<int>)
    requires |r| == |s| && forall i :: 0 <= i < |s| ==> r[i] == s[|s| - 1 - i]
    ensures Elems(r) == Elems(s)
  {
    forall x | x in Elems(s) ensures x in Elems(r) {
      var j :| 0 <= j < |s| && s[j] == x;
      assert r[|s| - 1 - j] == x;
    }
  }

  /** Dropping the last element of a prefix gives the shorter prefix. */
  lemma PrefixDrop(s: seq<int>, k: int)
    requires 0 < k <= |s|
    ensures s[..k][..k - 1] == s[..k - 1] && s[..k][k - 1] == s[k - 1]
  {
  }

  lemma ReverseAt(s: seq<int>, i: int)
    requires 0 <= i < |s|
    ensures Reverse(s)[|s| - 1 - i] == s[i]
  {
  }

  lemma PrefixAll(s: seq<int>)
    ensures s[..|s|] == s
  {
  }
}
