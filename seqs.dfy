/** Sequence helpers shared by the list manipulations of the source. */
module Seqs {
  import opened Wrappers

  ghost predicate Distinct<T>(s: seq<T>) {
    forall i, j :: 0 <= i < j < |s| ==> s[i] != s[j]
  }

  /** `list(range(n))`. */
  function Range(n: nat): (r: seq<nat>)
    ensures |r| == n
    ensures forall k :: 0 <= k < n ==> r[k] == k
  {
    if n == 0 then [] else Range(n - 1) + [n - 1]
  }

  /** The elements of `s` that are not in `xs`, in their original order. */
  function Without<T(==)>(s: seq<T>, xs: set<T>): (r: seq<T>)
    ensures |r| <= |s|
  {
    if s == [] then []
    else (if s[0] in xs then [] else [s[0]]) + Without(s[1..], xs)
  }

  /** Python's `list.remove(x)` when `x` is present: drops its first occurrence. */
  function RemoveFirst<T(==)>(s: seq<T>, x: T): (r: seq<T>)
  {
    if s == [] then []
    else if s[0] == x then s[1..]
    else [s[0]] + RemoveFirst(s[1..], x)
  }

  /** Removing one more element from a filtered list of distinct elements widens the filter. */
  lemma {:induction false} RemoveFirstWithout<T>(s: seq<T>, xs: set<T>, x: T)
    requires Distinct(s)
    ensures RemoveFirst(Without(s, xs), x) == Without(s, xs + {x})
  {
    if s != [] {
      DistinctTail(s);
      RemoveFirstWithout(s[1..], xs, x);
      var w := Without(s[1..], xs);
      var wx := Without(s[1..], xs + {x});
      if s[0] in xs {
        assert Without(s, xs) == w;
        assert Without(s, xs + {x}) == wx;
      } else if s[0] == x {
        WithoutIgnoresAbsent(s[1..], xs, x);
        assert Without(s, xs) == [x] + w;
        assert Without(s, xs + {x}) == wx;
        assert RemoveFirst([x] + w, x) == w;
      } else {
        assert Without(s, xs) == [s[0]] + w;
        assert Without(s, xs + {x}) == [s[0]] + wx;
        assert RemoveFirst([s[0]] + w, x) == [s[0]] + RemoveFirst(w, x) by {
          assert ([s[0]] + w)[0] == s[0] && ([s[0]] + w)[1..] == w;
        }
      }
    }
  }

  /** The tail of a list of distinct elements is distinct and misses the head. */
  lemma DistinctTail<T>(s: seq<T>)
    requires s != [] && Distinct(s)
    ensures Distinct(s[1..]) && s[0] !in s[1..]
  {
    forall i, j | 0 <= i < j < |s[1..]| ensures s[1..][i] != s[1..][j] {
      assert s[1..][i] == s[i + 1] && s[1..][j] == s[j + 1];
    }
    forall k | 0 <= k < |s[1..]| ensures s[1..][k] != s[0] {
      assert s[1..][k] == s[k + 1];
    }
  }

  /** Filtering out an element that does not occur changes nothing. */
  lemma {:induction false} WithoutIgnoresAbsent<T>(s: seq<T>, xs: set<T>, x: T)
    requires x !in s
    ensures Without(s, xs + {x}) == Without(s, xs)
  {
    if s != [] {
      assert x !in s[1..];
      WithoutIgnoresAbsent(s[1..], xs, x);
    }
  }

  /** The last `n` elements of `s` (a `deque(maxlen=n)` after appends, or `s[-n:]`). */
  function LastN<T>(s: seq<T>, n: nat): (r: seq<T>)
    ensures |r| == if |s| <= n then |s| else n
    ensures forall k :: 0 <= k < |r| ==> r[k] == s[|s| - |r| + k]
  {
    if |s| <= n then s else s[|s| - n..]
  }

  /** The set of elements of `s`. */
  function Elems<T>(s: seq<T>): set<T> {
    set k | 0 <= k < |s| :: s[k]
  }

  lemma ElemsAppend<T>(s: seq<T>, x: T)
    ensures Elems(s + [x]) == Elems(s) + {x}
  {
    assert (s + [x])[|s|] == x;
    assert forall k :: 0 <= k < |s| ==> (s + [x])[k] == s[k];
  }

  lemma WithoutNothing<T>(s: seq<T>)
    ensures Without(s, {}) == s
  {
  }

  /** Python's `if x in u: u.remove(x)`. */
  function Discard<T(==)>(u: seq<T>, x: T): seq<T> {
    if x in u then RemoveFirst(u, x) else u
  }

  /** An element of `s` outside `xs` survives the filter, and nothing else does. */
  lemma {:induction false} WithoutMember<T>(s: seq<T>, xs: set<T>, x: T)
    ensures x in Without(s, xs) <==> x in s && x !in xs
  {
    if s != [] {
      WithoutMember(s[1..], xs, x);
      assert s == [s[0]] + s[1..];
    }
  }

  /** Filtering a list of distinct elements leaves them distinct. */
  lemma {:induction false} WithoutDistinct<T>(s: seq<T>, xs: set<T>)
    requires Distinct(s)
    ensures Distinct(Without(s, xs))
  {
    if s != [] {
      var rest := s[1..];
      assert Distinct(rest) by {
        forall i, j | 0 <= i < j < |rest| ensures rest[i] != rest[j] {
          assert rest[i] == s[i + 1] && rest[j] == s[j + 1];
        }
      }
      WithoutDistinct(rest, xs);
      var w := Without(rest, xs);
      if s[0] !in xs {
        assert s[0] !in rest by {
          forall k | 0 <= k < |rest| ensures rest[k] != s[0] {
            assert rest[k] == s[k + 1];
          }
        }
        WithoutMember(rest, xs, s[0]);
        var r := [s[0]] + w;
        assert Without(s, xs) == r;
        forall i, j | 0 <= i < j < |r| ensures r[i] != r[j] {
          if i > 0 {
            assert r[i] == w[i - 1] && r[j] == w[j - 1];
          } else {
            assert r[j] == w[j - 1];
          }
        }
      } else {
        assert Without(s, xs) == w;
      }
    }
  }

  /** Discarding from a filtered list of distinct elements filters out one more. */
  lemma DiscardWithout<T>(s: seq<T>, xs: set<T>, x: T)
    requires Distinct(s)
    ensures Discard(Without(s, xs), x) == Without(s, xs + {x})
  {
    var u := Without(s, xs);
    if x in u {
      RemoveFirstWithout(s, xs, x);
    } else if x in xs {
      assert xs + {x} == xs;
    } else {
      WithoutMember(s, xs, x);
      WithoutIgnoresAbsent(s, xs, x);
    }
  }

  /** `list.index(x)`: the first position of `x`, or none (where Python raises `ValueError`). */
  function IndexOf<T(==)>(s: seq<T>, x: T): (r: Option<nat>)
    ensures r.Some? ==> r.value < |s| && s[r.value] == x && forall j :: 0 <= j < r.value ==> s[j] != x
    ensures r.None? ==> x !in s
    decreases |s|
  {
    if s == [] then None
    else if s[0] == x then Some(0)
    else match IndexOf(s[1..], x)
      case Some(i) => Some(i + 1)
      case None => None
  }
}
