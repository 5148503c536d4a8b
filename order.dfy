/**
 * Two sequence operations the pipeline is built from: an order-preserving
 * deduplication (first occurrence wins) and a stable sort, descending by a real
 * key, in the sense of Python's `sorted(xs, key=..., reverse=True)`.
 */
module Order {
  import opened Common

  function Elems<T>(s: seq<T>): set<T> {
    set x | x in s
  }

  predicate Distinct<T(==)>(s: seq<T>) {
    forall i, j :: 0 <= i < j < |s| ==> s[i] != s[j]
  }

  /**
   * The elements of `s` not in `seen`, each once, at the place where it first
   * occurs: the result of walking `s` with a `seen` set and appending every
   * element that has not been seen yet.
   */
  function DedupFrom<T(==,!new)>(s: seq<T>, seen: set<T>): (r: seq<T>)
    ensures |r| <= |s|
  {
    if s == [] then []
    else if s[0] in seen then DedupFrom(s[1..], seen)
    else [s[0]] + DedupFrom(s[1..], seen + {s[0]})
  }

  /** The deduplicated walk holds every element once: exactly those of `s` not in `seen`. */
  lemma {:induction false} DedupFromFacts<T(!new)>(s: seq<T>, seen: set<T>)
    ensures Distinct(DedupFrom(s, seen))
    ensures forall x :: x in DedupFrom(s, seen) <==> x in s && x !in seen
  {
    if s != [] {
      var rest := s[1..];
      assert forall x :: x in s <==> x == s[0] || x in rest;
      if s[0] in seen {
        DedupFromFacts(rest, seen);
      } else {
        DedupFromFacts(rest, seen + {s[0]});
        var r := DedupFrom(s, seen);
        var t := DedupFrom(rest, seen + {s[0]});
        assert r == [s[0]] + t;
        forall i, j | 0 <= i < j < |r| ensures r[i] != r[j] {
          assert r[j] == t[j - 1];
          if i > 0 {
            assert r[i] == t[i - 1];
          }
        }
      }
    }
  }

  /** Deduplicating a concatenation: the first part, then what of the second part the first did not already hold. */
  lemma {:induction false} DedupAppend<T(!new)>(a: seq<T>, b: seq<T>, seen: set<T>)
    ensures DedupFrom(a + b, seen) == DedupFrom(a, seen) + DedupFrom(b, seen + Elems(a))
  {
    if a == [] {
      assert a + b == b;
      assert seen + Elems(a) == seen;
    } else {
      var ab := a + b;
      assert ab[0] == a[0] && ab[1..] == a[1..] + b;
      if a[0] in seen {
        assert seen + Elems(a[1..]) == seen + Elems(a);
        DedupAppend(a[1..], b, seen);
      } else {
        assert seen + {a[0]} + Elems(a[1..]) == seen + Elems(a);
        DedupAppend(a[1..], b, seen + {a[0]});
      }
    }
  }

  /** The elements of `s` that are not in `seen`, in order, repeats included. */
  function Unseen<T(==)>(s: seq<T>, seen: set<T>): (r: seq<T>)
    ensures |r| <= |s|
  {
    if s == [] then [] else (if s[0] in seen then [] else [s[0]]) + Unseen(s[1..], seen)
  }

  /** Marking an element seen that does not occur changes nothing. */
  lemma {:induction false} UnseenAbsent<T>(s: seq<T>, seen: set<T>, x: T)
    requires x !in s
    ensures Unseen(s, seen + {x}) == Unseen(s, seen)
  {
    if s != [] {
      UnseenAbsent(s[1..], seen, x);
    }
  }

  /** On a list without repeats the walk only filters: it keeps the unseen elements, in order. */
  lemma {:induction false} DedupDistinctUnseen<T(!new)>(s: seq<T>, seen: set<T>)
    requires Distinct(s)
    ensures DedupFrom(s, seen) == Unseen(s, seen)
  {
    if s != [] {
      var rest := s[1..];
      assert Distinct(rest) by {
        forall i, j | 0 <= i < j < |rest| ensures rest[i] != rest[j] {
          assert rest[i] == s[i + 1] && rest[j] == s[j + 1];
        }
      }
      if s[0] in seen {
        DedupDistinctUnseen(rest, seen);
      } else {
        DedupDistinctUnseen(rest, seen + {s[0]});
        assert s[0] !in rest by {
          forall j | 0 <= j < |rest| ensures rest[j] != s[0] {
            assert rest[j] == s[j + 1];
          }
        }
        UnseenAbsent(rest, seen, s[0]);
      }
    }
  }

  /** A single element survives exactly when it has not been seen. */
  lemma DedupSingle<T(!new)>(x: T, seen: set<T>)
    ensures DedupFrom([x], seen) == if x in seen then [] else [x]
  {
    assert [x][1..] == [];
  }

  /** Appending one element to the walk: it is kept exactly when it was not met before. */
  lemma DedupSnoc<T(!new)>(a: seq<T>, x: T)
    ensures DedupFrom(a + [x], {}) == DedupFrom(a, {}) + (if x in a then [] else [x])
  {
    DedupAppend(a, [x], {});
    assert {} + Elems(a) == Elems(a);
    DedupSingle(x, Elems(a));
  }

  /** The parts laid end to end, in order. */
  function Concat<T>(parts: seq<seq<T>>): seq<T> {
    if parts == [] then [] else Concat(parts[..|parts| - 1]) + parts[|parts| - 1]
  }

  /** Taking one more part onto the prefix appends that part to its concatenation. */
  lemma ConcatPrefix<T>(parts: seq<seq<T>>, i: nat)
    requires i < |parts|
    ensures Concat(parts[..i + 1]) == Concat(parts[..i]) + parts[i]
  {
    assert parts[..i + 1][..i] == parts[..i];
  }

  /** An element of the concatenation comes from one of the parts. */
  lemma {:induction false} ConcatMember<T>(parts: seq<seq<T>>, x: T)
    requires x in Concat(parts)
    ensures exists k :: 0 <= k < |parts| && x in parts[k]
  {
    var init := parts[..|parts| - 1];
    if x !in parts[|parts| - 1] {
      ConcatMember(init, x);
      var k :| 0 <= k < |init| && x in init[k];
      assert parts[k] == init[k];
    }
  }

  // ---------------------------------------------------------------------------
  // Stable descending sort, on the positions of the keys

  /**
   * Index `i` goes before index `j`: a higher key first, and among equal keys
   * the earlier index first (the order a stable descending sort produces).
   */
  predicate Before(keys: seq<real>, i: nat, j: nat)
    requires i < |keys| && j < |keys|
  {
    keys[i] > keys[j] || (keys[i] == keys[j] && i < j)
  }

  predicate InRange(keys: seq<real>, p: seq<nat>) {
    forall k :: 0 <= k < |p| ==> p[k] < |keys|
  }

  predicate SortedBy(keys: seq<real>, p: seq<nat>) {
    InRange(keys, p) && forall a, b :: 0 <= a < b < |p| ==> Before(keys, p[a], p[b])
  }

  /** Inserts index `i` into an arrangement `p`, after every index that goes before it. */
  function Insert(keys: seq<real>, p: seq<nat>, i: nat): (r: seq<nat>)
    requires i < |keys| && InRange(keys, p)
    ensures |r| == |p| + 1 && InRange(keys, r)
    ensures forall x :: x in r <==> x in p || x == i
  {
    if p == [] then [i]
    else if Before(keys, i, p[0]) then [i] + p
    else [p[0]] + Insert(keys, p[1..], i)
  }

  lemma {:induction false} InsertSorted(keys: seq<real>, p: seq<nat>, i: nat)
    requires i < |keys| && SortedBy(keys, p) && i !in p
    ensures SortedBy(keys, Insert(keys, p, i))
  {
    if p == [] {
    } else if Before(keys, i, p[0]) {
      SortedCons(keys, i, p);
    } else {
      var q := p[1..];
      var t := Insert(keys, q, i);
      assert SortedBy(keys, q);
      InsertSorted(keys, q, i);
      forall b | 0 <= b < |t| ensures Before(keys, p[0], t[b]) {
        assert t[b] in t;
        if t[b] != i {
          var m :| 0 <= m < |q| && q[m] == t[b];
          assert p[m + 1] == t[b];
        }
      }
      SortedCons(keys, p[0], t);
    }
  }

  /** An index that goes before every entry of a sorted arrangement can lead it. */
  lemma SortedCons(keys: seq<real>, x: nat, t: seq<nat>)
    requires x < |keys| && SortedBy(keys, t)
    requires forall b :: 0 <= b < |t| ==> Before(keys, x, t[b])
    ensures SortedBy(keys, [x] + t)
  {
    var r := [x] + t;
    forall a, b | 0 <= a < b < |r| ensures Before(keys, r[a], r[b]) {
      assert r[b] == t[b - 1];
      if a > 0 {
        assert r[a] == t[a - 1];
      }
    }
  }

  /** Sorts the first `n` positions of `keys`, inserting them one after another. */
  function SortPrefix(keys: seq<real>, n: nat): (r: seq<nat>)
    requires n <= |keys|
    ensures |r| == n && InRange(keys, r)
    ensures forall x: nat :: x in r <==> x < n
  {
    if n == 0 then [] else Insert(keys, SortPrefix(keys, n - 1), n - 1)
  }

  lemma {:induction false} SortPrefixSorted(keys: seq<real>, n: nat)
    requires n <= |keys|
    ensures SortedBy(keys, SortPrefix(keys, n))
  {
    if n > 0 {
      SortPrefixSorted(keys, n - 1);
      InsertSorted(keys, SortPrefix(keys, n - 1), n - 1);
    }
  }

  /**
   * The positions of `keys` in the order a stable descending sort puts them:
   * `[xs[p] for p in StableOrder(keys)]` is `sorted(xs, key=..., reverse=True)`
   * when `keys[i]` is the key of `xs[i]`.
   */
  function StableOrder(keys: seq<real>): (r: seq<nat>)
    ensures |r| == |keys| && InRange(keys, r)
    ensures forall x: nat :: x in r <==> x < |keys|
  {
    SortPrefix(keys, |keys|)
  }

  /**
   * The order is a stable descending sort: every position exactly once,
   * keys non-increasing, and equal keys in their original order.
   */
  lemma StableOrderSorted(keys: seq<real>)
    ensures SortedBy(keys, StableOrder(keys))
    ensures Distinct(StableOrder(keys))
    ensures forall a, b :: 0 <= a < b < |keys| ==>
      keys[StableOrder(keys)[a]] >= keys[StableOrder(keys)[b]]
    ensures forall a, b :: 0 <= a < b < |keys| && keys[StableOrder(keys)[a]] == keys[StableOrder(keys)[b]] ==>
      StableOrder(keys)[a] < StableOrder(keys)[b]
  {
    SortPrefixSorted(keys, |keys|);
  }

  /**
   * What the top `t` of the order leave behind scores no higher than the last
   * of them.
   */
  lemma DroppedNoHigher(keys: seq<real>, t: nat)
    requires 0 < t <= |keys|
    ensures forall j :: t <= j < |keys| ==> keys[StableOrder(keys)[j]] <= keys[StableOrder(keys)[t - 1]]
  {
    StableOrderSorted(keys);
  }

  /** Two arrangements sorted by `Before` that hold the same indices are the same. */
  lemma {:induction false} SortedUnique(keys: seq<real>, p: seq<nat>, q: seq<nat>)
    requires SortedBy(keys, p) && SortedBy(keys, q)
    requires forall x :: x in p <==> x in q
    ensures p == q
    decreases |p|
  {
    assert |q| == 0 || q[0] in q;
    if p != [] {
      assert p[0] in p;
      assert q != [];
      assert q[0] in q;
      forall x ensures x in p[1..] <==> x in q[1..] {
        if x in p[1..] {
          var m :| 0 <= m < |p[1..]| && p[1..][m] == x;
          assert Before(keys, p[0], p[m + 1]);
        }
        if x in q[1..] {
          var m :| 0 <= m < |q[1..]| && q[1..][m] == x;
          assert Before(keys, q[0], q[m + 1]);
        }
        assert x in p ==> x == p[0] || x in p[1..];
        assert x in q ==> x == q[0] || x in q[1..];
      }
      SortedUnique(keys, p[1..], q[1..]);
      assert p == [p[0]] + p[1..];
      assert q == [q[0]] + q[1..];
    }
  }

  /**
   * `StableOrder` is THE stable descending sort: any arrangement of all the
   * positions that goes non-increasing in key, with ties in position order, is it.
   */
  lemma StableOrderUnique(keys: seq<real>, q: seq<nat>)
    requires SortedBy(keys, q)
    requires forall x: nat :: x in q <==> x < |keys|
    ensures q == StableOrder(keys)
  {
    StableOrderSorted(keys);
    SortedUnique(keys, q, StableOrder(keys));
  }

  /** The first `t` positions of the stable descending order: `sorted(xs, key=..., reverse=True)[:t]`. */
  function Top(keys: seq<real>, t: nat): (r: seq<nat>)
    ensures |r| == Min(t, |keys|) && InRange(keys, r)
  {
    StableOrder(keys)[..Min(t, |keys|)]
  }

  /**
   * The top `t`: distinct positions, keys non-increasing with ties in position
   * order, and every kept position goes before every dropped one (a higher
   * key, or the same key and an earlier position).
   */
  lemma TopFacts(keys: seq<real>, t: nat)
    ensures Distinct(Top(keys, t))
    ensures forall a, b :: 0 <= a < b < |Top(keys, t)| ==> Before(keys, Top(keys, t)[a], Top(keys, t)[b])
    ensures forall a, j :: 0 <= a < |Top(keys, t)| && 0 <= j < |keys| && j !in Top(keys, t) ==> Before(keys, Top(keys, t)[a], j)
  {
    var p := StableOrder(keys);
    var r := Top(keys, t);
    StableOrderSorted(keys);
    forall a, j | 0 <= a < |r| && 0 <= j < |keys| && j !in r ensures Before(keys, r[a], j) {
      assert j in p;
      var m :| 0 <= m < |p| && p[m] == j;
      assert r[a] == p[a];
    }
  }
}
