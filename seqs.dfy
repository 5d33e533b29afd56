/** Generic facts about sequences: filtering, subsequences and de-duplication. */
module Seqs {

  /** Keeps, in order, the elements of `s` that satisfy `p` (a list comprehension with an `if`). */
  function Filter<T>(s: seq<T>, p: T -> bool): (r: seq<T>)
    ensures |r| <= |s|
    ensures forall i :: 0 <= i < |r| ==> p(r[i])
  {
    if s == [] then []
    else
      var init := Filter(s[..|s| - 1], p);
      if p(s[|s| - 1]) then init + [s[|s| - 1]] else init
  }

  /** Filtering keeps only elements of its input. */
  lemma {:induction false} FilterMembers<T>(s: seq<T>, p: T -> bool)
    ensures forall i :: 0 <= i < |Filter(s, p)| ==> Filter(s, p)[i] in s
    decreases |s|
  {
    if s != [] {
      var init := s[..|s| - 1];
      FilterMembers(init, p);
      assert forall x :: x in init ==> x in s;
    }
  }

  /** Filtering keeps every occurrence of an element that passes and none of
      one that fails. */
  lemma {:induction false} FilterMultiset<T>(s: seq<T>, p: T -> bool, x: T)
    ensures multiset(Filter(s, p))[x] == if p(x) then multiset(s)[x] else 0
    decreases |s|
  {
    if s != [] {
      var init := s[..|s| - 1];
      FilterMultiset(init, p, x);
      assert s == init + [s[|s| - 1]];
    }
  }

  /** `a` can be obtained from `b` by deleting elements, the rest kept in order. */
  ghost predicate Subsequence<T>(a: seq<T>, b: seq<T>)
    decreases |b|
  {
    if a == [] then true
    else if b == [] then false
    else if a[|a| - 1] == b[|b| - 1] then Subsequence(a[..|a| - 1], b[..|b| - 1])
    else Subsequence(a, b[..|b| - 1])
  }

  lemma {:induction false} FilterAppend<T>(s: seq<T>, t: seq<T>, p: T -> bool)
    ensures Filter(s + t, p) == Filter(s, p) + Filter(t, p)
    decreases |t|
  {
    if t == [] {
      assert s + t == s;
    } else {
      var t' := t[..|t| - 1];
      assert (s + t)[..|s + t| - 1] == s + t';
      FilterAppend(s, t', p);
    }
  }

  /** Filtering keeps every element that satisfies the predicate. */
  lemma {:induction false} FilterComplete<T>(s: seq<T>, p: T -> bool, x: T)
    requires x in s && p(x)
    ensures x in Filter(s, p)
    decreases |s|
  {
    if s[|s| - 1] != x {
      assert x in s[..|s| - 1];
      FilterComplete(s[..|s| - 1], p, x);
    }
  }

  /** Filtering keeps the survivors in their original relative order. */
  lemma {:induction false} FilterSubsequence<T>(s: seq<T>, p: T -> bool)
    ensures Subsequence(Filter(s, p), s)
    decreases |s|
  {
    if s != [] {
      var init := s[..|s| - 1];
      FilterSubsequence(init, p);
      if p(s[|s| - 1]) {
        var r := Filter(s, p);
        assert r[..|r| - 1] == Filter(init, p);
      } else {
        SubsequenceOfPrefix(Filter(init, p), init, s);
      }
    }
  }

  /** A subsequence of `s[..|s|-1]` is a subsequence of `s`. */
  lemma {:induction false} SubsequenceOfPrefix<T>(a: seq<T>, init: seq<T>, s: seq<T>)
    requires s != [] && init == s[..|s| - 1]
    requires Subsequence(a, init)
    ensures Subsequence(a, s)
    decreases |s|, 1
  {
    if a != [] && a[|a| - 1] == s[|s| - 1] {
      if init != [] && a[|a| - 1] == init[|init| - 1] {
        SubsequenceOfPrefix(a[..|a| - 1], init[..|init| - 1], init);
      } else {
        SubsequenceOfPrefix(a, init[..|init| - 1], init);
        SubsequencePrefixOfBoth(a, init);
      }
    }
  }

  /** Dropping the last element of both sides keeps a subsequence a subsequence. */
  lemma {:induction false} SubsequencePrefixOfBoth<T>(a: seq<T>, b: seq<T>)
    requires a != [] && Subsequence(a, b)
    ensures Subsequence(a[..|a| - 1], b)
    decreases |b|, 2
  {
    var a' := a[..|a| - 1];
    if a' != [] {
      assert b != [];
      var b' := b[..|b| - 1];
      if a[|a| - 1] == b[|b| - 1] {
        SubsequenceOfPrefix(a', b', b);
      } else {
        SubsequencePrefixOfBoth(a, b');
        SubsequenceOfPrefix(a', b', b);
      }
    }
  }

  /** When every element passes, filtering changes nothing. */
  lemma {:induction false} FilterAll<T>(s: seq<T>, p: T -> bool)
    requires forall i :: 0 <= i < |s| ==> p(s[i])
    ensures Filter(s, p) == s
    decreases |s|
  {
    if s != [] {
      FilterAll(s[..|s| - 1], p);
      assert s[..|s| - 1] + [s[|s| - 1]] == s;
    }
  }

  /** When no element passes, filtering yields nothing. */
  lemma {:induction false} FilterNone<T>(s: seq<T>, p: T -> bool)
    requires forall i :: 0 <= i < |s| ==> !p(s[i])
    ensures Filter(s, p) == []
    decreases |s|
  {
    if s != [] {
      FilterNone(s[..|s| - 1], p);
    }
  }

  /** A weaker predicate keeps at least as many elements, and exactly as many iff
      the two agree on every element of `s`. */
  lemma {:induction false} FilterWeaker<T>(s: seq<T>, p: T -> bool, q: T -> bool)
    requires forall x :: p(x) ==> q(x)
    ensures |Filter(s, p)| <= |Filter(s, q)|
    ensures |Filter(s, p)| == |Filter(s, q)| <==> forall i :: 0 <= i < |s| ==> (q(s[i]) ==> p(s[i]))
    decreases |s|
  {
    if s != [] {
      var init := s[..|s| - 1];
      FilterWeaker(init, p, q);
      if forall i :: 0 <= i < |init| ==> (q(init[i]) ==> p(init[i])) {
      } else {
        var i :| 0 <= i < |init| && q(init[i]) && !p(init[i]);
        assert s[i] == init[i];
      }
    }
  }

  /** Filtering keeps nothing exactly when no element passes, and everything
      exactly when every element passes. */
  lemma {:induction false} FilterExtremes<T>(s: seq<T>, p: T -> bool)
    ensures |Filter(s, p)| == 0 <==> forall i :: 0 <= i < |s| ==> !p(s[i])
    ensures |Filter(s, p)| == |s| <==> forall i :: 0 <= i < |s| ==> p(s[i])
  {
    FilterWeaker(s, p, x => true);
    FilterAll(s, x => true);
    if exists i :: 0 <= i < |s| && p(s[i]) {
      var i :| 0 <= i < |s| && p(s[i]);
      FilterComplete(s, p, s[i]);
    } else {
      FilterNone(s, p);
    }
  }

  /** The distinct elements of `s`, in order of first occurrence. */
  function Dedup<T(==)>(s: seq<T>): (r: seq<T>)
    ensures forall i, j :: 0 <= i < j < |r| ==> r[i] != r[j]
  {
    if s == [] then []
    else
      var init := Dedup(s[..|s| - 1]);
      if s[|s| - 1] in init then init else init + [s[|s| - 1]]
  }

  /** `Dedup` keeps exactly the values of its input. */
  lemma {:induction false} DedupMembers<T>(s: seq<T>, x: T)
    ensures x in Dedup(s) <==> x in s
    decreases |s|
  {
    if s != [] {
      DedupMembers(s[..|s| - 1], x);
      assert s == s[..|s| - 1] + [s[|s| - 1]];
    }
  }

  /** Filtering by two predicates that agree on every element gives the same result. */
  lemma {:induction false} FilterCongruent<T>(s: seq<T>, p: T -> bool, q: T -> bool)
    requires forall i :: 0 <= i < |s| ==> p(s[i]) == q(s[i])
    ensures Filter(s, p) == Filter(s, q)
    decreases |s|
  {
    if s != [] {
      FilterCongruent(s[..|s| - 1], p, q);
    }
  }

  /** `[f(x) for x in s]`. */
  function Map<T, U>(s: seq<T>, f: T -> U): (r: seq<U>)
    ensures |r| == |s|
    ensures forall i :: 0 <= i < |s| ==> r[i] == f(s[i])
  {
    seq(|s|, i requires 0 <= i < |s| => f(s[i]))
  }

  /** Mapping commutes with taking all but the last element. */
  lemma {:induction false} MapInit<T, U>(s: seq<T>, f: T -> U)
    requires s != []
    ensures Map(s, f) == Map(s[..|s| - 1], f) + [f(s[|s| - 1])]
  {
  }

  /** Membership in the group of key `k`. */
  function KeyIs<T, K(==)>(key: T -> K, k: K): T -> bool {
    x => key(x) == k
  }

  /** Over the keys `ks`, how many elements of `s` satisfy `q` in each key's
      group, summed. */
  function GroupedCount<T, K(==)>(ks: seq<K>, s: seq<T>, key: T -> K, q: T -> bool): nat {
    if ks == [] then 0
    else GroupedCount(ks[..|ks| - 1], s, key, q) + |Filter(Filter(s, KeyIs(key, ks[|ks| - 1])), q)|
  }

  /** Appending an element whose key is not among `ks` changes none of their groups. */
  lemma {:induction false} GroupedCountOther<T, K>(ks: seq<K>, s: seq<T>, x: T, key: T -> K, q: T -> bool)
    requires key(x) !in ks
    ensures GroupedCount(ks, s + [x], key, q) == GroupedCount(ks, s, key, q)
    decreases |ks|
  {
    if ks != [] {
      var init := ks[..|ks| - 1];
      assert key(x) != ks[|ks| - 1];
      assert key(x) !in init by {
        assert forall i :: 0 <= i < |init| ==> init[i] == ks[i];
      }
      GroupedCountOther(init, s, x, key, q);
      FilterAppend(s, [x], KeyIs(key, ks[|ks| - 1]));
      assert Filter([x], KeyIs(key, ks[|ks| - 1])) == [];
    }
  }

  /** Appending an element adds it to exactly one group among distinct keys
      that include its own. */
  lemma {:induction false} GroupedCountHit<T, K>(ks: seq<K>, s: seq<T>, x: T, key: T -> K, q: T -> bool)
    requires key(x) in ks
    requires forall i, j :: 0 <= i < j < |ks| ==> ks[i] != ks[j]
    ensures GroupedCount(ks, s + [x], key, q) == GroupedCount(ks, s, key, q) + (if q(x) then 1 else 0)
    decreases |ks|
  {
    var init := ks[..|ks| - 1];
    var k := ks[|ks| - 1];
    assert forall i :: 0 <= i < |init| ==> init[i] == ks[i];
    var g := Filter(s, KeyIs(key, k));
    FilterAppend(s, [x], KeyIs(key, k));
    if key(x) == k {
      assert key(x) !in init;
      GroupedCountOther(init, s, x, key, q);
      assert Filter(s + [x], KeyIs(key, k)) == g + [x];
      FilterAppend(g, [x], q);
    } else {
      GroupedCountHit(init, s, x, key, q);
      assert Filter(s + [x], KeyIs(key, k)) == g;
    }
  }

  /** Deduplicating one more element appends it exactly when it is new. */
  lemma {:induction false} DedupSnoc<T>(s: seq<T>, x: T)
    ensures Dedup(s + [x]) == if x in s then Dedup(s) else Dedup(s) + [x]
  {
    assert (s + [x])[..|s|] == s;
    DedupMembers(s, x);
  }

  /** An element whose key no earlier element has is alone in its group. */
  lemma {:induction false} FilterNewKey<T, K>(s: seq<T>, x: T, key: T -> K)
    requires key(x) !in Map(s, key)
    ensures Filter(s + [x], KeyIs(key, key(x))) == [x]
  {
    forall i | 0 <= i < |s|
      ensures !KeyIs(key, key(x))(s[i])
    {
      assert Map(s, key)[i] == key(s[i]);
    }
    FilterNone(s, KeyIs(key, key(x)));
    FilterAppend(s, [x], KeyIs(key, key(x)));
  }

  /** Grouping by key and counting within each group counts every element
      exactly once: the groups of the distinct keys partition `s`. */
  lemma {:induction false} GroupedCountPartition<T, K>(s: seq<T>, key: T -> K, q: T -> bool)
    ensures GroupedCount(Dedup(Map(s, key)), s, key, q) == |Filter(s, q)|
    decreases |s|
  {
    if s != [] {
      var init := s[..|s| - 1];
      var x := s[|s| - 1];
      assert s == init + [x];
      GroupedCountPartition(init, key, q);
      MapInit(s, key);
      assert Map(s, key)[..|s| - 1] == Map(init, key);
      DedupSnoc(Map(init, key), key(x));
      var ds := Dedup(Map(init, key));
      DedupMembers(Map(init, key), key(x));
      if key(x) in ds {
        GroupedCountHit(ds, init, x, key, q);
      } else {
        GroupedCountOther(ds, init, x, key, q);
        assert (ds + [key(x)])[..|ds|] == ds;
        FilterNewKey(init, x, key);
      }
      FilterAppend(init, [x], q);
    }
  }
}
