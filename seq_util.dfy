/** Sequence vocabulary shared by the models: sums, runs of copies, order,
    subsequences and the find-first-and-erase idiom of std::vector. */
module SeqUtil {

  /** std::accumulate with initial value 0. */
  function Sum(s: seq<int>): int
  {
    if s == [] then 0 else s[0] + Sum(s[1..])
  }

  lemma {:induction false} SumAppend(a: seq<int>, b: seq<int>)
    ensures Sum(a + b) == Sum(a) + Sum(b)
  {
    if a == [] {
      assert a + b == b;
    } else {
      assert (a + b)[1..] == a[1..] + b;
      SumAppend(a[1..], b);
    }
  }

  /** `n` copies of `v`, as vector::insert(pos, n, v) produces them. */
  function Repeat(v: int, n: nat): (r: seq<int>)
    ensures |r| == n
    ensures forall i :: 0 <= i < n ==> r[i] == v
  {
    if n == 0 then [] else [v] + Repeat(v, n - 1)
  }

  lemma {:induction false} RepeatSum(v: int, n: nat)
    ensures Sum(Repeat(v, n)) == n * v
  {
    if n > 0 {
      assert Repeat(v, n)[1..] == Repeat(v, n - 1);
      RepeatSum(v, n - 1);
    }
  }

  lemma {:induction false} RepeatCopies(v: int, n: nat)
    ensures multiset(Repeat(v, n))[v] == n
    ensures forall x :: x != v ==> multiset(Repeat(v, n))[x] == 0
  {
    if n > 0 {
      assert Repeat(v, n) == [v] + Repeat(v, n - 1);
      RepeatCopies(v, n - 1);
    }
  }

  lemma RepeatSplit(v: int, n: nat)
    requires n > 0
    ensures Repeat(v, n) == [v] + Repeat(v, n - 1)
    ensures Repeat(v, n) == Repeat(v, n - 1) + [v]
  {
  }

  /** Non-decreasing order. */
  predicate Sorted(s: seq<int>)
  {
    forall i, j :: 0 <= i < j < |s| ==> s[i] <= s[j]
  }

  /** Strictly increasing order: no value twice. */
  predicate StrictlyAscending(s: seq<int>)
  {
    forall i, j :: 0 <= i < j < |s| ==> s[i] < s[j]
  }

  /** Appending a sorted run whose elements are no smaller than everything before it
      keeps a sequence sorted. */
  lemma SortedAppend(a: seq<int>, b: seq<int>)
    requires Sorted(a) && Sorted(b)
    requires forall i, j :: 0 <= i < |a| && 0 <= j < |b| ==> a[i] <= b[j]
    ensures Sorted(a + b)
  {
  }

  predicate NoDuplicates<T(==)>(s: seq<T>)
  {
    forall i, j :: 0 <= i < j < |s| ==> s[i] != s[j]
  }

  /** `s` can be obtained from `t` by deleting elements, keeping the order of the rest. */
  predicate IsSubsequence<T(==)>(s: seq<T>, t: seq<T>)
    decreases |t|
  {
    if s == [] then true
    else if t == [] then false
    else (s[0] == t[0] && IsSubsequence(s[1..], t[1..])) || IsSubsequence(s, t[1..])
  }

  lemma {:induction false} SubsequenceSum(s: seq<int>, t: seq<int>)
    requires IsSubsequence(s, t)
    requires forall i :: 0 <= i < |t| ==> t[i] > 0
    ensures Sum(s) <= Sum(t)
    ensures Sum(s) >= 0
    ensures s != [] ==> Sum(s) > 0
    decreases |t|
  {
    if s != [] {
      if s[0] == t[0] && IsSubsequence(s[1..], t[1..]) {
        SubsequenceSum(s[1..], t[1..]);
      } else {
        SubsequenceSum(s, t[1..]);
      }
    } else if t != [] {
      SubsequenceSum(s, t[1..]);
    }
  }

  /** Every element of a subsequence occurs in the sequence it was taken from. */
  lemma {:induction false} SubsequenceElements<T>(s: seq<T>, t: seq<T>)
    requires IsSubsequence(s, t)
    ensures forall x :: x in s ==> x in t
    decreases |t|
  {
    if s != [] {
      if s[0] == t[0] && IsSubsequence(s[1..], t[1..]) {
        SubsequenceElements(s[1..], t[1..]);
        assert forall x :: x in s ==> x == s[0] || x in s[1..];
      } else {
        SubsequenceElements(s, t[1..]);
      }
    }
  }

  /** std::find followed by vector::erase: drop the first element equal to `x`. */
  function RemoveFirst<T(==)>(s: seq<T>, x: T): (r: seq<T>)
    ensures x in s ==> multiset(r) == multiset(s) - multiset{x}
    ensures x !in s ==> r == s
    ensures x in s ==> |r| == |s| - 1
  {
    if s == [] then []
    else
      assert s == [s[0]] + s[1..];
      if s[0] == x then s[1..] else [s[0]] + RemoveFirst(s[1..], x)
  }

  /** RemoveFirst keeps the other elements in their order ... */
  lemma {:induction false} RemoveFirstOrder<T>(s: seq<T>, x: T)
    ensures IsSubsequence(RemoveFirst(s, x), s)
  {
    if s != [] {
      if s[0] == x {
        SubsequenceDrop(s[1..], s);
      } else {
        RemoveFirstOrder(s[1..], x);
        var r := RemoveFirst(s[1..], x);
        assert RemoveFirst(s, x) == [s[0]] + r;
        assert ([s[0]] + r)[1..] == r;
      }
    }
  }

  /** ... and the same set of other elements ... */
  lemma RemoveFirstMembers<T>(s: seq<T>, x: T)
    ensures forall y :: y != x ==> (y in RemoveFirst(s, x) <==> y in s)
    ensures forall y :: y in RemoveFirst(s, x) ==> y in s
  {
    RemoveFirstOrder(s, x);
    SubsequenceElements(RemoveFirst(s, x), s);
    forall y | y != x ensures y in RemoveFirst(s, x) <==> y in s {
      assert multiset(RemoveFirst(s, x))[y] == multiset(s)[y];
    }
  }

  /** ... and on a sequence without duplicates it leaves no copy of `x` behind. */
  lemma {:induction false} RemoveFirstDistinct<T>(s: seq<T>, x: T)
    requires NoDuplicates(s)
    ensures NoDuplicates(RemoveFirst(s, x)) && x !in RemoveFirst(s, x)
  {
    if s != [] {
      assert s == [s[0]] + s[1..];
      if s[0] == x {
        assert x !in s[1..];
      } else {
        RemoveFirstDistinct(s[1..], x);
        RemoveFirstOrder(s[1..], x);
        var r := RemoveFirst(s[1..], x);
        SubsequenceElements(r, s[1..]);
        assert s[0] !in s[1..];
        assert RemoveFirst(s, x) == [s[0]] + r;
      }
    }
  }

  /** A sequence with its first element dropped is a subsequence of it. */
  lemma SubsequenceDrop<T>(t: seq<T>, s: seq<T>)
    requires s != [] && t == s[1..]
    ensures IsSubsequence(t, s)
  {
    SubsequenceReflexive(t);
  }

  lemma {:induction false} SubsequenceReflexive<T>(s: seq<T>)
    ensures IsSubsequence(s, s)
    decreases |s|
  {
    if s != [] {
      SubsequenceReflexive(s[1..]);
    }
  }

  /** std::find over a vector: the position of the first element equal to `x`, or |s| (the end
      iterator) when there is none. */
  method Find<T(==)>(s: seq<T>, x: T) returns (k: nat)
    ensures k <= |s|
    ensures k < |s| ==> s[k] == x
    ensures forall j :: 0 <= j < k ==> s[j] != x
  {
    k := 0;
    while k < |s| && s[k] != x
      invariant k <= |s|
      invariant forall j :: 0 <= j < k ==> s[j] != x
    {
      k := k + 1;
    }
  }

  /** vector::erase at the position std::find returned drops exactly the first copy. */
  lemma EraseFound<T>(s: seq<T>, x: T, k: nat)
    requires k < |s| && s[k] == x
    requires forall j :: 0 <= j < k ==> s[j] != x
    ensures s[..k] + s[k + 1..] == RemoveFirst(s, x)
  {
    var p, q := s[..k], s[k..];
    assert s == p + q;
    assert x !in p;
    RemoveFirstPrefix(p, q, x);
    assert q == [x] + s[k + 1..];
  }

  /** Removing the first `x` skips a prefix that holds no `x`. */
  lemma {:induction false} RemoveFirstPrefix<T>(p: seq<T>, q: seq<T>, x: T)
    requires x !in p
    ensures RemoveFirst(p + q, x) == p + RemoveFirst(q, x)
  {
    if p == [] {
      assert p + q == q;
    } else {
      var a, r := p[0], p[1..];
      RemoveFirstPrefix(r, q, x);
      ConsConcat(p, q);
      RemoveFirstCons(a, r + q, x);
      ConcatAssoc([a], r, RemoveFirst(q, x));
    }
  }

  lemma ConsConcat<T>(p: seq<T>, q: seq<T>)
    requires p != []
    ensures p + q == [p[0]] + (p[1..] + q) && p == [p[0]] + p[1..]
  {
  }

  /** Removing the first `x` passes over a head that is not `x`. */
  lemma RemoveFirstCons<T>(a: T, t: seq<T>, x: T)
    requires a != x
    ensures RemoveFirst([a] + t, x) == [a] + RemoveFirst(t, x)
  {
    var s := [a] + t;
    assert s[0] == a && s[1..] == t;
  }

  lemma ConcatAssoc<T>(a: seq<T>, b: seq<T>, c: seq<T>)
    ensures a + (b + c) == (a + b) + c
  {
  }

  /** The find-then-push_back idiom that keeps a vector free of duplicates. */
  function AppendIfAbsent<T(==)>(s: seq<T>, x: T): (r: seq<T>)
    ensures x in r
    ensures forall y :: y in r ==> y in s || y == x
    ensures NoDuplicates(s) ==> NoDuplicates(r)
    ensures s <= r && |r| <= |s| + 1
  {
    if x in s then s else s + [x]
  }

  /** A subsequence of a duplicate-free sequence is duplicate-free. */
  lemma {:induction false} SubsequenceDistinct<T>(s: seq<T>, t: seq<T>)
    requires IsSubsequence(s, t) && NoDuplicates(t)
    ensures NoDuplicates(s)
    decreases |t|
  {
    if s != [] {
      assert t == [t[0]] + t[1..];
      if s[0] == t[0] && IsSubsequence(s[1..], t[1..]) {
        SubsequenceDistinct(s[1..], t[1..]);
        SubsequenceElements(s[1..], t[1..]);
        assert s[0] !in t[1..];
        assert s == [s[0]] + s[1..];
      } else {
        SubsequenceDistinct(s, t[1..]);
      }
    }
  }

  /** A duplicate-free sequence has as many distinct elements as positions. */
  lemma {:induction false} DistinctCard<T>(s: seq<T>)
    requires NoDuplicates(s)
    ensures |set x | x in s| == |s|
  {
    if s != [] {
      DistinctCard(s[1..]);
      assert s == [s[0]] + s[1..];
      assert s[0] !in s[1..];
      assert (set x | x in s) == {s[0]} + (set x | x in s[1..]);
    }
  }

  /** A subset as large as its superset is the superset. */
  lemma SubsetSameSize<T>(a: set<T>, b: set<T>)
    requires a <= b && |a| == |b|
    ensures a == b
  {
    assert b == a + (b - a);
    assert |b - a| == 0;
  }
}
