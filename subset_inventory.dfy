/** The inventory of the subset solver: the value-to-count map (TValueMap), its keys in the
    ascending order std::map and std::set iterate them, the pruning of empty counts and the
    flattened "master dispenser" that subset::Initialize builds. */
module SubsetInventory {
  import opened SeqUtil

  /** Some element of a non-empty set is no larger than all the others. */
  lemma MinExists(s: set<int>)
    requires s != {}
    ensures exists m :: m in s && forall x :: x in s ==> m <= x
    decreases |s|
  {
    if forall y :: y !in s { assert false; }
    var x :| x in s;
    var t := s - {x};
    assert forall y :: y in s ==> y == x || y in t;
    if t != {} {
      MinExists(t);
      var r :| r in t && forall y :: y in t ==> r <= y;
      if x < r {
        assert forall y :: y in s ==> x <= y;
      } else {
        assert forall y :: y in s ==> r <= y;
      }
    }
  }

  function SetMin(s: set<int>): (m: int)
    requires s != {}
    ensures m in s && forall x :: x in s ==> m <= x
  {
    MinExists(s);
    var m :| m in s && forall x :: x in s ==> m <= x; m
  }

  /** The elements of a set in increasing order: the iteration order of std::set<int> and of
      the keys of std::map<int, int>. Its ordering and membership are stated by
      AscendingFacts. */
  function Ascending(s: set<int>): (r: seq<int>)
    ensures |r| == |s|
    decreases |s|
  {
    if s == {} then []
    else
      var m := SetMin(s);
      [m] + Ascending(s - {m})
  }

  /** Ascending lists every element of the set exactly once, smallest first. */
  lemma {:induction false} AscendingFacts(s: set<int>)
    ensures StrictlyAscending(Ascending(s))
    ensures forall x :: x in Ascending(s) <==> x in s
    decreases |s|
  {
    if s != {} {
      var m := SetMin(s);
      var rest := Ascending(s - {m});
      AscendingFacts(s - {m});
      assert Ascending(s) == [m] + rest;
      forall i, j | 0 <= i < j < |Ascending(s)| ensures Ascending(s)[i] < Ascending(s)[j] {
        if i == 0 {
          assert Ascending(s)[j] == rest[j - 1];
          assert rest[j - 1] in rest;
        } else {
          assert Ascending(s)[i] == rest[i - 1] && Ascending(s)[j] == rest[j - 1];
        }
      }
    }
  }

  /** The keys of a map in ascending order are distinct keys of that map. */
  lemma KeysInOrder(m: map<int, int>)
    ensures StrictlyAscending(Ascending(m.Keys))
    ensures forall i :: 0 <= i < |Ascending(m.Keys)| ==> Ascending(m.Keys)[i] in m
  {
    AscendingFacts(m.Keys);
    var keys := Ascending(m.Keys);
    forall i | 0 <= i < |keys| ensures keys[i] in m {
      assert keys[i] in keys;
    }
  }

  /** Every key of a map has a position in the ascending key order. */
  lemma KeyPosition(m: map<int, int>, x: int)
    requires x in m
    ensures exists j :: 0 <= j < |Ascending(m.Keys)| && Ascending(m.Keys)[j] == x
  {
    AscendingFacts(m.Keys);
    assert x in Ascending(m.Keys);
  }

  /** Positive denominations (the code divides by them) with positive counts. */
  predicate ValidInventory(m: map<int, int>)
  {
    m != map[] && forall v :: v in m ==> v > 0 && m[v] > 0
  }

  /** The counts that subset::Initialize keeps: those above zero. */
  function Prune(m: map<int, int>): (r: map<int, int>)
    ensures r.Keys <= m.Keys
    ensures forall v :: v in m ==> (v in r <==> m[v] > 0)
    ensures forall v :: v in r ==> r[v] == m[v]
  {
    map v | v in m && m[v] > 0 :: m[v]
  }

  /** The master dispenser: count copies of every key, keys in the given order; the last
      key's copies are appended last, as the filling loop does. */
  function Flatten(keys: seq<int>, m: map<int, int>): seq<int>
    requires forall i :: 0 <= i < |keys| ==> keys[i] in m && m[keys[i]] >= 0
  {
    if keys == [] then []
    else Flatten(keys[..|keys| - 1], m) + Repeat(keys[|keys| - 1], m[keys[|keys| - 1]])
  }

  /** The master dispenser of a count map whose counts are not negative. */
  function Dispenser(m: map<int, int>): seq<int>
    requires forall v :: v in m ==> m[v] >= 0
  {
    KeysInOrder(m);
    Flatten(Ascending(m.Keys), m)
  }

  /** A dispenser over distinct keys holds exactly m[v] copies of each key v and nothing
      else. */
  lemma {:induction false} FlattenCopies(keys: seq<int>, m: map<int, int>, v: int)
    requires StrictlyAscending(keys)
    requires forall i :: 0 <= i < |keys| ==> keys[i] in m && m[keys[i]] >= 0
    ensures multiset(Flatten(keys, m))[v] == if v in keys then m[v] else 0
    decreases |keys|
  {
    if keys != [] {
      var init, last := keys[..|keys| - 1], keys[|keys| - 1];
      FlattenCopies(init, m, v);
      RepeatCopies(last, m[last]);
      assert last !in init;
      assert v in keys <==> v in init || v == last;
      assert multiset(Flatten(keys, m)) == multiset(Flatten(init, m)) + multiset(Repeat(last, m[last]));
    }
  }

  lemma FlattenElements(keys: seq<int>, m: map<int, int>)
    requires StrictlyAscending(keys)
    requires forall i :: 0 <= i < |keys| ==> keys[i] in m && m[keys[i]] >= 0
    ensures forall x :: x in Flatten(keys, m) ==> x in keys
  {
    forall x | x in Flatten(keys, m) ensures x in keys {
      FlattenCopies(keys, m, x);
    }
  }

  /** ... and, the keys ascending, it is in non-decreasing order. */
  lemma {:induction false} FlattenSorted(keys: seq<int>, m: map<int, int>)
    requires StrictlyAscending(keys)
    requires forall i :: 0 <= i < |keys| ==> keys[i] in m && m[keys[i]] >= 0
    ensures Sorted(Flatten(keys, m))
    decreases |keys|
  {
    if keys != [] {
      var init, last := keys[..|keys| - 1], keys[|keys| - 1];
      FlattenSorted(init, m);
      FlattenElements(init, m);
      var a := Flatten(init, m);
      var b := Repeat(last, m[last]);
      forall i, j | 0 <= i < |a| && 0 <= j < |b| ensures a[i] <= b[j] {
        assert a[i] in a;
        var k :| 0 <= k < |init| && init[k] == a[i];
        assert keys[k] < keys[|keys| - 1];
      }
      SortedAppend(a, b);
    }
  }

  /** What Initialize's filling loop produces from a valid inventory: m[v] copies of every
      denomination v, in non-decreasing order. */
  lemma DispenserContents(m: map<int, int>)
    requires ValidInventory(m)
    ensures forall v :: multiset(Dispenser(m))[v] == if v in m then m[v] else 0
    ensures Sorted(Dispenser(m))
  {
    KeysInOrder(m);
    AscendingFacts(m.Keys);
    var keys := Ascending(m.Keys);
    forall v ensures multiset(Flatten(keys, m))[v] == if v in m then m[v] else 0 {
      FlattenCopies(keys, m, v);
    }
    FlattenSorted(keys, m);
  }
}
