/** IFunctionDelegate: a vector of function objects that a multicast call runs in order. The
    delegate owns clones of the functions added to it; the clone of an object function calls
    the same (object, member function) pair and is registered with the same object, so it is
    modelled by its ClassFunction pair, compared as the function objects' operator== compares
    them. A stored function turns invalid when its target object is destroyed
    (TargetDestroyed), and the delegate drops invalid functions whenever it purges. */
module FunctionDelegates {
  import opened Wrappers
  import opened SeqUtil
  import opened ObjectFunctions

  /** ObjectFunctionException, thrown when a function cannot be cloned. */
  datatype DelegateError = ObjectFunctionException

  /** Clone of a function object: NULL when it is not valid (as in UnaryObjectFunction::Clone),
      otherwise an equal copy. */
  function Clone(f: ClassFunction): (r: Option<ClassFunction>)
    ensures r.Some? <==> f.IsValid()
    ensures r.Some? ==> r.value == f
  {
    if f.IsValid() then Some(f) else None
  }

  /** The valid functions of a sequence, in their order: what CleanOutInvalids leaves. */
  function Valids(s: seq<ClassFunction>): (r: seq<ClassFunction>)
    ensures |r| <= |s|
  {
    if s == [] then []
    else if s[0].IsValid() then [s[0]] + Valids(s[1..])
    else Valids(s[1..])
  }

  /** The purge keeps exactly the valid functions, in their relative order. */
  lemma {:induction false} ValidsFacts(s: seq<ClassFunction>)
    ensures forall i :: 0 <= i < |Valids(s)| ==> Valids(s)[i].IsValid()
    ensures forall f :: f in Valids(s) <==> f in s && f.IsValid()
    ensures forall j :: 0 <= j < |Valids(s)| ==> Valids(s)[j] in s
    ensures forall i :: 0 <= i < |s| && s[i].IsValid() ==> s[i] in Valids(s)
    ensures IsSubsequence(Valids(s), s)
  {
    if s != [] {
      ValidsFacts(s[1..]);
      var rest := Valids(s[1..]);
      assert s == [s[0]] + s[1..];
      if s[0].IsValid() {
        assert Valids(s) == [s[0]] + rest;
        assert Valids(s)[1..] == rest;
      } else {
        SubsequenceSkip(rest, s);
      }
    }
  }

  /** Dropping the first element of the longer sequence keeps a subsequence. */
  lemma SubsequenceSkip(t: seq<ClassFunction>, s: seq<ClassFunction>)
    requires s != [] && IsSubsequence(t, s[1..])
    ensures IsSubsequence(t, s)
  {
  }

  /** A sequence of valid functions is its own purge. */
  lemma {:induction false} ValidsOfValid(s: seq<ClassFunction>)
    requires forall i :: 0 <= i < |s| ==> s[i].IsValid()
    ensures Valids(s) == s
  {
    if s != [] {
      ValidsOfValid(s[1..]);
      assert s == [s[0]] + s[1..];
    }
  }

  /** Purging twice is purging once. */
  lemma ValidsIdempotent(s: seq<ClassFunction>)
    ensures Valids(Valids(s)) == Valids(s)
  {
    ValidsFacts(s);
    ValidsOfValid(Valids(s));
  }

  lemma {:induction false} ValidsAppend(a: seq<ClassFunction>, b: seq<ClassFunction>)
    ensures Valids(a + b) == Valids(a) + Valids(b)
  {
    if a == [] {
      assert a + b == b;
    } else {
      ValidsAppend(a[1..], b);
      assert (a + b)[0] == a[0] && (a + b)[1..] == a[1..] + b;
      if a[0].IsValid() {
        ConcatAssoc([a[0]], Valids(a[1..]), Valids(b));
      }
    }
  }

  /** Erasing an invalid function does not change the purge. */
  lemma ValidsSkip(s: seq<ClassFunction>, i: nat)
    requires i < |s| && !s[i].IsValid()
    ensures Valids(s[..i] + s[i + 1..]) == Valids(s)
  {
    assert s == s[..i] + ([s[i]] + s[i + 1..]);
    ValidsAppend(s[..i], [s[i]] + s[i + 1..]);
    ValidsAppend(s[..i], s[i + 1..]);
    assert ([s[i]] + s[i + 1..])[1..] == s[i + 1..];
  }

  /** Erasing the first copy of a function erases the first copy among the valid ones, or
      nothing there when the function is invalid. */
  lemma {:induction false} ValidsRemoveFirst(s: seq<ClassFunction>, x: ClassFunction)
    ensures x.IsValid() ==> Valids(RemoveFirst(s, x)) == RemoveFirst(Valids(s), x)
    ensures !x.IsValid() ==> Valids(RemoveFirst(s, x)) == Valids(s)
  {
    if s != [] {
      ValidsRemoveFirst(s[1..], x);
      if s[0] != x {
        var r := RemoveFirst(s[1..], x);
        assert RemoveFirst(s, x) == [s[0]] + r;
        assert ([s[0]] + r)[0] == s[0] && ([s[0]] + r)[1..] == r;
      }
    }
  }

  /** A delegate's stored functions after one Add: purged, then the argument appended when
      it is valid and not stored yet. */
  function AddOnce(s: seq<ClassFunction>, f: ClassFunction): (r: seq<ClassFunction>)
    ensures forall i :: 0 <= i < |r| ==> r[i].IsValid()
    ensures NoDuplicates(Valids(s)) ==> NoDuplicates(r)
    ensures f.IsValid() ==> f in r
    ensures forall g :: g in r ==> g in s || g == f
    ensures forall g :: g in s && g.IsValid() ==> g in r
  {
    ValidsFacts(s);
    if f.IsValid() then AppendIfAbsent(Valids(s), f) else Valids(s)
  }

  /** The stored functions and the outcome of adding each of `fs` in turn; the first function
      that cannot be cloned stops the loop with the exception. */
  function AddEach(s: seq<ClassFunction>, fs: seq<ClassFunction>): (seq<ClassFunction>, Outcome<DelegateError>)
    decreases |fs|
  {
    if fs == [] then (s, Pass)
    else if !fs[0].IsValid() then (AddOnce(s, fs[0]), Fail(ObjectFunctionException))
    else AddEach(AddOnce(s, fs[0]), fs[1..])
  }

  /** Adding functions that are all valid succeeds, stores each of them and keeps every
      valid function already stored; the stored functions stay pairwise unequal. */
  lemma {:induction false} AddEachFacts(s: seq<ClassFunction>, fs: seq<ClassFunction>)
    requires NoDuplicates(Valids(s))
    ensures NoDuplicates(Valids(AddEach(s, fs).0))
    ensures (forall i :: 0 <= i < |fs| ==> fs[i].IsValid()) ==>
              AddEach(s, fs).1 == Pass &&
              (forall f :: f in fs ==> f in AddEach(s, fs).0) &&
              (forall f :: f in s && f.IsValid() ==> f in AddEach(s, fs).0)
    decreases |fs|
  {
    if fs != [] {
      var t := AddOnce(s, fs[0]);
      ValidsOfValid(t);
      if fs[0].IsValid() {
        AddEachFacts(t, fs[1..]);
        assert forall f :: f in fs ==> f == fs[0] || f in fs[1..];
      }
    }
  }

  /** The stored functions after removing each of `fs` in turn. */
  function RemoveEach(s: seq<ClassFunction>, fs: seq<ClassFunction>): (r: seq<ClassFunction>)
    ensures forall g :: g in r ==> g in s
    decreases |fs|
  {
    if fs == [] then s
    else
      RemoveFirstMembers(s, fs[0]);
      RemoveEach(RemoveFirst(s, fs[0]), fs[1..])
  }

  /** Removing every function of `fs` from a delegate whose valid functions are pairwise
      unequal leaves none of the valid ones stored, and keeps the valid functions unequal. */
  lemma {:induction false} RemoveEachFacts(s: seq<ClassFunction>, fs: seq<ClassFunction>)
    requires NoDuplicates(Valids(s))
    ensures NoDuplicates(Valids(RemoveEach(s, fs)))
    ensures forall f :: f in fs && f.IsValid() ==> f !in RemoveEach(s, fs)
    decreases |fs|
  {
    if fs != [] {
      var x := fs[0];
      var t := RemoveFirst(s, x);
      ValidsRemoveFirst(s, x);
      if x.IsValid() {
        RemoveFirstDistinct(Valids(s), x);
        ValidsFacts(t);
      }
      RemoveEachFacts(t, fs[1..]);
      assert forall f :: f in fs ==> f == x || f in fs[1..];
    }
  }

  /** The stored functions after the target object `obj` is destroyed: every function calling
      into it has had its pair cleared. */
  function Invalidated(s: seq<ClassFunction>, obj: ObjectFunctionOwner): (r: seq<ClassFunction>)
    ensures |r| == |s|
    ensures forall i :: 0 <= i < |s| ==> r[i] == if s[i].pObj == obj then s[i].Clear() else s[i]
  {
    if s == [] then []
    else [if s[0].pObj == obj then s[0].Clear() else s[0]] + Invalidated(s[1..], obj)
  }

  /** After the target is destroyed no valid function calls into it, the valid functions are
      a subsequence of the valid functions before, and they stay pairwise unequal. */
  lemma {:induction false} InvalidatedFacts(s: seq<ClassFunction>, obj: ObjectFunctionOwner)
    ensures forall f :: f in Invalidated(s, obj) && f.IsValid() ==> f.pObj != obj
    ensures IsSubsequence(Valids(Invalidated(s, obj)), Valids(s))
    ensures NoDuplicates(Valids(s)) ==> NoDuplicates(Valids(Invalidated(s, obj)))
  {
    if s != [] {
      InvalidatedFacts(s[1..], obj);
      var r, rest := Invalidated(s, obj), Invalidated(s[1..], obj);
      assert r == [r[0]] + rest;
      assert r[1..] == rest;
      var v, w := Valids(rest), Valids(s[1..]);
      if s[0].pObj == obj {
        assert Valids(r) == v;
        if s[0].IsValid() {
          assert Valids(s) == [s[0]] + w;
          SubsequenceSkip(v, Valids(s));
          ValidsFacts(s[1..]);
        }
      } else if s[0].IsValid() {
        assert Valids(r) == [s[0]] + v && Valids(s) == [s[0]] + w;
        assert ([s[0]] + v)[1..] == v && ([s[0]] + w)[1..] == w;
        if NoDuplicates(Valids(s)) {
          SubsequenceElements(v, w);
          assert s[0] !in w;
        }
      }
      if NoDuplicates(Valids(s)) {
        SubsequenceDistinct(Valids(r), Valids(s));
      }
    }
  }

  /** operator== as written: the sizes must agree, and because the match flag is never reset
      after the first rhs element is found, only that first element is looked up. */
  predicate EqualAsWritten(lhs: seq<ClassFunction>, rhs: seq<ClassFunction>)
  {
    |lhs| == |rhs| && |rhs| > 0 && rhs[0] in lhs
  }

  /** operator== as evidently intended: same size and every rhs element is stored in lhs
      (two empty delegates still compare unequal, as in the source). */
  predicate EqualIntended(lhs: seq<ClassFunction>, rhs: seq<ClassFunction>)
  {
    |lhs| == |rhs| && |rhs| > 0 && forall i :: 0 <= i < |rhs| ==> rhs[i] in lhs
  }

  /** Two delegates holding different functions compare equal when their first functions
      agree. */
  lemma EqualityFlagNeverReset(o: ObjectFunctionOwner)
    ensures var a, b, c := ClassFunction(o, 1), ClassFunction(o, 2), ClassFunction(o, 3);
            EqualAsWritten([a, b], [a, c]) && !EqualIntended([a, b], [a, c])
  {
    var a, b, c := ClassFunction(o, 1), ClassFunction(o, 2), ClassFunction(o, 3);
    assert [a, c][1] == c && c !in [a, b];
  }

  /** For duplicate-free delegates the intended equality is equality of the stored sets, so
      it does not depend on the order or on which side is which. */
  lemma EqualIntendedIsSetEquality(lhs: seq<ClassFunction>, rhs: seq<ClassFunction>)
    requires NoDuplicates(lhs) && NoDuplicates(rhs)
    ensures EqualIntended(lhs, rhs) <==> |rhs| > 0 && forall f :: f in lhs <==> f in rhs
    ensures EqualIntended(lhs, rhs) == EqualIntended(rhs, lhs)
  {
    var a, b := set f | f in lhs, set f | f in rhs;
    DistinctCard(lhs);
    DistinctCard(rhs);
    if EqualIntended(lhs, rhs) {
      forall f | f in b ensures f in a {
        var i :| 0 <= i < |rhs| && rhs[i] == f;
      }
      SubsetSameSize(b, a);
      assert forall f :: f in lhs <==> f in a;
    }
    if EqualIntended(rhs, lhs) {
      forall f | f in a ensures f in b {
        var i :| 0 <= i < |lhs| && lhs[i] == f;
      }
      SubsetSameSize(a, b);
      assert forall f :: f in rhs <==> f in b;
    }
    if |rhs| > 0 && forall f :: f in lhs <==> f in rhs {
      assert a == b;
      assert forall i :: 0 <= i < |rhs| ==> rhs[i] in lhs;
      assert forall i :: 0 <= i < |lhs| ==> lhs[i] in rhs;
    }
  }

  class FunctionDelegate {
    /** The vector of stored function objects, in the order they run. */
    var funcs: seq<ClassFunction>

    /** The valid stored functions are pairwise unequal (functions invalidated by a destroyed
        target may coincide until the next purge). */
    ghost predicate Valid()
      reads this
    {
      NoDuplicates(Valids(funcs))
    }

    /** Default constructor: no functions. */
    constructor()
      ensures funcs == [] && Valid()
    {
      funcs := [];
    }

    /** Size: the number of stored functions, invalid ones included. */
    function Size(): (n: nat)
      reads this
      ensures n == |funcs|
    {
      |funcs|
    }

    /** Remove: erase the first stored function equal to the argument; every other stays in
        order, and with no match nothing changes. */
    method Remove(newFunc: ClassFunction)
      requires Valid()
      modifies this
      ensures funcs == RemoveFirst(old(funcs), newFunc)
      ensures Valid()
    {
      ValidsRemoveFirst(funcs, newFunc);
      if newFunc.IsValid() {
        RemoveFirstDistinct(Valids(funcs), newFunc);
      }
      var iter := Find(funcs, newFunc);
      if iter < |funcs| {
        EraseFound(funcs, newFunc, iter);
        funcs := funcs[..iter] + funcs[iter + 1..];
      }
    }

    /** Add: purge the invalid functions first; a function that cannot be cloned then raises
        the exception, and otherwise it is appended unless an equal one is stored. */
    method Add(newFunc: ClassFunction) returns (o: Outcome<DelegateError>)
      requires Valid()
      modifies this
      ensures funcs == AddOnce(old(funcs), newFunc)
      ensures o == if newFunc.IsValid() then Pass else Fail(ObjectFunctionException)
      ensures Valid()
    {
      CleanOutInvalids();
      var pSafe := Clone(newFunc);
      if pSafe.None? {
        return Fail(ObjectFunctionException);
      }
      var anyMatches := false;
      for iter := 0 to |funcs|
        invariant anyMatches <==> newFunc in funcs[..iter]
      {
        assert funcs[..iter + 1] == funcs[..iter] + [funcs[iter]];
        anyMatches := anyMatches || funcs[iter] == newFunc;
      }
      assert funcs[..|funcs|] == funcs;
      if !anyMatches {
        funcs := funcs + [pSafe.value];
      }
      ValidsOfValid(funcs);
      o := Pass;
    }

    /** ClearAll: no functions remain. */
    method ClearAll()
      modifies this
      ensures funcs == [] && Valid()
    {
      funcs := [];
    }

    /** IsValid: purge, then report whether any function remains (each remaining one is
        valid, so the loop's conjunction only checks emptiness). */
    method IsValid() returns (retVal: bool)
      requires Valid()
      modifies this
      ensures funcs == Valids(old(funcs)) && Valid()
      ensures retVal <==> funcs != []
    {
      CleanOutInvalids();
      retVal := funcs != [];
      for iter := 0 to |funcs|
        invariant retVal <==> funcs != []
      {
        retVal := retVal && funcs[iter].IsValid();
      }
    }

    /** CleanOutInvalids: erase an invalid function and start again from the beginning, until
        every stored function is valid. */
    method CleanOutInvalids()
      requires Valid()
      modifies this
      ensures funcs == Valids(old(funcs)) && Valid()
      ensures forall i :: 0 <= i < |funcs| ==> funcs[i].IsValid()
    {
      var iter := 0;
      while iter < |funcs|
        invariant iter <= |funcs|
        invariant forall j :: 0 <= j < iter ==> funcs[j].IsValid()
        invariant Valids(funcs) == Valids(old(funcs))
        decreases |funcs|, |funcs| - iter
      {
        if !funcs[iter].IsValid() {
          ValidsSkip(funcs, iter);
          funcs := funcs[..iter] + funcs[iter + 1..];
          iter := 0;
        } else {
          iter := iter + 1;
        }
      }
      ValidsOfValid(funcs);
    }

    /** What the destruction of a target object does to the stored clones: those calling into
        it are registered with it, and its destructor clears their pairs. */
    method TargetDestroyed(obj: ObjectFunctionOwner)
      requires Valid()
      modifies this
      ensures funcs == Invalidated(old(funcs), obj) && Valid()
    {
      InvalidatedFacts(funcs, obj);
      ghost var target := Invalidated(funcs, obj);
      for i := 0 to |funcs|
        invariant |funcs| == |target|
        invariant forall j :: 0 <= j < |funcs| ==> funcs[j] == if j < i then target[j] else old(funcs)[j]
      {
        if funcs[i].pObj == obj {
          funcs := funcs[i := funcs[i].Clear()];
        }
      }
    }

    /** operator+=: Add each function of rhs in turn; an exception from Add ends the loop.
        For `d += d` the loop walks the vector that Add purges: the first Add erases the
        invalid functions behind position 0 and every later Add finds its function stored,
        so the delegate is purged and nothing is added. With an invalid first function the
        purge deletes the very function being added, which the source leaves undefined. */
    method AddAll(rhs: FunctionDelegate) returns (o: Outcome<DelegateError>)
      requires Valid()
      requires rhs != this || funcs == [] || funcs[0].IsValid()
      modifies this
      ensures rhs != this ==> (funcs, o) == AddEach(old(funcs), rhs.funcs)
      ensures rhs == this ==> funcs == Valids(old(funcs)) && o == Pass
      ensures Valid()
    {
      var i := 0;
      o := Pass;
      while i < |rhs.funcs|
        invariant i <= |rhs.funcs| && Valid()
        invariant rhs != this ==> AddEach(funcs, rhs.funcs[i..]) == AddEach(old(funcs), rhs.funcs)
        invariant rhs == this && i == 0 ==> funcs == old(funcs) && (funcs == [] || funcs[0].IsValid())
        invariant rhs == this && i > 0 ==> funcs == Valids(old(funcs)) && o == Pass
        invariant rhs == this && i > 0 ==> forall j :: 0 <= j < |funcs| ==> funcs[j].IsValid()
      {
        assert rhs.funcs[i..][0] == rhs.funcs[i] && rhs.funcs[i..][1..] == rhs.funcs[i + 1..];
        if rhs == this {
          ValidsFacts(funcs);
          if i > 0 {
            ValidsOfValid(funcs);
          }
        }
        o := Add(rhs.funcs[i]);
        if o.Fail? {
          return;
        }
        i := i + 1;
      }
      o := Pass;
    }

    /** operator-=: Remove each function of rhs in turn. */
    method RemoveAll(rhs: FunctionDelegate)
      requires Valid() && rhs != this
      modifies this
      ensures funcs == RemoveEach(old(funcs), rhs.funcs) && Valid()
    {
      for i := 0 to |rhs.funcs|
        invariant Valid()
        invariant RemoveEach(funcs, rhs.funcs[i..]) == RemoveEach(old(funcs), rhs.funcs)
      {
        assert rhs.funcs[i..][0] == rhs.funcs[i] && rhs.funcs[i..][1..] == rhs.funcs[i + 1..];
        Remove(rhs.funcs[i]);
      }
    }

    /** operator= as written: ClearAll, then Add each function of rhs. When rhs is this
        delegate, the clearing empties rhs too and nothing is added back. */
    method Assign(rhs: FunctionDelegate) returns (o: Outcome<DelegateError>)
      requires Valid()
      modifies this
      ensures rhs == this ==> funcs == [] && o == Pass
      ensures rhs != this ==> (funcs, o) == AddEach([], old(rhs.funcs))
      ensures Valid()
    {
      ClearAll();
      o := Pass;
      var i := 0;
      while i < |rhs.funcs|
        invariant i <= |rhs.funcs| && Valid() && o == Pass
        invariant rhs == this ==> funcs == []
        invariant rhs != this ==> rhs.funcs == old(rhs.funcs)
        invariant rhs != this ==> AddEach(funcs, rhs.funcs[i..]) == AddEach([], rhs.funcs)
      {
        assert rhs.funcs[i..][0] == rhs.funcs[i] && rhs.funcs[i..][1..] == rhs.funcs[i + 1..];
        o := Add(rhs.funcs[i]);
        if o.Fail? {
          return;
        }
        i := i + 1;
      }
    }

    /** operator= with the self-assignment check it evidently needs: assigning a delegate to
        itself leaves it as it is. */
    method AssignChecked(rhs: FunctionDelegate) returns (o: Outcome<DelegateError>)
      requires Valid()
      modifies this
      ensures rhs == this ==> funcs == old(funcs) && o == Pass
      ensures rhs != this ==> (funcs, o) == AddEach([], old(rhs.funcs))
      ensures Valid()
    {
      if rhs == this {
        return Pass;
      }
      o := Assign(rhs);
    }

    /** operator== as written. */
    method Equals(rhs: FunctionDelegate) returns (retVal: bool)
      ensures retVal <==> EqualAsWritten(funcs, rhs.funcs)
    {
      retVal := false;
      if |funcs| != |rhs.funcs| {
        return;
      }
      var i := 0;
      while i < |rhs.funcs|
        invariant i <= |rhs.funcs|
        invariant i == 0 ==> !retVal
        invariant i > 0 ==> retVal && rhs.funcs[0] in funcs
      {
        for iter := 0 to |funcs|
          invariant retVal <==> i > 0 || rhs.funcs[i] in funcs[..iter]
        {
          assert funcs[..iter + 1] == funcs[..iter] + [funcs[iter]];
          retVal := retVal || funcs[iter] == rhs.funcs[i];
        }
        assert funcs[..|funcs|] == funcs;
        if !retVal {
          break;
        } else {
          retVal := true;
        }
        i := i + 1;
      }
    }

    /** operator== with the match flag reset for every rhs element, as evidently intended. */
    method EqualsIntended(rhs: FunctionDelegate) returns (retVal: bool)
      ensures retVal <==> EqualIntended(funcs, rhs.funcs)
    {
      retVal := false;
      if |funcs| != |rhs.funcs| {
        return;
      }
      var i := 0;
      while i < |rhs.funcs|
        invariant i <= |rhs.funcs|
        invariant retVal <==> i > 0
        invariant forall j :: 0 <= j < i ==> rhs.funcs[j] in funcs
      {
        var found := false;
        for iter := 0 to |funcs|
          invariant found <==> rhs.funcs[i] in funcs[..iter]
        {
          assert funcs[..iter + 1] == funcs[..iter] + [funcs[iter]];
          found := found || funcs[iter] == rhs.funcs[i];
        }
        assert funcs[..|funcs|] == funcs;
        if !found {
          retVal := false;
          break;
        }
        retVal := true;
        i := i + 1;
      }
    }
  }

  /** The copy constructor: `*this += orig` on an empty delegate, which throws when orig
      holds a function that cannot be cloned. */
  method CopyOf(orig: FunctionDelegate) returns (r: Result<FunctionDelegate, DelegateError>)
    ensures r.Failure? <==> AddEach([], orig.funcs).1.Fail?
    ensures r.Success? ==> fresh(r.value) && r.value.Valid() && r.value.funcs == AddEach([], orig.funcs).0
  {
    var d := new FunctionDelegate();
    var o := d.AddAll(orig);
    if o.Fail? {
      return Failure(o.error);
    }
    return Success(d);
  }
}
