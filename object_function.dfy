/** The invalidation registry of the functor library. An object function calls a member
    function on an object; the object derives from ObjectFunctionOwner and keeps a registry
    of the object functions pointing into it, so that its destructor can clear them. The
    abstract IObjectFunction and the template ObjectFunction<OBJECT_TYPE, FUNCTION_TYPE_PTR>
    are one class here (the owner part and the pair part); the target object is itself an
    ObjectFunctionOwner, and a member-function pointer is a non-zero integer (0 is NULL). */
module ObjectFunctions {
  import opened SeqUtil

  /** ClassFunction: the (object, member function) pair an object function calls. */
  datatype ClassFunction = ClassFunction(pObj: ObjectFunctionOwner?, pFunc: int)
  {
    /** The pair has valid data: a NULL object pointer or a NULL member-function pointer
        each make it invalid. */
    function IsValid(): (r: bool)
      ensures r ==> pObj != null
      ensures pObj != null ==> (r <==> pFunc != 0)
    {
      pObj != null && pFunc != 0
    }

    /** clear(): both pointers reset to NULL, which makes the pair invalid. */
    function Clear(): (c: ClassFunction)
      ensures !c.IsValid()
      ensures c.pObj == null && c.pFunc == 0
    {
      ClassFunction(null, 0)
    }
  }

  /** The owner's registry after a function leaves it: InvalidateInOwner (reached from the
      destructor and from CopyData) erases the function only when it is still valid. */
  function Deregistered(registry: seq<ObjectFunction>, f: ObjectFunction, valid: bool): (r: seq<ObjectFunction>)
    ensures !valid ==> r == registry
    ensures valid && NoDuplicates(registry) ==> NoDuplicates(r) && f !in r
    ensures forall g :: g in r ==> g in registry
    ensures forall g :: g in registry && g != f ==> g in r
  {
    if valid then
      RemoveFirstMembers(registry, f);
      assert NoDuplicates(registry) ==> NoDuplicates(RemoveFirst(registry, f)) && f !in RemoveFirst(registry, f) by {
        if NoDuplicates(registry) {
          RemoveFirstDistinct(registry, f);
        }
      }
      RemoveFirst(registry, f)
    else registry
  }

  class ObjectFunctionOwner {
    /** functionObjVector: the object functions that point into this object. */
    var functionObjVector: seq<ObjectFunction>

    constructor()
      ensures functionObjVector == []
    {
      functionObjVector := [];
    }

    /** AddFunctionObject: register a function at the end, unless it is registered already. */
    method AddFunctionObject(pClassFunction: ObjectFunction)
      modifies this
      ensures functionObjVector == AppendIfAbsent(old(functionObjVector), pClassFunction)
    {
      var iterLoc := Find(functionObjVector, pClassFunction);
      if iterLoc == |functionObjVector| {
        functionObjVector := functionObjVector + [pClassFunction];
      }
    }

    /** InvalidateFunctionObject: erase the function if it is registered; the others keep
        their order. */
    method InvalidateFunctionObject(pClassFunction: ObjectFunction)
      modifies this
      ensures functionObjVector == RemoveFirst(old(functionObjVector), pClassFunction)
    {
      var iterLoc := Find(functionObjVector, pClassFunction);
      if iterLoc < |functionObjVector| {
        EraseFound(functionObjVector, pClassFunction, iterLoc);
        functionObjVector := functionObjVector[..iterLoc] + functionObjVector[iterLoc + 1..];
      }
    }

    /** ~ObjectFunctionOwner: every registered function has its pair cleared (and so becomes
        invalid); their owners and the registry itself stay as they were. */
    method Destroy()
      modifies functionObjVector
      ensures forall f :: f in functionObjVector ==> f.objFuncPtr == old(f.objFuncPtr).Clear() && !f.IsValid()
      ensures forall f :: f in functionObjVector ==> f.owner == old(f.owner)
    {
      for i := 0 to |functionObjVector|
        invariant forall j :: 0 <= j < i ==> functionObjVector[j].objFuncPtr == ClassFunction(null, 0)
        invariant forall f :: f in functionObjVector ==> f.owner == old(f.owner)
      {
        functionObjVector[i].InvalidateFunction();
      }
    }
  }

  class ObjectFunction {
    /** pOwner: the object this function is registered with (NULL for a default one). */
    var owner: ObjectFunctionOwner?
    /** objFuncPtr: the pair this function calls. */
    var objFuncPtr: ClassFunction

    /** IsValid: the function has something to call, neither of its pointers cleared. */
    function IsValid(): (r: bool)
      reads this
      ensures r <==> objFuncPtr.pObj != null && objFuncPtr.pFunc != 0
    {
      objFuncPtr.IsValid()
    }

    /** The link the constructors set up and the operations keep: a valid function calls
        into its own owner and is registered with it. */
    ghost predicate Linked()
      reads this, owner
    {
      IsValid() ==> owner == objFuncPtr.pObj && owner != null && this in owner.functionObjVector
    }

    /** Default constructor: no owner and a NULL pair, so not valid. */
    constructor Default()
      ensures owner == null && objFuncPtr == ClassFunction(null, 0)
      ensures !IsValid() && Linked()
    {
      owner := null;
      objFuncPtr := ClassFunction(null, 0);
    }

    /** Constructor from (object, method): the object is the owner, and this function is
        appended to its registry. */
    constructor(pNewObj: ObjectFunctionOwner, pNewFunc: int)
      modifies pNewObj
      ensures owner == pNewObj && objFuncPtr == ClassFunction(pNewObj, pNewFunc)
      ensures pNewObj.functionObjVector == old(pNewObj.functionObjVector) + [this]
      ensures Linked()
    {
      owner := pNewObj;
      objFuncPtr := ClassFunction(pNewObj, pNewFunc);
      new;
      pNewObj.AddFunctionObject(this);
    }

    /** Copy constructor: the same owner and pair, and the copy is registered with that owner
        too (the source dereferences the owner, so it must not be NULL). */
    constructor Copy(origObj: ObjectFunction)
      requires origObj.owner != null
      modifies origObj.owner
      ensures owner == origObj.owner && objFuncPtr == origObj.objFuncPtr
      ensures owner.functionObjVector == old(origObj.owner.functionObjVector) + [this]
      ensures origObj.Linked() ==> Linked()
    {
      owner := origObj.owner;
      objFuncPtr := origObj.objFuncPtr;
      new;
      owner.AddFunctionObject(this);
    }

    /** InvalidateInOwner (and the destructor, which only calls it): a valid function with an
        owner leaves the owner's registry; otherwise nothing happens. */
    method InvalidateInOwner()
      modifies owner
      ensures owner != null ==>
                owner.functionObjVector == Deregistered(old(owner.functionObjVector), this, IsValid())
    {
      if IsValid() && owner != null {
        owner.InvalidateFunctionObject(this);
      }
    }

    /** CopyData: leave the current owner's registry, adopt the owner of origObj and register
        with it when it is not NULL. When both owners are the same object, a valid function moves
        to the end of that registry. */
    method CopyData(origObj: ObjectFunction)
      modifies this, owner, origObj.owner
      ensures owner == old(origObj.owner) && objFuncPtr == old(objFuncPtr)
      ensures var before, after := old(owner), old(origObj.owner);
              (before != null && before != after ==>
                 before.functionObjVector == Deregistered(old(before.functionObjVector), this, old(IsValid()))) &&
              (after != null && after != before ==>
                 after.functionObjVector == AppendIfAbsent(old(after.functionObjVector), this)) &&
              (after != null && after == before ==>
                 after.functionObjVector ==
                 AppendIfAbsent(Deregistered(old(after.functionObjVector), this, old(IsValid())), this))
      ensures owner != null ==> this in owner.functionObjVector
    {
      InvalidateInOwner();
      owner := origObj.owner;
      if owner != null {
        owner.AddFunctionObject(this);
      }
    }

    /** operator=: move the registration to rhs's owner, then copy rhs's pair. The link of
        rhs carries over to this function. */
    method Assign(rhs: ObjectFunction)
      modifies this, owner, rhs.owner
      ensures owner == old(rhs.owner) && objFuncPtr == old(rhs.objFuncPtr)
      ensures var before, after := old(owner), old(rhs.owner);
              (before != null && before != after ==>
                 before.functionObjVector == Deregistered(old(before.functionObjVector), this, old(IsValid()))) &&
              (after != null && after != before ==>
                 after.functionObjVector == AppendIfAbsent(old(after.functionObjVector), this)) &&
              (after != null && after == before ==>
                 after.functionObjVector ==
                 AppendIfAbsent(Deregistered(old(after.functionObjVector), this, old(IsValid())), this))
      ensures old(rhs.Linked()) ==> Linked()
    {
      CopyData(rhs);
      objFuncPtr := rhs.objFuncPtr;
    }

    /** InvalidateFunction: clear the pair, so the function is no longer valid. */
    method InvalidateFunction()
      modifies this
      ensures objFuncPtr == old(objFuncPtr).Clear() && owner == old(owner)
      ensures !IsValid() && Linked()
    {
      objFuncPtr := objFuncPtr.Clear();
    }
  }
}
