/** TUniquePtr: a move-only owning pointer. Every way of constructing one
    from another ("copy" and "move" alike) steals the referent and nulls the
    source; assignment releases the currently held referent first. A
    released referent is returned as `deleted` so that callers can see
    exactly which object the pointer destroyed. */
module Ownership {

  datatype Option<T> = None | Some(value: T)

  class UniquePtr<T(==)> {
    var ptr: Option<T>

    /** TUniquePtr(Type* ptr = nullptr). */
    constructor (p: Option<T>)
      ensures ptr == p
    {
      ptr := p;
    }

    /** TUniquePtr(TUniquePtr&) and TUniquePtr(TUniquePtr&&): both steal. */
    constructor Steal(src: UniquePtr<T>)
      modifies src
      ensures ptr == old(src.ptr)
      ensures src.ptr == None
    {
      ptr := src.ptr;
      src.ptr := None;
    }

    /** Get(): observe the referent without giving it up. */
    function Get(): (r: Option<T>)
      reads this
      ensures r == ptr
    {
      ptr
    }

    /** Release(): hand the referent over; the pointer is null afterwards. */
    method Release() returns (r: Option<T>)
      modifies this
      ensures r == old(ptr)
      ensures ptr == None
    {
      r := ptr;
      ptr := None;
    }

    /** operator =(Type*): delete the held object, then take the raw pointer. */
    method AssignRaw(p: Option<T>) returns (deleted: Option<T>)
      modifies this
      ensures deleted == old(ptr)
      ensures ptr == p
    {
      deleted := ptr;
      ptr := p;
    }

    /** operator =(TUniquePtr&&): delete the held object, then steal. When a
        pointer is assigned to itself the held object is deleted and the
        pointer ends up null. */
    method AssignMove(src: UniquePtr<T>) returns (deleted: Option<T>)
      modifies this, src
      ensures deleted == old(ptr)
      ensures src.ptr == None
      ensures ptr == if src == this then None else old(src.ptr)
    {
      deleted := ptr;
      ptr := src.ptr;
      src.ptr := None;
    }

    /** operator =(TUniquePtr&): first steals its own referent into a local
        (`_this`) that is destroyed on return, then steals from `src`. The net
        effect equals AssignMove's, self-assignment included. */
    method AssignCopy(src: UniquePtr<T>) returns (deleted: Option<T>)
      modifies this, src
      ensures deleted == old(ptr)
      ensures src.ptr == None
      ensures ptr == if src == this then None else old(src.ptr)
    {
      var local := new UniquePtr.Steal(this);
      ptr := src.ptr;
      src.ptr := None;
      deleted := local.ptr;
    }

    /** ~TUniquePtr(): deletes the referent if still held. */
    method Destroy() returns (deleted: Option<T>)
      modifies this
      ensures deleted == old(ptr)
      ensures ptr == None
    {
      deleted := ptr;
      ptr := None;
    }
  }
}
