/** The pointer wrappers of intruder-alarm/src/lib.rs: `Link`, an optional
    non-null pointer, and `UnsafeRef`, an owning reference backed by a
    non-null pointer. A pointer is an address, with 0 the null pointer;
    dereferencing reads a map from address to referent. */
module Links {
  import opened Results

  /** A raw pointer: an address, 0 being null. */
  type Ptr = nat

  const NULL: Ptr := 0

  /** A pointer that is never null (`NonNull`). */
  type NonNull = p: Ptr | p != NULL witness 1

  /** What `UnsafeRef::from_ptr` panics with on a null pointer. */
  const NullRefMessage := "attempted to create OwningRef from null pointer!"

  /** `Link<T>`: `Some` non-null pointer, or no pointer at all. The derived
      `PartialEq` compares the pointers, which is Dafny's `==` here. */
  datatype Link = Link(target: Option<NonNull>)
  {
    /** `Link::none`: the empty link, which resolves to nothing in any
        memory. */
    static function Empty(): (l: Link)
      ensures !l.IsLinked()
      ensures forall mem: map<Ptr, int> :: l.AsRef(mem) == None
    {
      Link(None)
    }

    /** Whether the link holds a pointer. */
    predicate IsLinked()
    {
      target.Some?
    }

    /** `Link::as_ref`: the referent of a non-empty link, nothing for the
        empty one. */
    function AsRef<T>(mem: map<Ptr, T>): (r: Option<T>)
      requires IsLinked() ==> target.value in mem
      ensures r.Some? <==> IsLinked()
      ensures r.Some? ==> r.value == mem[target.value]
    {
      match target
      case None => None
      case Some(p) => Some(mem[p])
    }

    /** `Link::from_owning_ref`: a link to the pointer an owning reference
        converts into, empty exactly when that pointer is null. */
    static function FromOwningRef(p: Ptr): (l: Link)
      ensures !l.IsLinked() <==> p == NULL
      ensures l.IsLinked() ==> l.target.value == p
    {
      if p == NULL then Link(None) else Link(Some(p))
    }

    /** `Clone for Link`: a fresh, unlinked link, whatever the original
        pointed to, so that types holding links can derive `Clone`. */
    function Clone(): (l: Link)
      ensures !l.IsLinked()
      ensures l == Empty()
    {
      Link(None)
    }

    /** `Default for Link`: the empty link. */
    static function Default(): (l: Link)
      ensures !l.IsLinked()
    {
      Link(None)
    }
  }

  /** `Link::none()` and `Link::default()` are the same link. */
  lemma DefaultIsEmpty()
    ensures Link.Default() == Link.Empty()
  {
  }

  /** `UnsafeRef<T>`: an owning reference that is just a non-null pointer. */
  datatype UnsafeRef = UnsafeRef(ptr: NonNull)
  {
    /** `OwningRef::into_ptr`: the pointer, never null. */
    function IntoPtr(): (p: Ptr)
      ensures p != NULL
      ensures FromPtr(p) == Success(this)
    {
      ptr
    }

    /** `Clone for UnsafeRef`: another reference to the same referent. */
    function Clone(): (r: UnsafeRef)
      ensures r.IntoPtr() == IntoPtr()
      ensures forall mem: map<Ptr, int> | ptr in mem :: r.Eq(this, mem)
    {
      UnsafeRef(ptr)
    }

    /** `PartialEq for UnsafeRef`: compares the referents the two pointers
        lead to, not the pointers. */
    predicate Eq<T(==)>(other: UnsafeRef, mem: map<Ptr, T>)
      requires ptr in mem && other.ptr in mem
    {
      mem[ptr] == mem[other.ptr]
    }
  }

  /** `OwningRef::from_ptr` for `UnsafeRef`: panics on a null pointer, and
      otherwise wraps it, so that `into_ptr` gives the same pointer back. */
  function FromPtr(p: Ptr): (r: Result<UnsafeRef, string>)
    ensures r.Failure? <==> p == NULL
    ensures r.Failure? ==> r.error == NullRefMessage
    ensures r.Success? ==> r.value.ptr == p
  {
    if p == NULL then Failure(NullRefMessage) else Success(UnsafeRef(p))
  }

  /** `into_ptr(from_ptr(p)) == p` for every non-null `p`. */
  lemma FromPtrIntoPtr(p: Ptr)
    requires p != NULL
    ensures FromPtr(p).Success? && FromPtr(p).value.IntoPtr() == p
  {
  }

  /** Equality of `UnsafeRef`s is an equivalence on the references into a
      memory: reflexive, symmetric and transitive. */
  lemma EqIsEquivalence<T>(a: UnsafeRef, b: UnsafeRef, c: UnsafeRef, mem: map<Ptr, T>)
    requires a.ptr in mem && b.ptr in mem && c.ptr in mem
    ensures a.Eq(a, mem)
    ensures a.Eq(b, mem) ==> b.Eq(a, mem)
    ensures a.Eq(b, mem) && b.Eq(c, mem) ==> a.Eq(c, mem)
  {
  }

  /** Equality of `UnsafeRef`s looks only at the referents: two references
      to distinct places holding equal values are equal though they are
      different references, and relocating both referents (any addresses,
      any memory, same values) does not change the answer. */
  lemma EqIgnoresAddresses<T>(a: UnsafeRef, b: UnsafeRef, mem: map<Ptr, T>,
                              a': UnsafeRef, b': UnsafeRef, mem': map<Ptr, T>)
    requires a.ptr in mem && b.ptr in mem && a'.ptr in mem' && b'.ptr in mem'
    requires mem[a.ptr] == mem'[a'.ptr] && mem[b.ptr] == mem'[b'.ptr]
    ensures a.Eq(b, mem) == a'.Eq(b', mem')
    ensures a.ptr != b.ptr && mem[a.ptr] == mem[b.ptr] ==> a.Eq(b, mem) && a != b
  {
  }
}
