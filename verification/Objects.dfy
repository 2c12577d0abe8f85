/** What every container of the library stores: pointers to objects, compared by an ordering. */
module Objects {

  /** A contained object is known by its address; containers never change what it holds. */
  datatype Object = Object(addr: nat)

  /** A place for a pointer to an object, as in an array of them. */
  datatype Slot = Null | Full(value: Object)

  /** The result of an ordering: negative, zero or positive. */
  type Ordering = (Object, Object) -> int

  /** `cmp` is a total preorder: antisymmetric up to sign, and transitive. */
  ghost predicate IsOrdering(cmp: Ordering) {
    && (forall a, b :: cmp(a, b) <= 0 <==> cmp(b, a) >= 0)
    && (forall a, b, c :: cmp(a, b) <= 0 && cmp(b, c) <= 0 ==> cmp(a, c) <= 0)
  }
}
