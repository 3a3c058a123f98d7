/**
 The slice of the Java runtime the model needs: 32-bit `int`, nullable
 references, the two exceptions the modelled code can raise, and object
 allocation (`new`) as a counter-based heap.
 */
module Lang {

  /** Java's `int`. Values are only stored and passed on, never combined. */
  newtype int32 = x: int | -0x8000_0000 <= x < 0x8000_0000

  /** A nullable reference: `None` is Java's `null`. */
  datatype Option<+T> = None | Some(value: T)

  /** The unchecked exceptions the modelled code can throw. */
  datatype Throwable = NullPointerException | ClassCastException

  /** How a `void` call ended: normally, or by throwing. */
  datatype Outcome = Completed | Threw(exception: Throwable)

  /** How a value-returning call ended. */
  datatype Result<+T> = Ok(value: T) | Err(exception: Throwable)

  /** The allocator behind `new`: every reference below `next` is taken. */
  datatype Heap = Heap(next: nat) {

    predicate Allocated(ref: nat) {
      ref < next
    }

    /** `new`: a reference no earlier allocation returned, now taken. */
    function Alloc(): (r: (Heap, nat))
      ensures !Allocated(r.1) && r.0.Allocated(r.1)
      ensures forall ref :: Allocated(ref) ==> r.0.Allocated(ref)
    {
      (Heap(next + 1), next)
    }
  }
}
