/** The `MultiArray` class of the Foundation tree: the strides live in a buffer the array owns,
    and ownership of the element buffer can be handed to the caller with `moved()`. */
module FoundationMultiArray {
  import opened Shape
  import opened Ownership

  class MultiArray<T> {
    /** The element storage, always contiguous row-major. */
    const buffer: array<T>
    /** The only mutable state: who releases `buffer`. */
    var deallocator: Deallocator
    const shape: seq<int>
    /** A buffer of its own, released by `deinit`. */
    const strides: array<int>
    /** `MemoryLayout<Element>.stride`, in bytes. */
    const elementStride: nat

    ghost var stridesReleased: bool
    ghost var destroyed: bool
    /** What `deinit` did to `buffer`; nothing until it runs. */
    ghost var teardown: Teardown

    ghost predicate Valid()
      reads this, strides
    {
      && ValidShape(shape)
      && |shape| >= 1
      && buffer.Length == Product(shape)
      && strides[..] == RowMajorStrides(shape)
      && (destroyed <==> stridesReleased)
      && (!destroyed ==> teardown == Completed([]))
    }

    /** `init(bytesNoCopy:shape:deallocator:)`: adopts `buffer` without copying. The two assertions
        become the precondition; a rank-0 shape makes the stride helper write out of range. */
    constructor (buffer: array<T>, shape: seq<int>, deallocator: Deallocator, elementStride: nat)
      requires ValidShape(shape)
      requires buffer.Length == Product(shape)
      requires |shape| >= 1
      ensures Valid() && fresh(strides) && !destroyed
      ensures this.buffer == buffer && this.shape == shape
      ensures this.deallocator == deallocator && this.elementStride == elementStride
    {
      var s := ContiguousStrides(shape);
      this.buffer := buffer;
      this.deallocator := deallocator;
      this.shape := shape;
      this.strides := s;
      this.elementStride := elementStride;
      stridesReleased := false;
      destroyed := false;
      teardown := Completed([]);
    }

    /** `count`: the element count is the product of the shape. */
    function Count(): (n: int)
      requires Valid()
      reads this, strides
      ensures n == Product(shape) && n >= 0
    {
      ProductNonNegative(shape);
      buffer.Length
    }

    /** `moved()`: gives up ownership of `buffer`. Indirect ownership is a precondition failure. */
    method Moved() returns (b: array<T>)
      requires Valid() && !destroyed
      requires CanMove(deallocator)
      modifies this`deallocator
      ensures Valid() && !destroyed
      ensures b == buffer && deallocator == None
    {
      deallocator := None;
      b := buffer;
    }

    /** `deinit`: frees the strides, then performs the release the policy selects. */
    method Deinit()
      requires Valid() && !destroyed
      modifies this`stridesReleased, this`destroyed, this`teardown
      ensures Valid() && destroyed && stridesReleased
      ensures teardown == ReleaseOnDeinit(deallocator, buffer, buffer.Length * elementStride)
    {
      stridesReleased := true;
      destroyed := true;
      teardown := ReleaseOnDeinit(deallocator, buffer, buffer.Length * elementStride);
    }
  }

  /** A caller that takes ownership twice and then drops the array: both calls hand over the same
      buffer, and destroying the array afterwards releases nothing. */
  method MoveTwiceThenDrop<T>(a: MultiArray<T>) returns (first: array<T>, second: array<T>)
    requires a.Valid() && !a.destroyed && CanMove(a.deallocator)
    modifies a
    ensures first == a.buffer && second == a.buffer
    ensures a.destroyed && a.stridesReleased && a.teardown == Completed([])
  {
    first := a.Moved();
    second := a.Moved();
    a.Deinit();
  }
}
