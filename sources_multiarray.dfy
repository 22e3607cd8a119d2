/** The `MultiArray` class of the package tree: buffer, shape and strides are fixed at
    construction; only the release policy is a variable. */
module SourcesMultiArray {
  import opened Shape
  import opened Ownership

  class MultiArray<T> {
    /** The element storage, always contiguous row-major. */
    const buffer: array<T>
    /** The only mutable state: who releases `buffer`. */
    var deallocator: Deallocator
    const shape: seq<int>
    const strides: seq<int>
    /** `MemoryLayout<Element>.stride`, in bytes. */
    const elementStride: nat

    ghost var destroyed: bool
    /** What `deinit` did to `buffer`; nothing until it runs. */
    ghost var teardown: Teardown

    ghost predicate Valid()
      reads this
    {
      && ValidShape(shape)
      && buffer.Length == Product(shape)
      && strides == RowMajorStrides(shape)
      && (!destroyed ==> teardown == Completed([]))
    }

    /** `init(bytesNoCopy:shape:deallocator:)`: adopts `buffer` without copying; the two
        assertions become the precondition. */
    constructor (buffer: array<T>, shape: seq<int>, deallocator: Deallocator, elementStride: nat)
      requires ValidShape(shape)
      requires buffer.Length == Product(shape)
      ensures Valid() && !destroyed
      ensures this.buffer == buffer && this.shape == shape && this.strides == RowMajorStrides(shape)
      ensures this.deallocator == deallocator && this.elementStride == elementStride
    {
      this.buffer := buffer;
      this.deallocator := deallocator;
      this.shape := shape;
      this.strides := RowMajorStrides(shape);
      this.elementStride := elementStride;
      destroyed := false;
      teardown := Completed([]);
    }

    /** `count`: the element count is the product of the shape. */
    function Count(): (n: int)
      requires Valid()
      reads this
      ensures n == Product(shape) && n >= 0
    {
      ProductNonNegative(shape);
      buffer.Length
    }

    /** The subscript getter: reads through the stored strides, which lands on the row-major
        element at the multi-index. */
    function Get(index: seq<int>): (v: T)
      requires Valid() && ValidIndex(index, shape)
      reads this, buffer
      ensures v == ElementAt(buffer[..], shape, index)
    {
      OffsetInBounds(index, shape);
      buffer[Offset(index, strides)]
    }

    /** `initializeElement(at:to:)`: writes one element through the strides. */
    method InitializeElement(index: seq<int>, value: T)
      requires Valid() && ValidIndex(index, shape)
      modifies buffer
      ensures buffer[..] == WriteElement(old(buffer[..]), shape, index, value)
    {
      OffsetInBounds(index, shape);
      var offset := Offset(index, strides);
      buffer[offset] := value;
    }

    /** `deinit`: performs the release the policy selects. */
    method Deinit()
      requires Valid() && !destroyed
      modifies this`destroyed, this`teardown
      ensures Valid() && destroyed
      ensures teardown == ReleaseOnDeinit(deallocator, buffer, buffer.Length * elementStride)
    {
      destroyed := true;
      teardown := ReleaseOnDeinit(deallocator, buffer, buffer.Length * elementStride);
    }
  }

  /** `allocate(_:)`: a fresh buffer of `product(shape)` elements, owned with `.free`. */
  method Allocate<T(0)>(shape: seq<int>, elementStride: nat) returns (a: MultiArray<T>)
    requires ValidShape(shape)
    ensures fresh(a) && fresh(a.buffer) && a.Valid() && !a.destroyed
    ensures a.shape == shape && a.deallocator == Free && a.elementStride == elementStride
  {
    ProductNonNegative(shape);
    var storage := new T[Product(shape)];
    a := new MultiArray(storage, shape, Free, elementStride);
  }
}
