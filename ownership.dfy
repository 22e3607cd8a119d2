/** The ownership policy of a `MultiArray`'s buffer and the release that destroying the array performs. */
module Ownership {

  /** `Data.Deallocator`: who releases the buffer. A custom closure is identified by a token. */
  datatype Deallocator = Free | Unmap | None | Custom(closure: nat) | VirtualMemory

  /** A release action performed on the buffer's storage. */
  datatype Release =
    | Deallocate(storage: object)                                // `buffer.deallocate()`
    | Munmap(storage: object, byteCount: int)                    // `munmap(baseAddress, byteCount)`
    | CallCustom(closure: nat, storage: object, byteCount: int)  // `deallocator(baseAddress, byteCount)`

  /** What destroying an array amounted to: the releases it performed, or a fatal error. */
  datatype Teardown = Completed(releases: seq<Release>) | FatalError(message: string)

  /** Ownership may be handed to the caller only when the array holds it directly. */
  predicate CanMove(d: Deallocator)
  {
    d.Free? || d.None?
  }

  /** The release `r` is the one policy `d` calls for on a buffer of `byteCount` bytes. */
  predicate ReleasedBy(d: Deallocator, r: Release, byteCount: int)
  {
    match r
    case Deallocate(_) => d.Free?
    case Munmap(_, n) => d.Unmap? && n == byteCount
    case CallCustom(c, _, n) => d == Custom(c) && n == byteCount
  }

  /** The `switch` of `deinit`: exactly one release for every policy but `.none`, which releases
      nothing, and `.virtualMemory`, which is not implemented and stops the program. */
  function ReleaseOnDeinit(d: Deallocator, storage: object, byteCount: int): (t: Teardown)
    ensures t.FatalError? <==> d.VirtualMemory?
    ensures t.Completed? ==> |t.releases| == (if d.None? then 0 else 1)
    ensures t.Completed? ==> forall r :: r in t.releases ==> r.storage == storage && ReleasedBy(d, r, byteCount)
  {
    match d
    case Free => Completed([Deallocate(storage)])
    case Unmap => Completed([Munmap(storage, byteCount)])
    case None => Completed([])
    case Custom(c) => Completed([CallCustom(c, storage, byteCount)])
    case VirtualMemory => FatalError("Not Implemented")
  }
}
