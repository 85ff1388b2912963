/** The semaphore eventfd that makes the queue pollable. */
module EventFd {
  import opened QueueSpec

  class LinxEventFd {
    const efd: int      // descriptor, negative when the kernel refused to create one
    var count: nat      // the kernel's semaphore counter

    constructor (efd: int)
      ensures this.efd == efd && count == 0
    {
      this.efd := efd;
      this.count := 0;
    }

    // poll() reports the descriptor readable exactly when this holds.
    predicate Readable()
      reads this
    {
      0 <= efd && 0 < count
    }

    // write(2) of the value 1 on a non-blocking eventfd.
    method KernelWrite() returns (s: int)
      requires 0 <= efd
      modifies this`count
      ensures s == if old(count) < EFD_MAX then 8 else -1
      ensures count == if old(count) < EFD_MAX then old(count) + 1 else old(count)
    {
      if count < EFD_MAX {
        count, s := count + 1, 8;
      } else {
        s := -1;
      }
    }

    // read(2) on a non-blocking semaphore eventfd.
    method KernelRead() returns (s: int)
      requires 0 <= efd
      modifies this`count
      ensures s == if 0 < old(count) then 8 else -1
      ensures count == if 0 < old(count) then old(count) - 1 else 0
    {
      if 0 < count {
        count, s := count - 1, 8;
      } else {
        s := -1;
      }
    }

    method WriteEvent() returns (result: int)
      modifies this`count
      ensures count == CountWritten(0 <= efd, old(count))
      ensures result == 0 <==> count == old(count) + 1
      ensures result == -1 <==> efd < 0
      ensures result == -2 <==> 0 <= efd && EFD_MAX <= old(count)
    {
      if efd < 0 {
        return -1;
      }
      var s := KernelWrite();
      if s != 8 {
        return -2;
      }
      return 0;
    }

    method ReadEvent() returns (result: int)
      modifies this`count
      ensures count == CountRead(0 <= efd, old(count))
      ensures result == 0 <==> count == old(count) - 1
      ensures result == -1 <==> efd < 0
      ensures result == -2 <==> 0 <= efd && old(count) == 0
    {
      if efd < 0 {
        return -1;
      }
      var s := KernelRead();
      if s != 8 {
        return -2;
      }
      return 0;
    }

    /** Reads until the kernel has nothing left to give: an open counter ends at zero. */
    method ClearEvents()
      modifies this`count
      ensures count == if 0 <= efd then 0 else old(count)
    {
      if efd < 0 {
        return;
      }
      var s := KernelRead();
      while s == 8
        invariant s != 8 ==> count == 0
        decreases count, s
      {
        s := KernelRead();
      }
    }
  }
}
