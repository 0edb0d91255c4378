/**
 * The buffered-I/O container the socket layer reads into and writes from,
 * kept abstract: a free region (room to receive into) and a used region
 * (bytes waiting to be sent), described by their sizes only.
 */
module IOBuffers {

  class IOBuffer {
    var freeSize: nat
    var usedSize: nat

    constructor (freeSize: nat, usedSize: nat)
      ensures this.freeSize == freeSize && this.usedSize == usedSize
    {
      this.freeSize := freeSize;
      this.usedSize := usedSize;
    }

    /** `n` bytes were written into the free region: they join the used region. */
    method MarkUsed(n: nat)
      requires n <= freeSize
      modifies this
      ensures freeSize == old(freeSize) - n && usedSize == old(usedSize) + n
    {
      freeSize := freeSize - n;
      usedSize := usedSize + n;
    }

    /** `n` bytes of the used region were consumed. */
    method MarkFree(n: nat)
      requires n <= usedSize
      modifies this
      ensures usedSize == old(usedSize) - n && freeSize == old(freeSize)
    {
      usedSize := usedSize - n;
    }
  }
}
