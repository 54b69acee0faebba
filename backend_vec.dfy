/** The in-memory byte backend: a byte vector whose length is fixed when it is allocated. */
module BackendVec {
  import opened BufferBackend

  class VecBackend {
    /** The vector's bytes. The vector is never resized, so its storage never changes. */
    const bytes: array<bv8>

    /** `vec![0; size]`: `size` zero bytes. */
    constructor Zeroed(size: nat)
      ensures fresh(bytes)
      ensures bytes[..] == Repeat(0, size)
    {
      bytes := new bv8[size](_ => 0);
    }

    /** The bytes of the vector as a value. */
    function Contents(): seq<bv8>
      reads bytes
    {
      bytes[..]
    }

    /** `len()` of the vector. */
    function Size(): (n: nat)
      reads bytes
      ensures n == |Contents()|
    {
      bytes.Length
    }

    /** `with_data(from, to, f)` with the callback that takes a copy of the slice: fails
        with `OutOfBounds` when the range does not lie in the vector, and otherwise hands
        over exactly the bytes `[from, to)`. */
    function WithData(from: nat, to: nat): (r: Result<seq<bv8>>)
      reads bytes
      ensures r.Status() == CheckRange(from, to, Size())
      ensures r.Ok? ==> |r.value| == to - from
      ensures r.Ok? ==> forall i :: 0 <= i < to - from ==> r.value[i] == bytes[from + i]
    {
      if to > bytes.Length then Err(OutOfBounds)
      else if from > to then Err(OutOfBounds)
      else Ok(bytes[from..to])
    }

    /** `with_data_mut(from, to, f)` with the callback of `write`, which copies `src` into
        the mutable slice. On a failed range check the callback is not run and no byte
        changes; otherwise exactly `[from, to)` becomes `src`. The callback's
        `copy_from_slice` demands that the slice and `src` have the same length. */
    method WithDataMutCopyIn(from: nat, to: nat, src: seq<bv8>) returns (r: Outcome)
      requires from <= to <= bytes.Length ==> |src| == to - from
      modifies bytes
      ensures r == CheckRange(from, to, bytes.Length)
      ensures r.Ok? ==> bytes[..] == Spliced(old(bytes[..]), from, src)
      ensures r.Err? ==> bytes[..] == old(bytes[..])
    {
      if to > bytes.Length {
        return Err(OutOfBounds);
      }
      if from > to {
        return Err(OutOfBounds);
      }
      forall i | from <= i < to {
        bytes[i] := src[i - from];
      }
      return Ok(());
    }

    /** `with_data_mut(from, to, f)` with the callback of `erase`, which checks that the
        slice it was given spans exactly `[from, to)` and then sets each of its bytes to
        0xFF. On a failed range check the callback is not run and no byte changes. The
        callback's own length check never fails, because the slice this backend hands out
        is exactly `to - from` bytes long. */
    method WithDataMutFill(from: nat, to: nat) returns (r: Outcome)
      modifies bytes
      ensures r == CheckRange(from, to, bytes.Length)
      ensures r.Ok? ==> bytes[..] == Filled(old(bytes[..]), from, to, ERASED)
      ensures r.Err? ==> bytes[..] == old(bytes[..])
    {
      if to > bytes.Length {
        return Err(OutOfBounds);
      }
      if from > to {
        return Err(OutOfBounds);
      }
      // the callback is handed the slice bytes[from..to] and takes its length
      var len := |bytes[from..to]|;
      if from + len != to {
        assert false;
        return Err(OutOfBounds);
      }
      var i := 0;
      while i < len
        invariant 0 <= i <= len
        invariant forall k :: 0 <= k < bytes.Length ==>
                    bytes[k] == if from <= k < from + i then ERASED else old(bytes[k])
      {
        bytes[from + i] := ERASED;
        i := i + 1;
      }
      return Ok(());
    }
  }
}
