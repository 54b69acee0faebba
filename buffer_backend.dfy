/** The error kinds the emulator reports, the result type of its operations, and the
    contract every byte backend follows: bounds-checked access to a `[from, to)` range
    of a fixed-size byte region. */
module BufferBackend {

  /** The variants of the flash error-kind enumeration that this crate produces. */
  datatype NorError = NotAligned | OutOfBounds

  /** `Result<T, NorError>`; operations that return `()` use `Outcome`. */
  datatype Result<T> = Ok(value: T) | Err(error: NorError) {

    /** Forgets the value, keeping only success or the error kind. */
    function Status(): Outcome
    {
      match this
      case Ok(_) => Ok(())
      case Err(e) => Err(e)
    }

    /** The value on success, `default` on failure. */
    function GetOr(default: T): T
    {
      match this
      case Ok(v) => v
      case Err(_) => default
    }
  }

  type Outcome = Result<()>

  /** The byte every cell of a NOR flash holds once erased. */
  const ERASED: bv8 := 0xFF

  /** `n` copies of `b`, as `vec![b; n]` allocates them. */
  function Repeat(b: bv8, n: nat): seq<bv8>
  {
    seq(n, _ => b)
  }

  /** The range check a backend performs before it hands out `[from, to)` of a region of
      `size` bytes: first `to` against the size, then `from` against `to`. Both failures
      are `OutOfBounds`, and no byte is accessed on either. */
  function CheckRange(from: nat, to: nat, size: nat): (r: Outcome)
    ensures r.Ok? <==> from <= to <= size
    ensures r.Err? ==> r.error == OutOfBounds
  {
    if to > size then Err(OutOfBounds)
    else if from > to then Err(OutOfBounds)
    else Ok(())
  }

  /** `s` with the bytes from `at` on replaced by `src`: what `copy_from_slice` into the
      sub-slice `[at, at + |src|)` leaves behind. */
  function Spliced(s: seq<bv8>, at: nat, src: seq<bv8>): (r: seq<bv8>)
    requires at + |src| <= |s|
    ensures |r| == |s|
    ensures forall i :: 0 <= i < |r| ==> r[i] == if at <= i < at + |src| then src[i - at] else s[i]
  {
    s[..at] + src + s[at + |src|..]
  }

  /** `s` with every byte of `[from, to)` set to `b`. */
  function Filled(s: seq<bv8>, from: nat, to: nat, b: bv8): (r: seq<bv8>)
    requires from <= to <= |s|
    ensures |r| == |s|
    ensures forall i :: 0 <= i < |r| ==> r[i] == if from <= i < to then b else s[i]
  {
    Spliced(s, from, Repeat(b, to - from))
  }
}
