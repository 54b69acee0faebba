/** The NOR flash emulator over a byte backend, and the read-modify-write storage view
    that wraps it together with one erase-unit-sized scratch buffer. */
module Synchronous {
  import opened BufferBackend
  import opened BackendVec

  /** The `u32` addresses of the flash interface. */
  type u32 = x: nat | x < 0x1_0000_0000

  /** An erase size. It is used as a divisor, so it must be positive. */
  type BlockSize = n: nat | n > 0 witness 1

  /** What `read(address, buf)` yields on a device holding `mem`, for a buffer of `len`
      bytes: the bytes `[address, address + len)` when they lie in the device. No
      alignment is asked of a read. */
  function ReadSpec(mem: seq<bv8>, address: u32, len: nat): (r: Result<seq<bv8>>)
    ensures r.Err? <==> address + len > |mem|
    ensures r.Err? ==> r.error == OutOfBounds
    ensures r.Ok? ==> |r.value| == len
    ensures r.Ok? ==> forall i :: 0 <= i < len ==> r.value[i] == mem[address + i]
  {
    if address + len > |mem| then Err(OutOfBounds)
    else Ok(mem[address..address + len])
  }

  /** The device contents after `write(offset, data)` on a device holding `mem`. Only the
      bounds are checked: the target need not have been erased. */
  function WriteSpec(mem: seq<bv8>, offset: u32, data: seq<bv8>): (r: Result<seq<bv8>>)
    ensures r.Err? <==> offset + |data| > |mem|
    ensures r.Err? ==> r.error == OutOfBounds
    ensures r.Ok? ==> |r.value| == |mem|
    ensures r.Ok? ==> forall i :: offset <= i < offset + |data| ==> r.value[i] == data[i - offset]
    ensures r.Ok? ==> forall i :: 0 <= i < |mem| && !(offset <= i < offset + |data|) ==> r.value[i] == mem[i]
  {
    if offset + |data| > |mem| then Err(OutOfBounds)
    else Ok(Spliced(mem, offset, data))
  }

  /** The device contents after `erase(from, to)` on a device holding `mem`. Alignment of
      both ends is checked before the bounds, so a misaligned range is `NotAligned` even
      when it is also out of bounds; an empty aligned range is a no-op. */
  function EraseSpec(mem: seq<bv8>, eraseSize: BlockSize, from: u32, to: u32): (r: Result<seq<bv8>>)
    ensures from % eraseSize != 0 || to % eraseSize != 0 ==> r == Err(NotAligned)
    ensures from % eraseSize == 0 && to % eraseSize == 0 && (to < from || to > |mem|) ==> r == Err(OutOfBounds)
    ensures r.Ok? <==> from % eraseSize == 0 && to % eraseSize == 0 && from <= to <= |mem|
    ensures r.Ok? ==> |r.value| == |mem|
    ensures r.Ok? ==> forall i :: from <= i < to ==> r.value[i] == ERASED
    ensures r.Ok? ==> forall i :: 0 <= i < |mem| && !(from <= i < to) ==> r.value[i] == mem[i]
  {
    if from % eraseSize != 0 then Err(NotAligned)
    else if to % eraseSize != 0 then Err(NotAligned)
    else if to < from then Err(OutOfBounds)
    else if to > |mem| then Err(OutOfBounds)
    else if from == to then Ok(mem)
    else Ok(Filled(mem, from, to, ERASED))
  }

  /** A NOR flash device emulated on an in-memory byte backend. The three block sizes are
      constants of the device; its only state is the backend's bytes. */
  class NorMemory {
    const readSize: nat
    const writeSize: nat
    const eraseSize: BlockSize
    const buffer: VecBackend

    /** `NorMemoryInram::new(size)`: a device of `size` bytes, all zero. */
    constructor InRam(readSize: nat, writeSize: nat, eraseSize: BlockSize, size: nat)
      ensures this.readSize == readSize && this.writeSize == writeSize && this.eraseSize == eraseSize
      ensures fresh(buffer) && fresh(buffer.bytes)
      ensures Contents() == Repeat(0, size)
    {
      this.readSize := readSize;
      this.writeSize := writeSize;
      this.eraseSize := eraseSize;
      buffer := new VecBackend.Zeroed(size);
    }

    /** The device's bytes, address `i` at index `i`. */
    function Contents(): seq<bv8>
      reads buffer.bytes
    {
      buffer.Contents()
    }

    /** `capacity()`: the number of addressable bytes, which is the backend's size. */
    function Capacity(): (n: nat)
      reads buffer.bytes
      ensures n == |Contents()| == buffer.bytes.Length
    {
      buffer.Size()
    }

    /** `read(address, buf)`: copies `[address, address + buf.Length)` into `buf`, or
        fails with `OutOfBounds` leaving `buf` as it was. The device never changes. The
        caller's buffer cannot be the device's own storage. */
    method Read(address: u32, buf: array<bv8>) returns (r: Outcome)
      requires buf != buffer.bytes
      modifies buf
      ensures Contents() == old(Contents())
      ensures r == ReadSpec(Contents(), address, buf.Length).Status()
      ensures r.Ok? ==> buf[..] == ReadSpec(Contents(), address, buf.Length).value
      ensures r.Err? ==> buf[..] == old(buf[..])
    {
      if address + buf.Length > Capacity() {
        return Err(OutOfBounds);
      }
      var start := address;
      var end := start + buf.Length;
      match buffer.WithData(start, end)
      case Err(e) =>
        return Err(e);
      case Ok(data) =>
        // the callback copies the slice into the caller's buffer
        forall i | 0 <= i < buf.Length {
          buf[i] := data[i];
        }
        return Ok(());
    }

    /** `erase(from, to)`: the outcome and the new contents are those `EraseSpec` gives
        for the old contents; on failure no byte changes. */
    method Erase(from: u32, to: u32) returns (r: Outcome)
      modifies buffer.bytes
      ensures r == EraseSpec(old(Contents()), eraseSize, from, to).Status()
      ensures Contents() == EraseSpec(old(Contents()), eraseSize, from, to).GetOr(old(Contents()))
    {
      if from % eraseSize != 0 {
        return Err(NotAligned);
      }
      if to % eraseSize != 0 {
        return Err(NotAligned);
      }
      if to < from {
        return Err(OutOfBounds);
      }
      if to > Capacity() {
        return Err(OutOfBounds);
      }
      if from == to {
        return Ok(());
      }
      r := buffer.WithDataMutFill(from, to);
    }

    /** `write(offset, data)`: the outcome and the new contents are those `WriteSpec`
        gives for the old contents; on failure no byte changes. */
    method Write(offset: u32, data: seq<bv8>) returns (r: Outcome)
      modifies buffer.bytes
      ensures r == WriteSpec(old(Contents()), offset, data).Status()
      ensures Contents() == WriteSpec(old(Contents()), offset, data).GetOr(old(Contents()))
    {
      var cap := Capacity();
      if offset + |data| > cap {
        return Err(OutOfBounds);
      }
      r := buffer.WithDataMutCopyIn(offset, offset + |data|, data);
    }

    /** `storage()`: wraps this device, unchanged, with a fresh zeroed scratch buffer of
        one erase unit. */
    method Storage() returns (s: NorStorage)
      ensures fresh(s) && fresh(s.mergeBuffer)
      ensures s.wrapper == this
      ensures s.mergeBuffer[..] == Repeat(0, eraseSize)
    {
      s := new NorStorage(this);
    }
  }

  /** The read-modify-write storage view: a device and a scratch buffer of one erase unit
      for the merge of partially overwritten erase units. */
  class NorStorage {
    const wrapper: NorMemory
    const mergeBuffer: array<bv8>

    constructor (wrapper: NorMemory)
      ensures this.wrapper == wrapper
      ensures fresh(mergeBuffer) && mergeBuffer[..] == Repeat(0, wrapper.eraseSize)
    {
      this.wrapper := wrapper;
      mergeBuffer := new bv8[wrapper.eraseSize](_ => 0);
    }

    /** `capacity()`: the wrapped device's number of addressable bytes. */
    function Capacity(): (n: nat)
      reads wrapper.buffer.bytes
      ensures n == |wrapper.Contents()|
    {
      wrapper.Capacity()
    }

    /** `nor_flash()`: gives back the wrapped device, dropping the scratch buffer. */
    function NorFlash(): (m: NorMemory)
      ensures m == wrapper
    {
      wrapper
    }
  }

  /** Converting a device to its storage view and back yields the same device with the
      same bytes and the same erase size, and the storage view reports its capacity. */
  method StorageRoundTrip(mem: NorMemory) returns (back: NorMemory, capacity: nat)
    ensures back == mem
    ensures back.Contents() == old(mem.Contents())
    ensures capacity == mem.Capacity()
  {
    var s := mem.Storage();
    capacity := s.Capacity();
    back := s.NorFlash();
  }
}
