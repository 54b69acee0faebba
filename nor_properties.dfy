/** Properties of the emulated flash that relate several operations: what a read sees
    after a write or an erase, how erases compose, and that no sequence of operations
    changes the size of the device. */
module NorProperties {
  import opened BufferBackend
  import opened Synchronous

  /** A successful write is read back verbatim, whatever the bytes it overwrote were:
      the emulator does not restrict a write to erased cells. */
  lemma ReadAfterWrite(mem: seq<bv8>, offset: u32, data: seq<bv8>)
    requires WriteSpec(mem, offset, data).Ok?
    ensures ReadSpec(WriteSpec(mem, offset, data).value, offset, |data|) == Ok(data)
  {
  }

  /** A write leaves every range that it does not overlap as it was. */
  lemma ReadDisjointFromWrite(mem: seq<bv8>, offset: u32, data: seq<bv8>, address: u32, len: nat)
    requires WriteSpec(mem, offset, data).Ok?
    requires address + len <= offset || offset + |data| <= address
    ensures ReadSpec(WriteSpec(mem, offset, data).value, address, len) == ReadSpec(mem, address, len)
  {
    var after := WriteSpec(mem, offset, data).value;
    var before, read := ReadSpec(mem, address, len), ReadSpec(after, address, len);
    if read.Ok? {
      assert forall i :: 0 <= i < len ==> read.value[i] == after[address + i] == mem[address + i] == before.value[i];
      assert read.value == before.value;
    }
  }

  /** After a successful erase every read inside the erased range sees 0xFF bytes only. */
  lemma ReadAfterErase(mem: seq<bv8>, eraseSize: BlockSize, from: u32, to: u32, address: u32, len: nat)
    requires EraseSpec(mem, eraseSize, from, to).Ok?
    requires from <= address && address + len <= to
    ensures ReadSpec(EraseSpec(mem, eraseSize, from, to).value, address, len) == Ok(Repeat(ERASED, len))
  {
    var after := EraseSpec(mem, eraseSize, from, to).value;
    var read := ReadSpec(after, address, len);
    assert read.Ok?;
    assert forall i :: 0 <= i < len ==> read.value[i] == after[address + i] == ERASED;
    assert read.value == Repeat(ERASED, len);
  }

  /** Erasing a range that was just erased changes nothing. */
  lemma EraseIdempotent(mem: seq<bv8>, eraseSize: BlockSize, from: u32, to: u32)
    requires EraseSpec(mem, eraseSize, from, to).Ok?
    ensures var once := EraseSpec(mem, eraseSize, from, to).value;
            EraseSpec(once, eraseSize, from, to) == Ok(once)
  {
    var once := EraseSpec(mem, eraseSize, from, to).value;
    var twice := EraseSpec(once, eraseSize, from, to);
    assert twice.Ok?;
    assert forall i :: 0 <= i < |once| ==> twice.value[i] == once[i];
    assert twice.value == once;
  }

  /** Erasing `[from, mid)` and then `[mid, to)` is the same as erasing `[from, to)`. */
  lemma EraseSplit(mem: seq<bv8>, eraseSize: BlockSize, from: u32, mid: u32, to: u32)
    requires from <= mid <= to
    requires mid % eraseSize == 0
    requires EraseSpec(mem, eraseSize, from, to).Ok?
    ensures EraseSpec(mem, eraseSize, from, mid).Ok?
    ensures EraseSpec(EraseSpec(mem, eraseSize, from, mid).value, eraseSize, mid, to)
            == EraseSpec(mem, eraseSize, from, to)
  {
    var firstResult := EraseSpec(mem, eraseSize, from, mid);
    assert firstResult.Ok?;
    var first := firstResult.value;
    var second := EraseSpec(first, eraseSize, mid, to);
    var whole := EraseSpec(mem, eraseSize, from, to).value;
    assert second.Ok?;
    forall i | 0 <= i < |mem|
      ensures second.value[i] == whole[i]
    {
      if i < from || to <= i {
        assert second.value[i] == first[i] == mem[i];
      } else if i < mid {
        assert second.value[i] == first[i] == ERASED;
      }
    }
    assert second.value == whole;
  }

  /** A device that was just created reads as zero bytes wherever a read succeeds. */
  lemma FreshDeviceReadsZero(size: nat, address: u32, len: nat)
    requires address + len <= size
    ensures ReadSpec(Repeat(0, size), address, len) == Ok(Repeat(0, len))
  {
    var read := ReadSpec(Repeat(0, size), address, len);
    assert forall i :: 0 <= i < len ==> read.value[i] == 0;
    assert read.value == Repeat(0, len);
  }

  /** A call on the device, with the arguments it takes; a read carries the length of
      the caller's buffer. */
  datatype Op =
    | ReadOp(address: u32, len: nat)
    | WriteOp(offset: u32, data: seq<bv8>)
    | EraseOp(from: u32, to: u32)

  /** The device contents after one call. */
  function Apply(mem: seq<bv8>, eraseSize: BlockSize, op: Op): seq<bv8>
  {
    match op
    case ReadOp(_, _) => mem
    case WriteOp(offset, data) => WriteSpec(mem, offset, data).GetOr(mem)
    case EraseOp(from, to) => EraseSpec(mem, eraseSize, from, to).GetOr(mem)
  }

  /** The device contents after a sequence of calls, made in order. */
  function Run(mem: seq<bv8>, eraseSize: BlockSize, ops: seq<Op>): seq<bv8>
    decreases |ops|
  {
    if ops == [] then mem else Run(Apply(mem, eraseSize, ops[0]), eraseSize, ops[1..])
  }

  /** No sequence of calls changes the size of the device. */
  lemma {:induction false} RunPreservesCapacity(mem: seq<bv8>, eraseSize: BlockSize, ops: seq<Op>)
    ensures |Run(mem, eraseSize, ops)| == |mem|
    decreases |ops|
  {
    if ops != [] {
      RunPreservesCapacity(Apply(mem, eraseSize, ops[0]), eraseSize, ops[1..]);
    }
  }
}
