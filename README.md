# NOR flash emulator over a byte backend

A Dafny model of the emulated NOR flash device in `embedded-storage-file`. The device's
only state is the bytes of a fixed-size backend.

- `read(address, buf)` is only bounds-checked.
- `write(offset, data)` is a bounds-checked overwrite. It does not require the target
  to have been erased.
- `erase(from, to)` checks that both ends are multiples of the erase size. Only then does
  it check the range against the capacity. An empty range is a no-op; any other range
  becomes all `0xFF`.

The in-memory backend is a zero-initialised byte vector. It gives bounds-checked access
to `[from, to)` ranges. The storage view pairs a device with a scratch buffer of one
erase unit, and converts back to the device.

Modules, one per component:

- `BufferBackend` (`buffer_backend.dfy`): the error kinds, the result type, and the
  range check every backend performs. It also holds the byte-sequence functions that
  say what a copy into a slice and a fill of a slice leave behind.
- `BackendVec` (`backend_vec.dfy`): the class `VecBackend` over an `array<bv8>`.
  `with_data` is a pure function that returns the slice. `with_data_mut` is two
  methods, one for each callback the emulator passes to it: the copy-in of `write`
  and the `0xFF` fill of `erase`.
- `Synchronous` (`synchronous.dfy`): the pure functions `ReadSpec`, `WriteSpec` and
  `EraseSpec`, which give the outcome and the new contents of each operation as a
  function of the old contents. It also holds the classes `NorMemory` and `NorStorage`.
  Their methods are proved to agree with those functions.
- `NorProperties` (`nor_properties.dfy`): lemmas that relate several operations.

Addresses are `u32` (a subset type of `nat`) and sums of an address and a length are
unbounded. The three block sizes are constants of the device: the erase size is a positive
natural, the read and write sizes any natural.

## Model

| member | source | states |
|---|---|---|
| `BufferBackend.CheckRange` | src/backend_vec.rs:22-27 | a range is accepted exactly when `from <= to <= size`; every rejection is `OutOfBounds` |
| `BufferBackend.Spliced` | src/synhronous.rs:149 | copying `src` into the slice at `at` replaces exactly `[at, at+len)` by `src`, keeps every other byte and keeps the length |
| `BufferBackend.Filled` | src/synhronous.rs:134-136 | filling `[from, to)` sets exactly those bytes to the fill byte and keeps every other byte and the length |
| `BackendVec.VecBackend.Zeroed` | src/backend_vec.rs:12 | a new vector of `size` bytes, all zero |
| `BackendVec.VecBackend.Size` | src/backend_vec.rs:46-48 | the size is the vector's length |
| `BackendVec.VecBackend.WithData` | src/backend_vec.rs:18-30 | fails exactly when the range check fails; otherwise hands over exactly the `to - from` bytes `[from, to)`; reads only |
| `BackendVec.VecBackend.WithDataMutCopyIn` | src/backend_vec.rs:32-44 | same two range checks in the same order; on failure no byte changes (the callback is not run); on success exactly `[from, to)` becomes `src` |
| `BackendVec.VecBackend.WithDataMutFill` | src/synhronous.rs:127-138 | same range checks; on success exactly `[from, to)` becomes `0xFF`, and the callback's defensive length check is proved never to fire on this backend |
| `Synchronous.ReadSpec` | src/synhronous.rs:85-95 | `OutOfBounds` exactly when `address + len > capacity`; otherwise the `len` bytes starting at `address` |
| `Synchronous.WriteSpec` | src/synhronous.rs:142-152 | `OutOfBounds` exactly when `offset + len > capacity`; otherwise `[offset, offset+len)` equals `data`, whatever it held before, and every other byte and the size are unchanged |
| `Synchronous.EraseSpec` | src/synhronous.rs:110-139 | misaligned `from` or `to` gives `NotAligned` even when also out of bounds; aligned with `to < from` or `to > capacity` gives `OutOfBounds`; success exactly when aligned and `from <= to <= capacity`, with `[from, to)` all `0xFF` (nothing when `from == to`), every other byte and the size unchanged |
| `Synchronous.NorMemory.InRam` | src/backend_vec.rs:10-14 | a device of `size` zero bytes with the given block sizes |
| `Synchronous.NorMemory.Capacity` | src/synhronous.rs:98-100 | the capacity is the backend's size, the number of device bytes |
| `Synchronous.NorMemory.Read` | src/synhronous.rs:85-95 | outcome as `ReadSpec`; on success `buf` holds the read bytes, on failure `buf` is unchanged; the device never changes |
| `Synchronous.NorMemory.Erase` | src/synhronous.rs:110-139 | outcome and new contents as `EraseSpec` of the old contents; on any error no byte changes |
| `Synchronous.NorMemory.Write` | src/synhronous.rs:142-152 | outcome and new contents as `WriteSpec` of the old contents; on error no byte changes |
| `Synchronous.NorMemory.Storage` | src/synhronous.rs:29-34 | the storage view wraps this very device and a fresh zeroed scratch buffer of `ERASE_SIZE` bytes |
| `Synchronous.NorStorage.constructor` | src/synhronous.rs:30-33 | the view holds the given device and a fresh zeroed buffer of one erase unit |
| `Synchronous.NorStorage.Capacity` | src/synhronous.rs:167-169 | the storage capacity is the wrapped device's number of bytes |
| `Synchronous.NorStorage.NorFlash` | src/synhronous.rs:68-70 | gives back the wrapped device |
| `Synchronous.StorageRoundTrip` | src/synhronous.rs:29-34 | `storage()` followed by `nor_flash()` returns the same device with identical bytes, and the view's capacity equals the device's |
| `NorProperties.ReadAfterWrite` | src/synhronous.rs:142-152 | a successful write is read back verbatim from any previous contents (no erased-state check) |
| `NorProperties.ReadDisjointFromWrite` | src/synhronous.rs:147-151 | a write does not change what any non-overlapping read returns |
| `NorProperties.ReadAfterErase` | src/synhronous.rs:127-138 | after a successful erase, every read inside `[from, to)` returns only `0xFF` bytes |
| `NorProperties.EraseIdempotent` | src/synhronous.rs:110-139 | erasing the same range again succeeds and changes nothing |
| `NorProperties.EraseSplit` | src/synhronous.rs:110-139 | erasing `[from, mid)` and then `[mid, to)` at an aligned `mid` equals erasing `[from, to)` |
| `NorProperties.FreshDeviceReadsZero` | src/backend_vec.rs:10-14 | a new in-memory device reads as zero bytes wherever a read succeeds |
| `NorProperties.RunPreservesCapacity` | src/backend_vec.rs:46-48 | no sequence of reads, writes and erases, successful or not, changes the device size |

A fresh in-memory device holds zero bytes, not the all-`0xFF` erased state of real NOR
flash: the vector is zero-filled (src/backend_vec.rs:12). `FreshDeviceReadsZero` states
this. Only a newly created memory-mapped file is filled with `0xFF`, and that backend is
not modelled.

## Left out

- The memory-mapped file backend (src/backend_mmap.rs) is OS I/O: file creation, `set_len` and the mapping. Its range checks are the same as those of the vector backend, which `CheckRange` states.
- The asynchronous adapter (src/asyncronous.rs) only forwards each call to the synchronous device. It is not modelled.
- `NorStorage` read and write call an external read-modify-write algorithm whose code is not part of this model. The model has no storage-level round trip.
- Generic backends: traits are not used, so `NorMemory` is fixed to the vector backend. The backend contract is `CheckRange`, together with the contracts of the `VecBackend` members.
- Callbacks: `with_data` and `with_data_mut` take arbitrary closures. The model specialises them to the three closures the emulator passes: copy-out, copy-in and fill.
- `copy_from_slice` panics when the two lengths differ. `WithDataMutCopyIn` requires the lengths to agree on a range that passes the checks, which every call from `write` satisfies.
- `Synchronous.NorMemory.Read` requires that the caller's buffer is not the device's storage. Rust's borrow rules guarantee this.
- Machine integers: `address + len` is computed without `usize` overflow. Addresses are limited to the `u32` range by their type.
- A zero erase size makes the source panic on `% 0`. `BlockSize` excludes zero.
- `READ_SIZE` and `WRITE_SIZE` are kept as device constants only. No operation checks alignment against them.
- The `Other` error kind of the flash error enumeration is never produced here, so `NorError` omits it.
