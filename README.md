# dynasm-rs runtime buffers and aarch64 icache maintenance, in Dafny

This project models `runtime/src/mmap.rs` of the dynasm-rs runtime and proves
properties of that model. The file has two parts.

- **The buffer pair** (`mmap.dfy`, module `Mmap`).
  - `MutableBuffer` and `ExecutableBuffer` each hold a used `length` and an
    optional backing mapping. A buffer of size 0 has no mapping.
  - `MutableBuffer` is changed in place (`set_len`, writes through
    `DerefMut`), so it is a class.
  - `ExecutableBuffer` is only built and consumed, so it is a datatype.
  - The mapping provider (the memmap crate) is foreign code. Each of its calls
    is represented by the reply it gives, which is passed in as a parameter:
    - `map_anon` answers with a base address or an `io::Error`;
    - a protection flip (`make_exec`/`make_mut` on a mapping) answers with
      nothing or an `io::Error`.
  - A mapping is a base address plus its bytes.
- **Instruction-cache invalidation on aarch64** (`cache_management.dfy`,
  module `CacheManagement`).
  - Each read of CTR_EL0 is a query of an oracle `ctr`: `ctr(i)` is the raw
    value of the i-th read. On a big.LITTLE system this depends on the core
    the thread runs on.
  - Each `ic ivau` call appends its address to a log, which the method
    returns together with the number of register reads.
  - The inner loop is the method `SweepLines`. It is specified by `SweepFrom`.
  - The outer loop is `InvalidateIcacheLines`. It is specified by
    `InvalidationLog`, which concatenates one sweep per line size in
    `SizesUsed(ctr)`.
  - The lemmas prove the following about that specification:
    - each sweep is aligned, ascending and in range;
    - each sweep covers every byte of the slice;
    - the sizes used strictly decrease, so there are at most 16 sweeps;
    - the loop stops exactly when the register stops reporting a smaller line.

`wrappers.dfy` holds the `Option` and `Result` datatypes.

Behaviour of runtime/src/mmap.rs worth noting:

- `make_exec` (runtime/src/mmap.rs:107-118) only flips the mapping's
  protection; it never calls into `cache_management`, so callers must
  invalidate the instruction cache themselves. `MakeExec` does the same.
- `set_len` (runtime/src/mmap.rs:100-104) stores any length without a bounds
  check; a length beyond the length of an existing mapping makes later
  dereferences panic, while without a mapping the view stays empty whatever
  the length.
  `MutableBuffer.SetLen` states exactly when the view stays sound afterwards.
- `make_exec` and `make_mut` take `self` by value, so when the protection
  flip fails the `?` returns the error and the buffer is dropped. The model's
  result carries only the error.
- The fast path (`slice.len() <= 4`) invalidates one line, at the slice
  address rounded down to a multiple of 4.
  - `FastPathCovers` proves that this covers the slice whenever the slice lies
    inside one aligned 4-byte word, as an aarch64 instruction does, whatever
    the line size.
  - `FastPathStraddle` shows a 4-byte slice at address 62 with 64-byte lines.
    Its bytes 64 and 65 lie in a line that is not invalidated.
  - The source comment justifies the fast path by instruction size, so the
    model states the alignment assumption explicitly and does not treat it as
    a defect.

## Model

| member | source | states |
|---|---|---|
| Mmap.UsedBytes | runtime/src/mmap.rs:139-159 | `Deref`: empty without a mapping, otherwise exactly `length` bytes, a prefix of the mapping |
| Mmap.ExecutableBuffer.Default | runtime/src/mmap.rs:121-128 | `ExecutableBuffer::default()` has length 0, size 0, an empty view and no mapping |
| Mmap.ExecutableBuffer.New | runtime/src/mmap.rs:44-57 | size 0 gives the default buffer whatever the provider would reply; otherwise it fails iff `map_anon` or the flip to executable fails, with `map_anon`'s error taking precedence; on success length 0, `size()` equal to the requested size, and the granted base |
| Mmap.ExecutableBuffer.Size | runtime/src/mmap.rs:59-62 | `size()` is 0 without a mapping and otherwise the mapping's length, and the view never exceeds it |
| Mmap.ExecutableBuffer.View | runtime/src/mmap.rs:139-148 | the view is empty without a mapping and otherwise the first `length` bytes of the mapping |
| Mmap.ExecutableBuffer.Ptr | runtime/src/mmap.rs:40-42 | `ptr(offset)` is defined only for an offset inside the view; it is base + offset, lies inside the mapping, and addresses the view's byte at `offset` |
| Mmap.ExecutableBuffer.MakeMut | runtime/src/mmap.rs:64-76 | `make_mut` keeps length and mapping; without a mapping it succeeds without a provider call; it fails iff there is a mapping and the flip is refused, returning that error |
| Mmap.MutableBuffer.Default | runtime/src/mmap.rs:130-137 | `MutableBuffer::default()` has length 0, no mapping, size 0 and an empty view |
| Mmap.MutableBuffer.New | runtime/src/mmap.rs:80-93 | size 0 gives a buffer with no mapping whatever the provider would reply; otherwise it fails iff `map_anon` fails, with its error; on success a fresh buffer of length 0, `size()` equal to the request, zero-filled at the granted base |
| Mmap.MutableBuffer.Size | runtime/src/mmap.rs:95-98 | `size()` is 0 without a mapping and otherwise the mapping's length, and the view never exceeds it |
| Mmap.MutableBuffer.View | runtime/src/mmap.rs:150-159 | the view is empty without a mapping and otherwise the first `length` bytes of the mapping |
| Mmap.MutableBuffer.SetLen | runtime/src/mmap.rs:100-104 | `set_len(n)` only overwrites `length`; the view stays sound iff there is no mapping or `n` fits the backing size; shortening keeps a prefix of the old view |
| Mmap.MutableBuffer.WriteView | runtime/src/mmap.rs:161-169 | a write through `DerefMut` splices the data into the view and changes neither the length, the size, the base nor the bytes beyond `length` |
| Mmap.MutableBuffer.MakeExec | runtime/src/mmap.rs:106-118 | `make_exec` keeps length and mapping; without a mapping it succeeds without a provider call; it fails iff there is a mapping and the flip is refused, returning that error |
| Mmap.ModeRoundTrip | runtime/src/mmap.rs:64-118 | `make_exec` then `make_mut` keeps length, mapping (hence every `ptr` address) and size, and the view when it was sound beforehand, for any length `set_len` left; it fails iff there is a mapping and either flip is refused |
| CacheManagement.IminLine | runtime/src/mmap.rs:210 | `raw & 0xF` is an exponent below 16 |
| CacheManagement.LineSizeOrder | runtime/src/mmap.rs:210 | `4 << k` grows strictly with `k`, so a smaller IminLine means a smaller line |
| CacheManagement.CachelineSize | runtime/src/mmap.rs:208-211 | `get_cacheline_size` returns at least 4 and at most 131072 bytes, always below the sentinel `0xFFFFFFFF` |
| CacheManagement.CachelineSizeIsLineSize | runtime/src/mmap.rs:208-211 | every size `get_cacheline_size` returns is a power of two between 4 and 131072, a whole number of instruction words |
| CacheManagement.AlignDown | runtime/src/mmap.rs:237 | `addr & !(line - 1)` is the multiple of `line` at or below `addr` and less than one line below it |
| CacheManagement.Lines | runtime/src/mmap.rs:239-242 | one sweep issues something iff its address is below the end, starting at that address |
| CacheManagement.LinesWithin | runtime/src/mmap.rs:239-242 | every address of a sweep lies in `[addr, end)` |
| CacheManagement.LinesStep | runtime/src/mmap.rs:239-242 | consecutive addresses of a sweep are exactly one line apart |
| CacheManagement.LinesAligned | runtime/src/mmap.rs:237-242 | a sweep started on a line boundary stays on line boundaries |
| CacheManagement.LinesCover | runtime/src/mmap.rs:239-242 | every byte in `[addr, end)` lies in a line that a sweep from `addr` starts |
| CacheManagement.SweepFromCorrect | runtime/src/mmap.rs:237-242 | a sweep over a non-empty range starts at `start & !(line - 1)`, ascends in steps of one line on line boundaries, stays below `end` and covers every byte of `[start, end)` |
| CacheManagement.SizesFollowReads | runtime/src/mmap.rs:231-245 | the i-th line size swept is the decoding of the i-th register read |
| CacheManagement.SizesShrink | runtime/src/mmap.rs:234-246 | each line size swept is strictly smaller than the one before |
| CacheManagement.SizesStop | runtime/src/mmap.rs:234-245 | after the last sweep the next read is not smaller than the size just used |
| CacheManagement.SizesBound | runtime/src/mmap.rs:234-246 | once the size used last is at most `4 << n` bytes, at most `n` further sweeps follow |
| CacheManagement.SizesUsedCorrect | runtime/src/mmap.rs:229-246 | the general path sweeps at least once and at most 16 times, with the sizes the reads report, strictly decreasing, and it stops when the next read is not smaller |
| CacheManagement.SweepLogHas | runtime/src/mmap.rs:234-246 | every address of each sweep appears in the overall log |
| CacheManagement.LineStart | runtime/src/mmap.rs:237-240 | a line-aligned address at most one line below a byte is that byte's `b & !(line - 1)` |
| CacheManagement.LogCovers | runtime/src/mmap.rs:213-246 | on the general path, for every line size used and every byte `b` of the slice, `b & !(line - 1)`, the start of the line holding `b`, is a logged `ic ivau` address |
| CacheManagement.WordInLine | runtime/src/mmap.rs:217-220 | a line of at least one instruction word that holds a word-aligned address also holds the rest of that word |
| CacheManagement.FastPathCovers | runtime/src/mmap.rs:217-222 | for a slice inside one aligned 4-byte word the single `ic ivau` invalidates the line holding every byte of the slice, for every line size |
| CacheManagement.FastPathStraddle | runtime/src/mmap.rs:217-222 | a 4-byte slice at address 62 logs only address 60, whose 64-byte line does not hold byte 65 |
| CacheManagement.OuterStep | runtime/src/mmap.rs:234-246 | one outer iteration appends exactly the sweep with the last size read and then reads once more |
| CacheManagement.SweepLines | runtime/src/mmap.rs:237-242 | the inner loop logs exactly the sweep from `start & !(line - 1)` to `end` |
| CacheManagement.InvalidateIcacheLines | runtime/src/mmap.rs:213-247 | the log is exactly one sweep per line size used, in order; for `len <= 4` it is one word-aligned address at or just below the start, with no register read; otherwise the register is read once per sweep plus the final read |

## Left out

- The operating-system work of the memmap crate (`map_anon`, the page-protection flips, unmapping on drop). It is represented only by its replies.
- The hand-encoded machine-code stubs and the `transmute` to function pointers (runtime/src/mmap.rs:178-206). Their effect is kept: a register read from an oracle and an address appended to a log.
- `invalidate_pipeline`. It only issues the barriers `dsb ish; isb sy`, which have no state to model.
- The non-aarch64 `cache_management` module, whose functions do nothing.
- The lifetime of raw pointers returned by `ptr` and the Executor lock contract described in its comment, which are concurrency concerns.
- Mmap.MutableBuffer.MakeExec: does not keep the consumed buffer on failure, because the source moves it into the call and drops it.
- Mmap.ExecutableBuffer.MakeMut: does not keep the consumed buffer on failure, for the same reason.
- CacheManagement.AlignDown: addresses are unbounded naturals, so `usize` wrap-around at the top of the address space (in `start_addr + slice.len()` or `addr += line_size`) is not modelled.
- CacheManagement.IminLine: the register value is a natural number and `raw & 0xF` is written as `raw % 16`, which agrees with the mask for every non-negative value. The register's 64-bit width plays no role.
- CacheManagement.AlignDown: `x & !(line - 1)` is written as rounding down to a multiple of `line`. The two agree only for a power-of-two `line`, which every size `get_cacheline_size` returns is (`CachelineSizeIsLineSize`) and 4 is, but the bitwise identity itself is not proved, and `AlignDown`, `SweepFrom` and `SweepLines` accept any positive line.
