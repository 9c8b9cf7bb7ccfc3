# Javy string references and the `javy_logger` bridge

This project models the marshalling code of Javy's `random` API module. The
guest writes strings into WebAssembly linear memory and hands them to the host
as packed 64-bit *references*. Each reference is laid out, most significant
bit first, as `[type:4][offset:32][size:28]`.

It has three parts, one Dafny module each, over two small support modules:

- `Bits` (`bits.dfy`): Rust's `u8`, `u32`, `u64` and `i64` as integer
  subset types. It writes out the u64 bit operations used by the packing
  code: `<<` drops every bit pushed past bit 63, `|` and `&` are defined bit
  by bit on naturals. It also proves when an OR is a sum and what an AND with
  a low-bit mask keeps.
- `Panics` (`panics.dfy`): the reasons the code can panic, and a `Result`
  that carries either a value or the panic. Every `try_into().unwrap()` and
  the explicit `panic!` become a `Panicked` result.
- `Reference` (`reference.dfy`): `new_reference`, together with `Decode`.
  The code has no decoder; `Decode` is the receiver's view of the layout and
  is used to state the round trip.
- `StringWriter` (`string_writer.dfy`): `write_string`. It is a byte-copy
  loop over an `array<u8>` standing for linear memory, followed by building
  the reference. `Written` specifies the memory after the copy; `WriteResult`
  specifies the returned pair.
- `Logger` (`logger.dfy`): the body of the `javy_logger` closure.
  - The host behind the `log` import is a `Host` object. It records every
    call's two arguments, and the shared memory as it was when that call was
    made.
  - `Bridged` specifies one run of the bridge.
  - `JavyLogger` is the imperative method, proved to do what `Bridged` specifies.

Every number is unbounded in Dafny. The fixed widths of the source are
written out: the subset types bound the values, and `ShiftLeft64` truncates
modulo 2^64.

A string is its UTF-8 bytes (`seq<u8>`).

## Model

| member | source | states |
|---|---|---|
| `Bits.OrOfDisjoint` | crates/javy/src/apis/random/mod.rs:56 | ORing a value shifted above bit k with a value below bit k gives exactly their sum: no bit is shared, so there is no carry |
| `Bits.ShiftLeft64Value` | crates/javy/src/apis/random/mod.rs:56 | a u64 `<<` by k is multiplication by 2^k with every bit above bit 63 dropped (reduction modulo 2^64) |
| `Bits.AndLowMask` | crates/javy/src/apis/random/mod.rs:56 | ANDing with the mask of the k low bits keeps exactly the value modulo 2^k |
| `Reference.NewReference` | crates/javy/src/apis/random/mod.rs:47-57 | panics, naming the size, exactly when `size >= 2^28`, and accepts every smaller size; the word it returns decodes to the low 4 bits of the type, the offset and the size |
| `Reference.Decode` | crates/javy/src/apis/random/mod.rs:53-56 | the three fields read from the layout have 4, 32 and 28 bits |
| `Reference.DecodeRecomposes` | crates/javy/src/apis/random/mod.rs:53-56 | the decoded fields, weighted by 2^60, 2^28 and 1, add back up to the word, so decoding loses nothing |
| `Reference.TagShift` | crates/javy/src/apis/random/mod.rs:56 | shifting the `u8` tag left by 60 in a u64 keeps only its low 4 bits |
| `Reference.OffsetShift` | crates/javy/src/apis/random/mod.rs:56 | shifting the `u32` offset left by 28 in a u64 loses no bit |
| `Reference.SizeMask` | crates/javy/src/apis/random/mod.rs:49-56 | once the size check has passed, the `& 0xFFFFFFF` mask leaves the size unchanged |
| `Reference.PackIsSum` | crates/javy/src/apis/random/mod.rs:56 | the three shifted fields occupy disjoint bits, so the packed word equals `(typ mod 16)*2^60 + offset*2^28 + size` |
| `Reference.DecodeOfSum` | crates/javy/src/apis/random/mod.rs:53-56 | in-range fields placed at their bit positions fit in a u64 and decode back to themselves |
| `Reference.PackDecodes` | crates/javy/src/apis/random/mod.rs:53-56 | for a size below 2^28 the packed word fits in a u64 and decodes to the low 4 bits of the type, the offset and the size |
| `Reference.TagRoundTripsIffBelow16` | crates/javy/src/apis/random/mod.rs:47-56 | for an accepted size, `(typ, offset, size)` round-trips through the reference if and only if `typ < 16` |
| `Reference.EveryWordIsAReference` | crates/javy/src/apis/random/mod.rs:53-56 | every u64 is the reference of the fields it decodes to: the layout uses all 64 bits and wastes none |
| `Reference.SmallTagConverts` | crates/javy/src/apis/random/mod.rs:44-56 | a type below 8 and a size below 2^28 give a reference that is accepted, is below 2^63 so that the i64 conversion keeps it, and decodes to the exact fields |
| `Reference.ToI64IffTagBelow8` | crates/javy/src/apis/random/mod.rs:44 | the u64-to-i64 `try_into().unwrap()` on any word succeeds if and only if the word's decoded 4-bit tag is below 8, that is, bit 63 is clear |
| `Reference.ConvertsToI64IffTagBelow8` | crates/javy/src/apis/random/mod.rs:44-56 | a reference converts to i64 if and only if its 4-bit tag is below 8 |
| `StringWriter.Written` | crates/javy/src/apis/random/mod.rs:37-42 | after the copy, `[offset, offset+len)` holds the bytes of the string, and every other byte of memory is unchanged |
| `StringWriter.WriteResult` | crates/javy/src/apis/random/mod.rs:44 | succeeds exactly when the offset fits in a u32 and the length is below 2^28. It then returns the length and a non-negative reference decoding to `(5, offset, length)`. It never panics in the i64 conversion |
| `StringWriter.WriteString` | crates/javy/src/apis/random/mod.rs:37-45 | the copy loop leaves memory equal to `Written` (untouched for an empty string), and the method returns `WriteResult`. Memory is written even when a later conversion panics |
| `StringWriter.EmptyWriteChangesNothing` | crates/javy/src/apis/random/mod.rs:40-42 | copying a zero-length string leaves memory as it was |
| `StringWriter.SequentialWritesCompose` | crates/javy/src/apis/random/mod.rs:27-28 | a write followed by a second write at `offset + count returned` is one write of the two strings joined: no gap, no overlap |
| `Logger.Host.Log` | crates/javy/src/apis/random/mod.rs:8-11 | the host import records one call with its two i64 arguments, in order, and the shared memory it can read at that moment |
| `Logger.Bridged` | crates/javy/src/apis/random/mod.rs:26-31 | the bridge succeeds exactly when both strings are shorter than 2^28 bytes. On success: memory holds `level ++ message` from offset 1 and nothing else changes; the references are non-negative; they decode to `(5, 1, len level)` and `(5, 1+len level, len message)`. Otherwise it panics only over a length, and the message is not written if the level write panicked |
| `Logger.JavyLogger` | crates/javy/src/apis/random/mod.rs:26-31 | the closure leaves memory as `Bridged` says. It calls `log` exactly once, with the level reference first and the message reference second, after both writes are in memory; it calls `log` not at all when it panics |
| `Logger.RegionsAdjacent` | crates/javy/src/apis/random/mod.rs:27-28 | the level's decoded region starts at offset 1, and the message's decoded region starts exactly where the level's ends |
| `Logger.LevelThenMessage` | crates/javy/src/apis/random/mod.rs:27-28 | when both writes succeed, memory holds the level from offset 1 and the message immediately after it |
| `Logger.HostReadsLevelAndMessage` | crates/javy/src/apis/random/mod.rs:27-30 | a host that decodes the two references and reads those bytes of the memory it was shown gets back exactly the level and the message |
| `Logger.WarnDiskLow` | crates/javy/src/apis/random/mod.rs:26-31 | level `"warn"` and message `"disk low"` give references decoding to offsets 1 and 5 and sizes 4 and 8, and bytes 1 to 12 of memory hold the twelve bytes |

## Left out

- Registering `Math.random` through `fastrand::f64` is left out (mod.rs:21-22). It works with floating-point values and a foreign random generator.
- The QuickJS plumbing is left out (mod.rs:13-17, 19-25, 34): `Intrinsic::add_intrinsic`, `Ctx`, the globals and `Function::new`. This is engine bootstrap made of foreign library calls. The model starts where the closure receives its two strings.
- The conversion of the closure's JavaScript strings to Rust `String`s is left out: the model takes their UTF-8 bytes as given.
- The host's side of `log` is left out. The model records only the arguments it receives and the memory it can see.
- Raw-pointer semantics are replaced by bounds-checked array writes: `offset as *mut u8` and the aliasing rules of `ptr::copy_nonoverlapping`. The code writes through an unchecked pointer. Each write therefore requires that the target range lies inside memory (`FitsMemory`, and the precondition of `WriteString`). The data being copied is a `seq`, so it cannot alias memory.
- `usize` is unbounded here. The `usize` addition `1 + level_ref.1` cannot overflow on its own in the model. On wasm32 it cannot overflow either, because the level's length is below 2^28 whenever that line is reached.
- A panic ends the call with a `Panicked` result. Unwinding or aborting the WebAssembly instance is not modelled.
- The `test_random` unit test is left out (mod.rs:67-85). It checks the range of `Math.random` through engine evaluation.
