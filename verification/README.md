# tac: segment reversal, modelled in Dafny

`tac` writes its input to standard output last line first. Each maximal run
of bytes ending in the separator (a newline, or any byte in the `tac-k`
library) is a segment, and the segments come out in reverse order with
their separators where they were; an unterminated tail comes out first.
The repository carries three near-duplicate versions of the engine:

- `src/main.rs`, the original command-line program;
- `src/lib.rs`, the newer newline-only front end;
- `src/tac-k-lib/src/lib.rs`, the reusable library with a separator parameter.

Each version has a naive scalar search, a helper that scans a range of
indices downwards (`slow_search_and_print`), an AVX2 search over aligned
32-byte windows, a NEON search over aligned 16-byte windows, a dispatcher on
CPU features, and a `reverse_file` that turns a path or standard input into
one byte view.

The model:

- `reversal.dfy` (`Spec`): the pure segment reversal `Tac(b, sep)`, the
  segment split, and the properties of both.
- `scan.dfy` (`Scan`): the scan invariant every strategy keeps, the scalar
  range scan, and the separator-parameterised scalar search.
- `masks.dfy` (`Masks`): match masks as bit sequences, with entry 0 as the
  lowest address. It covers `leading_zeros`, BZHI, single-bit clearing and
  the joins that build 64-bit masks.
- `align.dfy` (`Align`): the buffer's base address is a number `p`, and
  `align_offset` is `(w - a % w) % w` for the two vector widths.
- `vector.dfy` (`Vector`): window masks, match resolution, the aligned
  window loop, and the AVX2 and NEON searches shared by the newer versions.
  It also holds the platform description the dispatchers read.
- `io.dfy` (`Io`): standard input as a sequence of chunks, `read` and
  `io::copy` over it, and the 4 MiB fill-or-spill buffering of the newer
  versions.
- `main.dfy` (`Cli`): `src/main.rs`. It holds:
  - switch parsing, proved against a direct statement of the rules;
  - its own scalar and AVX2 searches and its dispatcher;
  - the per-file driver;
  - the standard-input loop as written.
- `lib.dfy` (`Lib`): `src/lib.rs`, dispatch and `reverse_file`.
- `tack.dfy` (`TacK`): `src/tac-k-lib/src/lib.rs`, dispatch, the unguarded
  `reverse_file` as written and the guarded one.

The sink is modelled as the log of slices written to it. Every search in
the model is proved to write `Tac(b, sep)` in total, and so every vector
search there writes what the scalar search writes. The individual writes
may differ, for example by empty writes. The exception is the AVX2 search
of `src/main.rs` as written, which can split a line (see Findings). It is
modelled only at the level of its window mask (Cli.JoinSignExtended,
Cli.SignExtensionSplitsLine), and Cli.Search256 is its corrected version.

Three behaviours of the code that the model keeps as they are written:

- **Every file is mapped.** `reverse_file` opens and maps every path, even
  a zero-length file (src/lib.rs:62-63). The outcome of open-and-map is an
  input, and the empty view is then skipped (src/lib.rs:79-84).
- **Mapping standard input.** On Unix, src/lib.rs:29 propagates a failed
  map of standard input. src/tac-k-lib/src/lib.rs:61-64 falls back to
  buffering instead.
- **Spilling standard input.** At 4 MiB or more, on the buffered path,
  every version goes through a temporary file whose system calls are
  inputs here. In src/main.rs the
  input is also cut to its first 4 MiB, and every version maps a handle
  opened write-only (see Findings).

## Model

| member | source | states |
|---|---|---|
| Spec.SegmentsShape | src/main.rs:24 | splitting a buffer into segments: every segment but the last ends in the separator and holds no other, and the last holds none |
| Spec.SegmentsRoundTrip | src/main.rs:24 | concatenating the segments gives back the buffer |
| Spec.TacIsSegmentsReversed | src/main.rs:24 | the output is the segments concatenated last first |
| Spec.TacSplit | src/lib.rs:122-128 | writing the final segment first and then the reversal of what precedes it gives the reversal of the whole |
| Spec.TacPermutes | src/main.rs:24 | the output is a permutation of the input bytes, of the same length |
| Spec.NoSeparatorUnchanged | src/lib.rs:119-130 | input without a separator is a single segment and comes out unchanged |
| Spec.AllSeparatorsUnchanged | src/lib.rs:119-130 | input made only of separators comes out byte-identical |
| Spec.ExampleTrailingSeparator | src/main.rs:35-49 | three terminated lines come out in reverse order |
| Spec.ExampleNoTrailingSeparator | src/main.rs:35-49 | `x␤y␤z` comes out as `zy␤x␤`: the unterminated tail first, with no separator added |
| Scan.ProgressMatch | src/lib.rs:144-147 | writing `bytes[i+1..stop]` at a separator `i` and moving `stop` to `i+1` keeps the scan invariant |
| Scan.ProgressFinish | src/lib.rs:128 | once every index is inspected, the final prefix write completes the reversal |
| Scan.SlowSearchAndPrint | src/main.rs:69-86 | inspects only `[start, end)`. It moves `stop` only down, and only to one past a separator in that range. It writes one slice per separator in the range and keeps the earlier writes. It carries the scan invariant from `end` down to `start`. The same loop is at src/lib.rs:136-151 and src/tac-k-lib/src/lib.rs:143-159 |
| Scan.Search | src/tac-k-lib/src/lib.rs:133-138 | the range scan over the whole buffer plus the prefix write outputs `Tac(b, sep)` for any separator, with one write per separator plus one. The newline-only search at src/lib.rs:119-130 is this search at `sep = 10` |
| Masks.LeadingZeros | src/lib.rs:218 | the count of clear bits above the highest set bit. It equals the width iff the mask is zero, and otherwise names a set bit with only clear bits above it |
| Masks.BzhiClearsHighest | src/main.rs:171-173 | BZHI at `63 - leading` equals clearing just the highest set bit, as the comment beside the call says |
| Masks.CountBzhiHighest | src/lib.rs:224-226 | each BZHI step consumes exactly one set bit, so the match loop ends after as many steps as there are matches |
| Masks.CountClearBit | src/lib.rs:322-323 | clearing one set bit lowers the count of set bits by one |
| Masks.JoinZeroExtended | src/lib.rs:204-210 | `(hi as u32 as u64) << 32 \| lo as u32 as u64`: the low half is `lo` and the high half is `hi` |
| Masks.JoinQuad | src/lib.rs:296-310 | the bulk NEON movemask puts the lowest-address 16-byte window in bits 0..15 and the highest in bits 48..63 |
| Masks.ExactJoin | src/lib.rs:207-210 | the exact masks of two adjacent windows join into the exact mask of the combined window |
| Align.AlignOffset | src/lib.rs:183 | `align_offset(w)` is the distance to the next multiple of `w`: less than `w`, and no address before it is aligned |
| Align.AlignedBelow | src/main.rs:116-117 | `index + align_offset - w` is the highest `w`-aligned index strictly below `index`, and at least `index - w` |
| Align.AlignedAtOrBelow | src/lib.rs:183-195 | the preflight's end of the vector region: the highest 32-aligned index at or below `len` |
| Vector.Load256 | src/lib.rs:202-204 | an aligned 32-byte load compared with the separator gives the exact mask of that window |
| Vector.Load128 | src/lib.rs:274-277 | a 16-byte NEON load compared with the separator gives the exact mask of that window |
| Vector.AlignedStep | src/lib.rs:198-208 | stepping the window end down keeps every load address aligned |
| Vector.WindowMask | src/tac-k-lib/src/lib.rs:214-235 | for each unit (x86_64 pair, 32-bit x86 single, NEON quad), bit `k` of the mask is set iff byte `window_end - size + k` is the separator |
| Vector.ClearMatch | src/tac-k-lib/src/lib.rs:249-257 | BZHI on x86 and single-bit clearing on NEON both leave exactly the bits below the resolved one |
| Vector.ResolveMatches | src/lib.rs:212-227 | every write `bytes[offset..last_printed]` is a valid slice for any mask. `last_printed` only moves down and stays within the window. On an exact mask the scan invariant carries across the window |
| Vector.ResolveOne | src/lib.rs:218-222 | `window_end - leading` is one past the highest unresolved separator, and writing up to it keeps the scan invariant |
| Vector.WindowLoop | src/lib.rs:198-229 | the loop runs while a whole step fits. Every load stays aligned and in bounds. It leaves fewer than one step of bytes, and it carries the scan invariant down to where it stops |
| Vector.Search256 | src/lib.rs:166-241 | the AVX2 search outputs `Tac(b, sep)` for every buffer and base address, empty and short buffers included. It is shared with src/tac-k-lib/src/lib.rs:174-272, where the unit is the 32-bit x86 single load |
| Vector.Preflight256 | src/lib.rs:179-195 | for `len >= 95`, the vector region ends inside the buffer and is 32-aligned. Its end is positive when `align_offset != 0`, it holds at least 64 bytes, it lies less than 32 below `len`, and it is the highest 32-aligned index at or below `len` |
| Vector.Search128 | src/lib.rs:246-338 | the NEON search outputs `Tac(b, sep)` for every non-empty buffer. The same code is at src/main.rs:193-286 and src/tac-k-lib/src/lib.rs:278-370 |
| Io.ReadAtMost | src/lib.rs:42 | a read into a window of `cap` bytes returns at most `cap` bytes. An empty window returns no bytes and consumes nothing, but fails when the next chunk is an error, because std's standard input refills its own buffer on such a read. A zero-byte read into a non-empty window means end of file. Bytes read followed by what is left are the stream's contents |
| Io.ReadUpTo | src/main.rs:372 | reading part of a window leaves the capped contents of the rest for the remaining window |
| Io.ContentsUpToPrefix | src/main.rs:369-372 | what reads into a fixed window yield is the leading part of the stream's contents |
| Io.Copy | src/lib.rs:55 | `io::copy` yields the rest of the stream up to end of file, or its error |
| Io.BufferStdin | src/lib.rs:36-58 | buffered standard input spills iff its first 4 MiB can be read, so an input of exactly 4 MiB spills. It yields the first error among the reads, creating and writing the spill file, the rest of the stream, and mapping the file. When it succeeds it yields the whole stream. The same loop is at src/tac-k-lib/src/lib.rs:70-91 |
| Io.ReachesIff | src/lib.rs:46-48 | for a stream that reads to its end, the buffer spills iff the stream holds at least 4 MiB |
| Io.BufferedKeepsWhole | src/lib.rs:36-58 | a buffered view that succeeds is the whole stream. A stream under 4 MiB is whole whatever the spill file does. With a readable spill file whose calls succeed, every stream is whole |
| Io.WriteOnlySpillFails | src/lib.rs:51-56 | with the spill file opened by `File::create`, write-only, every stream of at least 4 MiB ends in an error |
| Cli.Search | src/main.rs:35-49 | the signed-index search outputs `Tac(b, 10)`, with one write per newline plus the prefix write at index -1, the empty buffer included |
| Cli.Search256 | src/main.rs:105-188 | with the zero-extended join, the original AVX2 search outputs `Tac(b, 10)` for every non-empty buffer and base address |
| Cli.PreflightAssertion | src/main.rs:118-120 | the first debug assertion of the preflight, as written |
| Cli.PreflightAssertionFails | src/main.rs:118-120 | that assertion fails iff `len == 33` and the base address is a multiple of 32 |
| Cli.PreflightCorrected | src/main.rs:118-124 | the preflight assertions without the positivity conjunct |
| Cli.PreflightCorrectedHolds | src/main.rs:112-124 | the aligned index is at most the last index, below `len` and 32-aligned, for every buffer with a last index of at least 32 |
| Cli.JoinSignExtended | src/main.rs:147-157 | the join as written: a set bit 31 of the low half sets every bit of the high half |
| Cli.SignExtensionAgrees | src/main.rs:156-157 | the join as written equals the zero-extended join iff bit 31 of the low half is clear or the high half is already full |
| Cli.SignExtensionSplitsLine | src/main.rs:156-168 | a newline at byte `window_end - 33` and none at byte `window_end - 1` make the join as written claim a newline at `window_end - 1`, so the first write splits a line |
| Cli.Choose | src/main.rs:289-299 | AVX2 on x86 when detected. Otherwise NEON on AArch64 nightly builds, with no runtime probe. Otherwise the naive search |
| Cli.SearchAuto | src/main.rs:289-299 | the dispatch is undefined iff AVX2 is chosen on a processor without LZCNT or BMI2, for which `search256` is compiled (src/main.rs:89-91). Every other choice outputs `Tac(b, 10)` for a non-empty buffer |
| Cli.Avx2OnlyUndefined | src/main.rs:291 | an x86_64 processor with AVX2 but without LZCNT and BMI2 gets the AVX2 search and lacks its instructions |
| Cli.Reverse | src/main.rs:426-431 | an empty view writes nothing and skips the dispatcher. Any other view is written reversed, or is undefined iff a feature is missing |
| Cli.ReverseFile | src/main.rs:351-431 | fails iff the view cannot be acquired. Otherwise it is undefined iff the view is non-empty and a feature is missing, and else it writes the reversal of the view |
| Cli.ReverseAll | src/main.rs:343-348 | files are handled in order. The run stops at the first failure with exit code -1, and exit code 0 means every file was written. On a processor missing a feature the run is undefined at the first non-empty file (it may trap at the first BMI2 instruction), so only empty files are written before it |
| Cli.ParseArgs | src/main.rs:301-341 | agrees with `Cli.Reference`, the rules stated directly. A run always names at least one file, with `-` as the default. The only exit codes the loop gives are 0 and -1; a non-Unicode argument panics before it (see Left out) |
| Cli.ParseAfterDashDash | src/main.rs:322-325 | after `--` every argument, switch-like or not, is a file |
| Cli.ParseMatchesReference | src/main.rs:308-336 | the argument loop agrees with the rules stated directly. Up to the first `--`, the first switch other than `--line-buffered` decides the exit: 0 for help and version, -1 otherwise. Without one, the files are the non-switch arguments before `--` and then all after it, and `force_flush` is set iff `--line-buffered` comes before `--` |
| Cli.ReferenceDashDash | src/main.rs:322-325 | in the rules stated directly, a leading `--` makes every later argument a file and leaves `force_flush` clear |
| Cli.ReferenceFile | src/main.rs:333-336 | in the rules stated directly, a leading non-switch argument becomes the first file and changes nothing else |
| Cli.ReferenceLineBuffered | src/main.rs:319-321 | in the rules stated directly, a leading `--line-buffered` sets `force_flush` and changes nothing else |
| Cli.ReferenceDecisive | src/main.rs:309-331 | in the rules stated directly, any other leading switch decides the exit: 0 for help and version, -1 otherwise |
| Cli.BufferStdin | src/main.rs:356-406 | the standard-input loop as written yields only what fits in 4 MiB. It spills iff it filled the buffer, and after the spill its one further read takes no bytes. That read fails iff the chunk after the first 4 MiB is an error. A spill then fails if creating or writing the file, that read, or mapping the file fails |
| Cli.RefillAfterSpillFails | src/main.rs:369-375 | standard input of exactly 4 MiB followed by a read error fills the buffer and spills, and the read into the empty rest of the buffer then fails, so Cli.BufferStdin ends in that error |
| Cli.StdinTruncates | src/main.rs:369-395 | for a stream of more than 4 MiB, that loop keeps exactly the first 4 MiB and differs from the stream's contents |
| Cli.StdinKeepsShortInput | src/main.rs:400-401 | for a stream of at most 4 MiB, that loop keeps all of it |
| Cli.StdinTruncationExample | src/main.rs:372-373 | one chunk of 4 MiB + 1 bytes loses its last byte |
| Lib.Choose | src/lib.rs:101-116 | AVX2 only when AVX2, LZCNT and BMI2 are all detected on x86. NEON only when detected on AArch64. Otherwise the naive search |
| Lib.SearchAuto | src/lib.rs:101-116 | every dispatch choice outputs `Tac(b, 10)` for a non-empty buffer |
| Lib.ReverseFile | src/lib.rs:16-85 | fails iff the view cannot be acquired. On Unix, a failure to map standard input is that failure. Otherwise it writes the reversal of the view, and nothing for an empty one |
| Lib.SimdMatchesScalar | src/lib.rs:348-363 | the AVX2 search and the naive search write the same bytes for every buffer |
| TacK.Choose | src/tac-k-lib/src/lib.rs:117-129 | AVX2 only when AVX2, LZCNT and BMI2 are all detected on x86, with the single-load unit exactly on 32-bit x86. NEON only when detected on AArch64 |
| TacK.Search128 | src/tac-k-lib/src/lib.rs:278-283 | the NEON search underflows iff the buffer is empty, and otherwise outputs `Tac(b, sep)` |
| TacK.SearchAuto | src/tac-k-lib/src/lib.rs:117-129 | a dispatch fails iff the buffer is empty and NEON is chosen. Otherwise it outputs `Tac(b, sep)` |
| TacK.Acquire | src/tac-k-lib/src/lib.rs:53-99 | standard input is memory-mapped when that works on Unix and read to the end otherwise. Files are opened and mapped |
| TacK.ReverseFileAsWritten | src/tac-k-lib/src/lib.rs:47-102 | `reverse_file` as written underflows iff the view is empty and NEON is chosen |
| TacK.ReverseFile | src/tac-k-lib/src/lib.rs:47-102 | with an emptiness guard, `reverse_file` writes the reversal of every acquired view on every platform |
| TacK.SimdMatchesScalar | src/tac-k-lib/src/lib.rs:380-395 | for any separator and either x86 width, the AVX2 search and the naive search write the same bytes |

## Left out

- Output: the sink is an infallible log of written slices. Write errors, `?` on `write_all`, stdout locking, the `BufWriter` or `is_terminal`/`atty` choice and the final `flush` are not modelled.
- File and memory-map system calls: `File::open` with `Mmap::map` of a path, and `Mmap::map` of standard input, are inputs to `reverse_file` as success or failure outcomes.
- The spill file: the outcomes of creating and writing it, and of mapping a readable handle to it, are inputs. A map reads what was written. Naming the file from the process id, and removing it afterwards with its logged error, are not modelled.
- Io.BufferStdin: the callers Cli.ReverseFile, Lib.ReverseFile and TacK.Acquire pass `ReadWrite`, the corrected half of the spill-map finding. As written, the file is opened write-only, and Io.WriteOnlySpillFails states what that does.
- `io::copy` is modelled as a loop of 8 KiB reads. Its retry on interrupted reads is not modelled; a broken chunk fails it at once.
- The SIMD instructions themselves are not modelled. Compare-and-movemask and the NEON bulk movemask (`vandq_u8`/`vpaddq_u8`) are functions giving masks with the documented bit order. Masks are bit sequences, not 64-bit words.
- Runtime feature detection and `#[cfg]` selection are inputs, through the platform description: an architecture and five flags.
- `help`, `version`, the messages on standard error, and `dump_window` are not modelled. `process::exit` is an outcome value.
- Cli.ReverseAll: the source for each file (standard input for `-`) is an input, so a second `-` reading an exhausted stream is up to the caller.
- Cli.Choose: on 32-bit x86 the AVX2 search of `src/main.rs` uses `x86_64` intrinsics. The model gives it the two-load unit on both x86 targets.
- Lib.Choose: the AVX2 search of `src/lib.rs` imports `core::arch::x86_64` (src/lib.rs:167), so it does not exist on 32-bit x86. The model gives it the two-load unit on both x86 targets.
- Cli.SearchAuto: its AVX2 branch runs Cli.Search256, which uses the zero-extended join and no preflight assertion. Those are the corrected halves of the src/main.rs:156-157 and src/main.rs:118-120 findings, so the output it promises is that of the corrected search.
- Cli.BufferStdin: the branch that appends to the spill file (src/main.rs:391-394) is unreachable. After a spill the next read is into an empty slice: it returns no bytes and ends the loop, or fails with the error of std's buffer refill. The model shows that branch is dead.
- Cli.ParseArgs: arguments are Dafny strings. In the source `std::env::args()` (src/main.rs:302) panics on an argument that is not valid Unicode, and the process exits with code 101. That path is not modelled.
- Cli.ReverseFile: reads standard input through Io.BufferStdin, the corrected loop, not the truncating loop of the same file. Cli.BufferStdin is kept as the as-written member of that finding. Its AVX2 search is the corrected one, as for Cli.SearchAuto.
- Cli.ReverseAll: runs Cli.ReverseFile, so it inherits the corrected standard-input loop and the corrected AVX2 search.
- Vector.ResolveMatches: does not state that it makes exactly one write per set bit. Masks.CountBzhiHighest states the per-step count instead.
- Vector.Search128 and Cli.Search256: require a non-empty buffer, because both compute `len - 1`. TacK.Search128 models what happens without that guarantee.
- Indices and addresses are unbounded naturals. `usize` overflow of `index + align_offset` is not modelled; it needs a buffer ending within 32 bytes of the top of the address space.
- Underflow of `len - 1` panics in debug builds and wraps in release builds, after which the search runs out of bounds. Both are one `Underflow` outcome.

## Findings

| source | as written | input that shows it | evidently intended | confidence | as-written member | corrected member |
|---|---|---|---|---|---|---|
| src/main.rs:156-157 | the second `_mm256_movemask_epi8` result (`i32`) is cast straight to `u64`, which sign-extends into the upper half of the mask | a 64-byte window whose byte `window_end - 33` is a newline and whose last byte is not: bit 63 comes out set, and the first write splits a line at a byte that is not a newline | zero extension, `as u32 as u64`, as in src/lib.rs:210 | high; not executed | Cli.JoinSignExtended, Cli.SignExtensionSplitsLine | Masks.JoinZeroExtended via Vector.WindowMask, used by Cli.Search256 |
| src/main.rs:118-120 | the debug assertion demands `aligned_index > 0` | a 33-byte buffer whose base address is a multiple of 32, for example any memory-mapped 33-byte file in a debug build: the aligned index is 0 and the assertion panics | the aligned index lies in the buffer, below `len`, 32-aligned; 0 is a valid start | high; not executed | Cli.PreflightAssertion, Cli.PreflightAssertionFails | Cli.PreflightCorrected, Cli.PreflightCorrectedHolds |
| src/main.rs:369-395 | after the 4 MiB buffer spills, the next read is into the empty rest of the buffer, returns 0 (or fails, when std's refill of its own buffer fails) and ends the loop | standard input of 4 MiB + 1 bytes from a pipe: once the spill file can be mapped (next rows), the output reverses only the first 4 MiB | copy the rest of the stream into the spill file, as src/lib.rs:54-57 does | high for the loop; not executed | Cli.BufferStdin, Cli.StdinTruncates, Cli.StdinTruncationExample | Io.BufferStdin, used by Cli.ReverseFile, Lib.ReverseFile and TacK.ReverseFile |
| src/tac-k-lib/src/lib.rs:101 | `reverse_file` passes the view to `search_auto` with no emptiness check, and `search128` computes `last_printed - 1` (line 283) | an empty file, or empty standard input, on AArch64 with NEON | skip the search for an empty view, as src/lib.rs:79-84 does | high; not executed | TacK.ReverseFileAsWritten, TacK.Search128 | TacK.ReverseFile |
| src/lib.rs:51-56 | the spill file is opened with `File::create`, which gives a write-only handle, and that handle is then memory-mapped. A memory map reads the file, and a handle that cannot be read is refused. The same is at src/main.rs:385 with 403 and src/tac-k-lib/src/lib.rs:84-89 | standard input of 4 MiB from a pipe, on a path that buffers it: the map fails and the run ends in an error instead of output | open the spill file for reading and writing | medium; not executed | Io.BufferStdin with `WriteOnly`, Io.WriteOnlySpillFails | Io.BufferStdin with `ReadWrite`, Io.BufferedKeepsWhole, used by Cli.ReverseFile, Lib.ReverseFile and TacK.Acquire |
| src/main.rs:291 | the dispatcher asks only for AVX2, but `search256` is compiled for AVX2, LZCNT and BMI2 (src/main.rs:89-91) and runs BZHI (src/main.rs:173) | any input on an x86_64 processor with AVX2 but without BMI2, such as a virtual machine that masks BMI2: the call is undefined behaviour, and it may trap at the first BMI2 instruction, for example BZHI once a window holds a newline | also ask for LZCNT and BMI2, as src/lib.rs:103-105 does | high; not executed | Cli.Choose, Cli.SearchAuto, Cli.Avx2OnlyUndefined | Lib.Choose, Lib.SearchAuto |
