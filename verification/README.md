# rfilemaker file-generation job, modelled in Dafny

rfilemaker creates files of a given size. Each file is filled with a repeating
string. A `Job` (in `src/job.rs`) describes one file: a path, a fill string,
a target `size` and a `write_size`. The `write_size` is meant to bound how many
bytes are held in memory for one write. `Job::run` does the following:

1. It creates the file, which truncates any earlier content.
2. It builds a write buffer by repeating the fill string `write_size / len`
   times and truncating the result to `write_size`.
3. It writes that buffer `size / write_size` times.
4. It finally writes the first `size % write_size` bytes of the buffer.

The model has two modules:

- `Seqs` (`seqs.dfy`) holds the sequence operations the job is built from:
  `Repeat` (Rust's `str::repeat`), `Truncate` (`String::truncate`), `Copies`,
  and `Flatten`. `Flatten` gives the content of a file that starts empty and
  has each write appended to it. The module also defines the predicate
  `Cyclic(r, s)`: byte `k` of `r` is `s[k mod |s|]`.
- `FileJob` (`job.dfy`) holds the `Job` value and `New`/`Clone`. It also
  holds the pure write plan `Run`, which returns a `Trace`: the ordered list of
  slices written, plus how the run ended (`Ok`, or a `Panic` with its cause;
  only the corrected run can end `Rejected`).
  `Execute` is the step-by-step version of the same run. The module also has
  the lemmas relating the plan to the intended file content, and `RunFixed`,
  a corrected run (see Findings).

Faults are explicit `Panic` outcomes, not preconditions:

- an empty fill string divides by zero when the repeat count is computed;
- a zero write size divides by zero when the chunk count is computed;
- a final slice past the buffer's end panics.

The file is created before any of these can happen. So a `Trace` also records
what a panicking run has already written.

Three facts about the code matter here. The model follows the code in each:

- The buffer is `(write_size / len) * len` bytes, not `write_size` bytes,
  because the repeat count at line 35 is a floor division.
- The final write is made even when the remainder is 0, so it is then an
  empty write.
- Nothing rejects a fill string longer than `write_size`. The buffer is then
  empty, and the run either panics or leaves an empty file.

The corrected run `RunFixed` (see Findings) keeps the code's buffer and
changes the divisor instead. An alternative fix would build a buffer of
exactly `write_size` bytes (repeat, then cut). That buffer would restart the
string mid-cycle at every chunk whenever `write_size` is not a multiple of the
string length.

## Model

| member | source | states |
|---|---|---|
| FileJob.New | src/job.rs:17-24 | the constructed job carries exactly the given path, string, size and write size |
| FileJob.Clone | src/job.rs:53-63 | a clone equals the original in every field |
| Seqs.Repeat | src/job.rs:35 | repeating a string n times gives n times its length |
| Seqs.Truncate | src/job.rs:36 | truncation keeps a prefix of length min(n, len), and has no effect when n is at least the length |
| Seqs.RepeatCyclic | src/job.rs:35 | repeating a whole number of copies of the fill string gives bytes that follow the fill string cyclically, with a length that is again a multiple of the fill length |
| Seqs.FlattenCopies | src/job.rs:40-42 | writing the same buffer n times leaves the buffer repeated n times in the file |
| Seqs.Copies | src/job.rs:40-42 | the loop issues exactly n writes, and every one of them is the same buffer |
| Seqs.Flatten | src/job.rs:30-46 | a file that was just created holds no bytes; after a write, the file ends with that write's bytes |
| Seqs.FlattenSnoc | src/job.rs:41 | one more write appends its slice to the end of the file and changes nothing before it |
| FileJob.File | src/job.rs:30-31 | a run that has made no write leaves the file empty, since `File::create` truncates it |
| FileJob.Plan | src/job.rs:39-46 | a zero divisor panics before any write; otherwise there are size / chunk copies of the buffer, then one final write of the first size % chunk bytes if that many exist, and otherwise a SliceOutOfBounds panic; no write is longer than the buffer |
| FileJob.Buffer | src/job.rs:34-37 | the buffer has (write_size / len) * len bytes, never more than write_size; it is empty when write_size < len; byte j is string[j mod len] |
| FileJob.Run | src/job.rs:27-50 | an empty string panics (division by zero) before any write; a zero write size panics before any write; otherwise the run completes exactly when size % write_size is at most (write_size / len) * len |
| FileJob.PlanShape | src/job.rs:40-46 | the writes are size / write_size copies of the buffer; a completed run then has one final write of the first size % write_size buffer bytes, shorter than write_size; a panicking run panics on that slice; no write exceeds write_size |
| FileJob.PlanContent | src/job.rs:39-46 | for any buffer made of whole copies of the string, a completed plan leaves (size / chunk) * buffer length + size % chunk bytes that follow the string cyclically |
| FileJob.CompletedContent | src/job.rs:34-46 | a run that does not panic leaves (size / write_size) * bufferLen + size % write_size bytes, and byte i is string[i mod len] |
| FileJob.IntendedContract | src/job.rs:30-46 | when write_size is a positive multiple of len, the run completes with exactly size bytes and byte i is string[i mod len] |
| FileJob.WriteSizeIrrelevant | src/job.rs:30-46 | two such write sizes give byte-identical files |
| FileJob.EmptyFile | src/job.rs:30-46 | size 0 makes no full writes and one empty final write, leaving the file empty |
| FileJob.FaultReachable | src/job.rs:35-46 | for a given string and write size, some size makes the final slice panic if and only if write_size % len is at least 2 |
| FileJob.ShortFile | src/job.rs:35-45 | whenever write_size % len is not 0, a run with size = write_size completes with a file of write_size - write_size % len bytes, shorter than asked for |
| FileJob.AbcFault | src/job.rs:35-46 | string "abc", write size 5, size 4: nothing is written and the slice [..4] of the 3-byte buffer panics |
| FileJob.RunFixed | src/job.rs:34-46 | the corrected run completes exactly when the string is non-empty and no longer than write_size; otherwise it rejects the job with no write at all, never panicking |
| FileJob.FixedContract | src/job.rs:34-46 | the corrected run always leaves exactly size bytes with byte i = string[i mod len], and no write exceeds write_size |
| FileJob.FixedWriteSizeIrrelevant | src/job.rs:34-46 | in the corrected run the write size never changes the file content |
| FileJob.FixedAgrees | src/job.rs:34-46 | when write_size is a positive multiple of len, the corrected run and the run as written perform the same writes |
| FileJob.Execute | src/job.rs:27-50 | the loop run leaves the same file and outcome as the write plan; when write_size is a positive multiple of len it completes with exactly size bytes following the string cyclically |

## Findings

| source | as written | input that shows it | evidently intended | confidence | as-written member | corrected member |
|---|---|---|---|---|---|---|
| src/job.rs:35-46 | the chunk count and the remainder are taken modulo write_size, but the buffer holds only (write_size / len) * len bytes | string "abc", write size 5, size 4: the slice [..4] of the 3-byte buffer panics; string "abc", write size 4, size 4: the file gets 3 bytes | a file of exactly size bytes with byte i = string[i mod len], for every write size that holds the string | high, not executed | FileJob.AbcFault | FileJob.FixedContract |

`FaultReachable` and `ShortFile` cover every non-empty string and every
positive write size. The two divisions by zero (an empty string at line 35, a
zero write size at line 40) panic regardless, as `Run` states. Apart from them,
a slice panic at line 46 is possible only when `write_size % len >= 2`. Any
non-zero remainder can produce a short file. `RunFixed` takes the chunk count
and the remainder modulo the buffer's own length. It rejects an empty string,
and a write size smaller than the string, before writing anything. These
rejections are a separate `Rejected` outcome, not a panic. `FixedAgrees` shows
that the corrected run performs the same writes as the code whenever the write
size is a positive multiple of the string length. For other write sizes the
traces can differ even where the code's file happens to be right. For example,
with string "abc", write size 4 and size 3, the code writes "abc" once. The
corrected run writes "abc" and then an empty slice.

## Left out

- The Tokio file operations (`File::create`, `File::options().open`, `write_all`) and their I/O errors are not modelled. The file is a byte sequence that starts empty and gets each write appended. Partial writes and failed writes are not modelled.
- The path is carried in `Job` but never interpreted, because the model has no file system.
- The `u128` to `usize` casts are not modelled, and neither are overflow or allocation failure in `str::repeat`. All sizes are unbounded naturals.
- The fill string is modelled as raw bytes. So the UTF-8 char-boundary panic that the slice at line 46 can raise for a non-ASCII string is not modelled. (With unbounded sizes, the `truncate` at line 36 never shortens the buffer. It could cut a character only through the `as usize` cast, which is also left out.)
- `src/main.rs` only parses two command-line arguments and prints them. It never builds or runs a `Job`.
- Size-string parsing, directory creation and concurrent dispatch of many jobs are not part of this model. No code for them exists in `src/job.rs` or `src/main.rs`.
