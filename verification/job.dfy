/** The file-generation job of `src/job.rs`: a value describing one file, and
    the sequence of writes its run performs on a file that starts empty. */
module FileJob {
  import opened Seqs

  newtype byte = x: int | 0 <= x < 256

  /** One file to make. `fill` is the job's `string` field taken as its bytes;
      `size` is the target file size and `writeSize` the largest number of
      bytes meant to be held in memory for one write. */
  datatype Job = Job(path: string, fill: seq<byte>, size: nat, writeSize: nat)

  /** Why the code as written panics before it returns. */
  datatype Fault =
    | RepeatCountDivByZero               // `write_size / string.len()` with an empty string
    | ChunkCountDivByZero                // `size / write_size` with a zero write size
    | SliceOutOfBounds(end: nat, len: nat) // `write_string[..remaining]` past the buffer's end

  /** How a run ends: it returns, it panics, or (the corrected run only) it
      rejects its configuration before writing anything. */
  datatype Outcome = Ok | Panic(fault: Fault) | Rejected

  /** The writes a run performs, in order, and how the run ends. The file is
      created empty before the first write, so a run that panics leaves the
      writes made before the panic on disk. */
  datatype Trace = Trace(writes: seq<seq<byte>>, outcome: Outcome)

  /** The file content after the writes of `t`. */
  function File(t: Trace): (r: seq<byte>)
    ensures t.writes == [] ==> r == []
  {
    Flatten(t.writes)
  }

  function New(path: string, fill: seq<byte>, size: nat, writeSize: nat): (j: Job)
    ensures j.path == path && j.fill == fill && j.size == size && j.writeSize == writeSize
  {
    Job(path, fill, size, writeSize)
  }

  function Clone(j: Job): (c: Job)
    ensures c == j
  {
    Job(j.path, j.fill, j.size, j.writeSize)
  }

  /** The write buffer as the code builds it: the fill string repeated
      `writeSize / |fill|` times (a floor division), then truncated to
      `writeSize`, which never shortens it. */
  function Buffer(fill: seq<byte>, writeSize: nat): (b: seq<byte>)
    requires |fill| > 0
    ensures |b| == (writeSize / |fill|) * |fill|
    ensures |b| == writeSize - writeSize % |fill| <= writeSize
    ensures writeSize < |fill| ==> b == []
    ensures Cyclic(b, fill)
  {
    SelfCyclic(fill);
    RepeatCyclic(fill, fill, writeSize / |fill|);
    Truncate(Repeat(fill, writeSize / |fill|), writeSize)
  }

  /** The loop of full writes and the final partial write, with the chunk
      count and the remainder taken modulo `chunk`. */
  function Plan(size: nat, buffer: seq<byte>, chunk: nat): (t: Trace)
    ensures chunk == 0 ==> t == Trace([], Panic(ChunkCountDivByZero))
    ensures chunk > 0 ==> (t.outcome == Ok <==> size % chunk <= |buffer|)
    ensures chunk > 0 ==> |t.writes| == size / chunk + (if t.outcome == Ok then 1 else 0)
    ensures chunk > 0 ==> forall i :: 0 <= i < size / chunk ==> t.writes[i] == buffer
    ensures chunk > 0 && t.outcome == Ok ==> t.writes[size / chunk] == buffer[..size % chunk]
    ensures chunk > 0 && t.outcome != Ok ==> t.outcome == Panic(SliceOutOfBounds(size % chunk, |buffer|))
    ensures forall i :: 0 <= i < |t.writes| ==> |t.writes[i]| <= |buffer|
  {
    if chunk == 0 then Trace([], Panic(ChunkCountDivByZero))
    else
      var remaining := size % chunk;
      var full := Copies(buffer, size / chunk);
      if remaining <= |buffer| then Trace(full + [buffer[..remaining]], Ok)
      else Trace(full, Panic(SliceOutOfBounds(remaining, |buffer|)))
  }

  /** `Job::run` as written: the chunk count and the remainder are taken
      modulo `writeSize`, although the buffer may be shorter than that. */
  function Run(j: Job): (t: Trace)
    ensures |j.fill| == 0 ==> t == Trace([], Panic(RepeatCountDivByZero))
    ensures |j.fill| > 0 && j.writeSize == 0 ==> t == Trace([], Panic(ChunkCountDivByZero))
    ensures t.outcome == Ok <==>
      |j.fill| > 0 && j.writeSize > 0 &&
      j.size % j.writeSize <= (j.writeSize / |j.fill|) * |j.fill|
  {
    if |j.fill| == 0 then Trace([], Panic(RepeatCountDivByZero))
    else Plan(j.size, Buffer(j.fill, j.writeSize), j.writeSize)
  }

  /** The shape of the write sequence: `size / writeSize` copies of the
      buffer, then (unless the slice is out of bounds) one write of the first
      `size % writeSize` buffer bytes; no write exceeds `writeSize`. */
  lemma PlanShape(j: Job)
    requires |j.fill| > 0 && j.writeSize > 0
    ensures |Run(j).writes| == j.size / j.writeSize + (if Run(j).outcome == Ok then 1 else 0)
    ensures forall i :: 0 <= i < j.size / j.writeSize ==>
      Run(j).writes[i] == Buffer(j.fill, j.writeSize)
    ensures Run(j).outcome == Ok ==>
      Run(j).writes[j.size / j.writeSize] == Buffer(j.fill, j.writeSize)[..j.size % j.writeSize]
    ensures Run(j).outcome == Ok ==> |Run(j).writes[j.size / j.writeSize]| == j.size % j.writeSize < j.writeSize
    ensures Run(j).outcome.Panic? ==>
      Run(j).outcome.fault == SliceOutOfBounds(j.size % j.writeSize, |Buffer(j.fill, j.writeSize)|)
    ensures forall i :: 0 <= i < |Run(j).writes| ==> |Run(j).writes[i]| <= j.writeSize
  {
  }

  /** What a completed plan leaves in the file, for any buffer that is a
      whole number of copies of the fill string. */
  lemma PlanContent(size: nat, b: seq<byte>, chunk: nat, fill: seq<byte>)
    requires |fill| > 0 && Cyclic(b, fill) && |b| % |fill| == 0 && chunk > 0
    requires Plan(size, b, chunk).outcome == Ok
    ensures |File(Plan(size, b, chunk))| == (size / chunk) * |b| + size % chunk
    ensures Cyclic(File(Plan(size, b, chunk)), fill)
  {
    var n := size / chunk;
    var last := b[..size % chunk];
    FlattenSnoc(Copies(b, n), last);
    FlattenCopies(b, n);
    RepeatCyclic(b, fill, n);
    CyclicConcat(Repeat(b, n), last, fill);
  }

  /** A run that does not panic writes `size / writeSize` whole buffers and
      the remainder, and every byte follows the fill string cyclically. */
  lemma CompletedContent(j: Job)
    requires Run(j).outcome == Ok
    ensures |File(Run(j))| ==
      (j.size / j.writeSize) * ((j.writeSize / |j.fill|) * |j.fill|) + j.size % j.writeSize
    ensures Cyclic(File(Run(j)), j.fill)
  {
    var b := Buffer(j.fill, j.writeSize);
    assert |b| % |j.fill| == 0 by {
      DivModUnique(|b|, |j.fill|, j.writeSize / |j.fill|, 0);
    }
    PlanContent(j.size, b, j.writeSize, j.fill);
  }

  /** When the write size is a whole multiple of the fill length the run
      meets its purpose: exactly `size` bytes, byte `i` being `fill[i mod |fill|]`. */
  lemma IntendedContract(j: Job)
    requires |j.fill| > 0 && j.writeSize > 0 && j.writeSize % |j.fill| == 0
    ensures Run(j).outcome == Ok
    ensures |File(Run(j))| == j.size
    ensures Cyclic(File(Run(j)), j.fill)
  {
    CompletedContent(j);
    assert j.size == (j.size / j.writeSize) * j.writeSize + j.size % j.writeSize;
  }

  /** Under the same condition the write size does not change the file. */
  lemma WriteSizeIrrelevant(j1: Job, j2: Job)
    requires j1.fill == j2.fill && j1.size == j2.size && |j1.fill| > 0
    requires j1.writeSize > 0 && j1.writeSize % |j1.fill| == 0
    requires j2.writeSize > 0 && j2.writeSize % |j2.fill| == 0
    ensures File(Run(j1)) == File(Run(j2))
  {
    IntendedContract(j1);
    IntendedContract(j2);
    CyclicUnique(File(Run(j1)), File(Run(j2)), j1.fill);
  }

  /** A zero size makes no full writes and one empty final write. */
  lemma EmptyFile(j: Job)
    requires |j.fill| > 0 && j.writeSize > 0 && j.size == 0
    ensures Run(j) == Trace([[]], Ok)
    ensures File(Run(j)) == []
  {
  }

  /** Some size makes the final slice panic exactly when the write size
      leaves a remainder of at least two modulo the fill length. */
  lemma FaultReachable(path: string, fill: seq<byte>, writeSize: nat)
    requires |fill| > 0 && writeSize > 0
    ensures (exists size: nat :: Run(Job(path, fill, size, writeSize)).outcome.Panic?) <==>
      writeSize % |fill| >= 2
  {
    if writeSize % |fill| >= 2 {
      DivModUnique(writeSize - 1, writeSize, 0, writeSize - 1);
      assert Run(Job(path, fill, writeSize - 1, writeSize)).outcome.Panic?;
    }
  }

  /** Any remainder at all makes some run finish with a file shorter than
      asked for: a size equal to the write size yields only the buffer. */
  lemma ShortFile(path: string, fill: seq<byte>, writeSize: nat)
    requires |fill| > 0 && writeSize > 0 && writeSize % |fill| != 0
    ensures Run(Job(path, fill, writeSize, writeSize)).outcome == Ok
    ensures |File(Run(Job(path, fill, writeSize, writeSize)))| == writeSize - writeSize % |fill| < writeSize
  {
    DivModUnique(writeSize, writeSize, 1, 0);
    CompletedContent(Job(path, fill, writeSize, writeSize));
  }

  /** The fill string "abc" with write size 5 and size 4: the buffer is
      "abc", no full write happens, and the slice `[..4]` panics. */
  lemma AbcFault(path: string)
    ensures Run(Job(path, [97, 98, 99], 4, 5)) == Trace([], Panic(SliceOutOfBounds(4, 3)))
  {
  }

  /** The run with the evident intent restored: the buffer is built as in
      the code, but the chunk count and the remainder are taken modulo the
      buffer's own length, and an empty fill string or a write size too small
      to hold one copy of it is rejected before anything is written. */
  function RunFixed(j: Job): (t: Trace)
    ensures t.outcome == Ok <==> 0 < |j.fill| <= j.writeSize
    ensures t.outcome != Ok ==> t == Trace([], Rejected)
  {
    if |j.fill| == 0 || j.writeSize < |j.fill| then Trace([], Rejected)
    else
      var b := Buffer(j.fill, j.writeSize);
      Plan(j.size, b, |b|)
  }

  /** The corrected run always meets the purpose, and no write exceeds the
      write size. */
  lemma FixedContract(j: Job)
    requires 0 < |j.fill| <= j.writeSize
    ensures RunFixed(j).outcome == Ok
    ensures |File(RunFixed(j))| == j.size
    ensures Cyclic(File(RunFixed(j)), j.fill)
    ensures forall i :: 0 <= i < |RunFixed(j).writes| ==> |RunFixed(j).writes[i]| <= j.writeSize
  {
    var b := Buffer(j.fill, j.writeSize);
    assert |b| % |j.fill| == 0 by {
      DivModUnique(|b|, |j.fill|, j.writeSize / |j.fill|, 0);
    }
    PlanContent(j.size, b, |b|, j.fill);
    assert j.size == (j.size / |b|) * |b| + j.size % |b|;
  }

  /** For the corrected run the write size never changes the file. */
  lemma FixedWriteSizeIrrelevant(j1: Job, j2: Job)
    requires j1.fill == j2.fill && j1.size == j2.size
    requires 0 < |j1.fill| <= j1.writeSize && |j2.fill| <= j2.writeSize
    ensures File(RunFixed(j1)) == File(RunFixed(j2))
  {
    FixedContract(j1);
    FixedContract(j2);
    CyclicUnique(File(RunFixed(j1)), File(RunFixed(j2)), j1.fill);
  }

  /** Where the code meets its purpose the correction changes nothing. */
  lemma FixedAgrees(j: Job)
    requires |j.fill| > 0 && j.writeSize > 0 && j.writeSize % |j.fill| == 0
    ensures RunFixed(j) == Run(j)
  {
  }

  /** `Job::run` step by step: the file starts empty, each write appends to
      it, and a panic stops the run with what was written so far. */
  method Execute(j: Job) returns (file: seq<byte>, outcome: Outcome)
    ensures outcome == Run(j).outcome
    ensures file == File(Run(j))
    ensures |j.fill| > 0 && j.writeSize > 0 && j.writeSize % |j.fill| == 0 ==>
      outcome == Ok && |file| == j.size && Cyclic(file, j.fill)
  {
    file := [];
    if |j.fill| == 0 {
      return file, Panic(RepeatCountDivByZero);
    }
    var buffer := Truncate(Repeat(j.fill, j.writeSize / |j.fill|), j.writeSize);
    if j.writeSize == 0 {
      return file, Panic(ChunkCountDivByZero);
    }
    assert buffer == Buffer(j.fill, j.writeSize);
    var chunks := j.size / j.writeSize;
    var i := 0;
    while i < chunks
      invariant i <= chunks
      invariant file == Repeat(buffer, i)
    {
      file := file + buffer;
      i := i + 1;
    }
    FlattenCopies(buffer, chunks);
    var remaining := j.size % j.writeSize;
    if remaining > |buffer| {
      assert Run(j) == Trace(Copies(buffer, chunks), Panic(SliceOutOfBounds(remaining, |buffer|)));
      return file, Panic(SliceOutOfBounds(remaining, |buffer|));
    }
    assert Run(j) == Trace(Copies(buffer, chunks) + [buffer[..remaining]], Ok);
    FlattenSnoc(Copies(buffer, chunks), buffer[..remaining]);
    file := file + buffer[..remaining];
    outcome := Ok;
    if j.writeSize % |j.fill| == 0 {
      IntendedContract(j);
    }
  }
}
