/**
  The setup half of the write benchmark (ex1.c): the target file is brought to
  exactly 256 MiB by truncating it or appending random data in 1 MiB writes,
  and each timed rewrite picks a random aligned offset inside the file. The
  system calls are parameters: whether the file exists and how long it is,
  whether creating, stat-ing and opening it succeed, and what each write
  returns. Every failure ends the program with its own exit code.
*/
module FileResize {
  import opened Wrappers
  import opened Arith

  /** TARGET_FILE_SIZE: 256 MiB. */
  const TargetFileSize: nat := 256 * 1024 * 1024

  /** sizeof(buf): the 1 MiB buffer every append writes from. */
  const BufferSize: nat := 1024 * 1024

  // ---------------------------------------------------------------------------
  // getRandomOffsetInFile (ex1.c:99-104)
  // ---------------------------------------------------------------------------

  /**
    The offset of one timed write of `writeSize` bytes, drawn from the random
    value `rv`: the file holds TargetFileSize / writeSize aligned slots and
    `rv` picks one of them. The write always lies inside the file.
  */
  function RandomOffset(rv: nat, writeSize: nat): (off: nat)
    requires 0 < writeSize <= TargetFileSize
    ensures off % writeSize == 0
    ensures off + writeSize <= TargetFileSize
  {
    var slots := TargetFileSize / writeSize;
    var slot := rv % slots;
    SlotFits(slot, slots, writeSize, TargetFileSize);
    slot * writeSize
  }

  /** Slot `slot` of `slots` equal slots of `w` bytes in `total` is aligned and ends inside `total`. */
  lemma SlotFits(slot: nat, slots: nat, w: nat, total: nat)
    requires 0 < w && slots == total / w && slot < slots
    ensures (slot * w) % w == 0
    ensures slot * w + w <= total
  {
    DivModUnique(slot * w, w, slot, 0);
    assert slots * w <= total by {
      assert total == slots * w + total % w;
    }
    assert slot * w + w <= slots * w by {
      assert slot * w + w == (slot + 1) * w;
      MulMonotone(slot + 1, slots, w);
    }
  }

  /** Every aligned slot of the file is reachable: the random value k picks slot k. */
  lemma RandomOffsetReachesEverySlot(k: nat, writeSize: nat)
    requires 0 < writeSize <= TargetFileSize
    requires k < TargetFileSize / writeSize
    ensures RandomOffset(k, writeSize) == k * writeSize
  {
    DivModUnique(k, TargetFileSize / writeSize, 0, k);
  }

  /** The offset depends on the random value only through the slot it selects. */
  lemma RandomOffsetPeriodic(rv: nat, writeSize: nat)
    requires 0 < writeSize <= TargetFileSize
    ensures RandomOffset(rv + TargetFileSize / writeSize, writeSize) == RandomOffset(rv, writeSize)
  {
    var slots := TargetFileSize / writeSize;
    assert slots > 0 by {
      assert TargetFileSize == slots * writeSize + TargetFileSize % writeSize;
    }
    DivModUnique(rv + slots, slots, rv / slots + 1, rv % slots);
  }

  // ---------------------------------------------------------------------------
  // appendRandomDataToFile (ex1.c:120-132)
  // ---------------------------------------------------------------------------

  function Sum(s: seq<nat>): nat
  {
    if s == [] then 0 else Sum(s[..|s| - 1]) + s[|s| - 1]
  }

  lemma {:induction false} SumCons(c: nat, s: seq<nat>)
    ensures Sum([c] + s) == c + Sum(s)
    decreases |s|
  {
    if s != [] {
      assert ([c] + s)[..|s|] == [c] + s[..|s| - 1];
      SumCons(c, s[..|s| - 1]);
    }
  }

  /**
    The lengths the append loop writes for `dataSize` bytes: min(remaining,
    1 MiB) each, until nothing remains (ChunksTile says how they add up).
  */
  function Chunks(dataSize: nat): (cs: seq<nat>)
    ensures cs == [] <==> dataSize == 0
    decreases dataSize
  {
    if dataSize == 0 then []
    else
      var c := Min(dataSize, BufferSize);
      [c] + Chunks(dataSize - c)
  }

  /**
    Every write is non-empty and fits the buffer, every write but the last
    fills it, and together they add up to `dataSize`.
  */
  lemma {:induction false} ChunksTile(dataSize: nat)
    ensures forall k | 0 <= k < |Chunks(dataSize)| :: 0 < Chunks(dataSize)[k] <= BufferSize
    ensures Sum(Chunks(dataSize)) == dataSize
    ensures forall k | 0 <= k < |Chunks(dataSize)| - 1 :: Chunks(dataSize)[k] == BufferSize
    decreases dataSize
  {
    if dataSize > 0 {
      var c := Min(dataSize, BufferSize);
      ChunksTile(dataSize - c);
      SumCons(c, Chunks(dataSize - c));
    }
  }

  /** The chunk sequence is one full buffer per MiB plus the remainder, if any. */
  lemma {:induction false} ChunkCount(dataSize: nat)
    ensures |Chunks(dataSize)| == (dataSize + BufferSize - 1) / BufferSize
    decreases dataSize
  {
    if dataSize > BufferSize {
      ChunkCount(dataSize - BufferSize);
      assert (dataSize + BufferSize - 1) / BufferSize == (dataSize - BufferSize + BufferSize - 1) / BufferSize + 1;
    }
  }

  /** What one write(2) reports: -1, or the number of bytes it wrote. */
  datatype WriteOutcome = WriteFailed | Wrote(count: nat)

  /** The outcome of the k-th write of the loop. */
  type Writer = nat -> WriteOutcome

  /** The bytes a write of `requested` bytes adds to the file: never more than requested. */
  function Written(o: WriteOutcome, requested: nat): (n: nat)
    ensures n <= requested
    ensures o.Wrote? && o.count >= requested ==> n == requested
  {
    match o
    case WriteFailed => 0
    case Wrote(count) => Min(count, requested)
  }

  /** Every write of the loop succeeds and writes everything it was asked to. */
  predicate FullWrites(write: Writer, cs: seq<nat>)
  {
    forall k | 0 <= k < |cs| :: write(k).Wrote? && write(k).count >= cs[k]
  }

  /** Some write of the loop fails. */
  predicate SomeWriteFails(write: Writer, n: nat)
  {
    exists k | 0 <= k < n :: write(k).WriteFailed?
  }

  /**
    appendRandomDataToFile: open the file for appending, then write the
    chunks of `dataSize` one after another. `length` is the file's length
    before the call; the exit code says where the program stopped, if it did.
  */
  method AppendRandomData(length: nat, dataSize: nat, openOk: bool, write: Writer)
    returns (newLength: nat, exit: Option<ExitCode>)
    ensures !openOk ==> exit == Some(FailedOpenToWriteDuringSetup) && newLength == length
    ensures openOk ==> (exit.Some? <==> SomeWriteFails(write, |Chunks(dataSize)|))
    ensures openOk && exit.Some? ==> exit == Some(FailedToWriteDuringSetup)
    ensures length <= newLength <= length + dataSize
    ensures openOk && FullWrites(write, Chunks(dataSize)) ==> exit == None && newLength == length + dataSize
  {
    if !openOk {
      return length, Some(FailedOpenToWriteDuringSetup);
    }
    var failed;
    newLength, failed := WriteChunks(length, dataSize, write);
    exit := if failed then Some(FailedToWriteDuringSetup) else None;
  }

  /**
    The write loop of appendRandomDataToFile: the chunks of `dataSize` are
    written in order and the loop stops at the first failed write. The loop
    subtracts the requested length whether or not the write was short, so a
    short write leaves the file shorter than intended without an error.
  */
  method WriteChunks(length: nat, dataSize: nat, write: Writer) returns (newLength: nat, failed: bool)
    ensures failed <==> SomeWriteFails(write, |Chunks(dataSize)|)
    ensures length <= newLength <= length + dataSize
    ensures FullWrites(write, Chunks(dataSize)) ==> !failed && newLength == length + dataSize
  {
    ghost var cs := Chunks(dataSize);
    var remaining: nat := dataSize;
    var i := 0;
    newLength := length;
    while remaining > 0
      invariant 0 <= i <= |cs| && remaining <= dataSize
      invariant Chunks(remaining) == cs[i..]
      invariant forall k | 0 <= k < i :: write(k).Wrote?
      invariant length <= newLength <= length + (dataSize - remaining)
      invariant FullWrites(write, cs) ==> newLength == length + (dataSize - remaining)
      decreases remaining
    {
      var chunk := Min(remaining, BufferSize);
      ChunkStep(cs, i, remaining);
      var result := write(i);
      if result.WriteFailed? {
        assert !FullWrites(write, cs);
        return newLength, true;
      }
      newLength := newLength + Written(result, chunk);
      remaining := remaining - chunk;
      i := i + 1;
    }
    assert i == |cs| by {
      assert cs[i..] == [];
    }
    failed := false;
  }

  /** One turn of the append loop consumes the next chunk of the sequence. */
  lemma ChunkStep(cs: seq<nat>, i: nat, remaining: nat)
    requires i <= |cs| && Chunks(remaining) == cs[i..] && remaining > 0
    ensures i < |cs| && cs[i] == Min(remaining, BufferSize)
    ensures Chunks(remaining - cs[i]) == cs[i + 1..]
  {
    assert cs[i..][1..] == cs[i + 1..];
  }

  // ---------------------------------------------------------------------------
  // makeFileSize (ex1.c:134-163)
  // ---------------------------------------------------------------------------

  /** The exit codes of the setup path (ErrorCodes in ex1.c). */
  datatype ExitCode =
    | FailedToGetFileStats            // -2
    | FailedToOpenForTruncate         // -3
    | FailedToWriteDuringSetup        // -4
    | FailedOpenToWriteDuringSetup    // -11
    | FailedToCreateFile              // -12

  /** The value the program passes to exit(). */
  function ExitCodeValue(e: ExitCode): (code: int)
    ensures -256 < code < 0
  {
    match e
    case FailedToGetFileStats => -2
    case FailedToOpenForTruncate => -3
    case FailedToWriteDuringSetup => -4
    case FailedOpenToWriteDuringSetup => -11
    case FailedToCreateFile => -12
  }

  /**
    The exit status the parent observes: exit() passes on only the low 8 bits
    of its argument, so each negative code arrives as 256 + code, never 0.
  */
  function ExitStatus(e: ExitCode): (status: nat)
    ensures 0 < status < 256
    ensures status == 256 + ExitCodeValue(e)
  {
    ExitCodeValue(e) % 256
  }

  /** Distinct failures stay distinguishable after the truncation to 8 bits. */
  lemma ExitStatusInjective(a: ExitCode, b: ExitCode)
    ensures ExitStatus(a) == ExitStatus(b) <==> a == b
  {
  }

  /** What makeFileSize decides from the current size: whether to truncate first, and how much to append. */
  datatype Resize = Resize(truncate: bool, add: nat)

  /**
    The size decision: a short file is topped up by the difference, a long
    file is truncated to nothing and refilled with the whole target, and a
    file of the right size is left alone. Either way the length after the
    truncation plus what is added is the target.
  */
  function PlanResize(current: nat, size: nat): (r: Resize)
    ensures r.truncate <==> current > size
    ensures (if r.truncate then 0 else current) + r.add == size
  {
    if current < size then Resize(false, size - current)
    else if current > size then Resize(true, size)
    else Resize(false, 0)
  }

  /** A file of the right size gets nothing appended. */
  lemma PlanResizeKeepsRightSize(size: nat)
    ensures PlanResize(size, size) == Resize(false, 0)
  {
  }

  /**
    The size-zero guard before appending only saves the open call: with a
    target of zero there is never anything to add.
  */
  lemma PlanResizeZeroTarget(current: nat)
    ensures PlanResize(current, 0).add == 0
    ensures PlanResize(current, 0).truncate <==> current > 0
  {
  }

  /** The file system as makeFileSize sees it, and the outcome of each call it makes. */
  datatype Environment = Environment(
    existing: Option<nat>,     // the file's length, None when stat finds no file
    createOk: bool,            // open(O_CREAT) of a missing file
    statOk: bool,              // stat in getFileSize
    truncateOk: bool,          // open(O_TRUNC)
    appendOpenOk: bool,        // open(O_APPEND) in appendRandomDataToFile
    write: Writer)

  /** The length stat reports once verifyFileExists has run: a newly created file is empty. */
  function CurrentSize(env: Environment): nat
  {
    match env.existing
    case None => 0
    case Some(n) => n
  }

  /** Every call makeFileSize makes on `env` to reach `size` succeeds in full. */
  predicate AllCallsSucceed(env: Environment, size: nat)
  {
    && (env.existing.None? ==> env.createOk)
    && env.statOk
    && (CurrentSize(env) > size ==> env.truncateOk)
    && (size != 0 ==> env.appendOpenOk && FullWrites(env.write, Chunks(PlanResize(CurrentSize(env), size).add)))
  }

  /**
    makeFileSize: create the file if missing, read its size, truncate it if
    it is too long, then append what is missing. Returns the file's final
    length and the exit code if the program stopped on a failure.
  */
  method MakeFileSize(env: Environment, size: nat) returns (length: nat, exit: Option<ExitCode>)
    ensures env.existing.None? && !env.createOk ==> exit == Some(FailedToCreateFile) && length == 0
    ensures (env.existing.Some? || env.createOk) && !env.statOk ==>
              exit == Some(FailedToGetFileStats) && length == CurrentSize(env)
    ensures (env.existing.Some? || env.createOk) && env.statOk && CurrentSize(env) > size && !env.truncateOk ==>
              exit == Some(FailedToOpenForTruncate) && length == CurrentSize(env)
    ensures exit == None ==> length <= size
    ensures AllCallsSucceed(env, size) ==> exit == None && length == size
    ensures size == 0 && exit == None ==> length == 0
  {
    if env.existing.None? && !env.createOk {
      return 0, Some(FailedToCreateFile);
    }
    var current := CurrentSize(env);
    if !env.statOk {
      return current, Some(FailedToGetFileStats);
    }
    var plan := PlanResize(current, size);
    length := current;
    if plan.truncate {
      if !env.truncateOk {
        return current, Some(FailedToOpenForTruncate);
      }
      length := 0;
    }
    exit := None;
    if size != 0 {
      length, exit := AppendRandomData(length, plan.add, env.appendOpenOk, env.write);
    }
  }
}
