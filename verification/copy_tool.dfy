/**
  The file copy tool (copy_tool.c): the destination is truncated to the
  source's size and the contents are copied in chunks of at most four pages,
  each chunk through a pair of memory mappings. The system calls are
  parameters: the size fstat reports (None when it fails), whether ftruncate
  succeeds, and the outcome of mapping and copying each chunk.
*/
module CopyTool {
  import opened Wrappers
  import opened Arith

  /** copy_block: the first `size` elements of `src` overwrite those of `dst`; the rest of `dst` stays. */
  method CopyBlock<T>(src: seq<T>, dst: seq<T>, size: nat) returns (out: seq<T>)
    requires size <= |src| && size <= |dst|
    ensures |out| == |dst|
    ensures out[..size] == src[..size]
    ensures out[size..] == dst[size..]
  {
    out := dst;
    var i := 0;
    while i < size
      invariant 0 <= i <= size && |out| == |dst|
      invariant out[..i] == src[..i]
      invariant out[i..] == dst[i..]
    {
      out := out[i := src[i]];
      i := i + 1;
    }
  }

  // ---------------------------------------------------------------------------
  // The chunk schedule of copy_file (copy_tool.c:92-100)
  // ---------------------------------------------------------------------------

  /** A chunk handed to copy_part: `length` bytes at `offset` in both files. */
  datatype Chunk = Chunk(offset: nat, length: nat)

  function End(c: Chunk): nat
  {
    c.offset + c.length
  }

  /** The chunk size: four pages. */
  function ChunkLimit(pageSize: nat): nat
  {
    4 * pageSize
  }

  /** The chunks the loop produces from `pos` on: min(remaining, four pages) each, until the end of the file. */
  function ScheduleFrom(fileSize: nat, pageSize: nat, pos: nat): seq<Chunk>
    requires pageSize > 0
    decreases fileSize - pos
  {
    if pos >= fileSize then []
    else
      var len := Min(fileSize - pos, ChunkLimit(pageSize));
      [Chunk(pos, len)] + ScheduleFrom(fileSize, pageSize, pos + len)
  }

  function Schedule(fileSize: nat, pageSize: nat): seq<Chunk>
    requires pageSize > 0
  {
    ScheduleFrom(fileSize, pageSize, 0)
  }

  function TotalLength(cs: seq<Chunk>): nat
  {
    if |cs| == 0 then 0 else cs[0].length + TotalLength(cs[1..])
  }

  /**
    From position `pos`, the chunks are positive, at most four pages, and all
    but the last exactly four pages; their lengths add up to the bytes that
    remain.
  */
  lemma {:induction false} ScheduleSizes(fileSize: nat, pageSize: nat, pos: nat)
    requires pageSize > 0 && pos <= fileSize
    ensures |ScheduleFrom(fileSize, pageSize, pos)| == 0 <==> pos == fileSize
    ensures forall i | 0 <= i < |ScheduleFrom(fileSize, pageSize, pos)| ::
      0 < ScheduleFrom(fileSize, pageSize, pos)[i].length <= ChunkLimit(pageSize)
    ensures forall i | 0 <= i < |ScheduleFrom(fileSize, pageSize, pos)| - 1 ::
      ScheduleFrom(fileSize, pageSize, pos)[i].length == ChunkLimit(pageSize)
    ensures TotalLength(ScheduleFrom(fileSize, pageSize, pos)) == fileSize - pos
    decreases fileSize - pos
  {
    if pos < fileSize {
      var len := Min(fileSize - pos, ChunkLimit(pageSize));
      var rest := ScheduleFrom(fileSize, pageSize, pos + len);
      ScheduleSizes(fileSize, pageSize, pos + len);
      var s := ScheduleFrom(fileSize, pageSize, pos);
      assert s == [Chunk(pos, len)] + rest;
      assert forall i | 1 <= i < |s| :: s[i] == rest[i - 1];
      if |rest| > 0 {
        assert len == ChunkLimit(pageSize);
      }
    }
  }

  /** From position `pos`, the chunks are laid end to end, starting at `pos` and ending at the file size. */
  lemma {:induction false} ScheduleContiguous(fileSize: nat, pageSize: nat, pos: nat)
    requires pageSize > 0 && pos <= fileSize
    ensures var s := ScheduleFrom(fileSize, pageSize, pos);
      |s| > 0 ==> s[0].offset == pos && End(s[|s| - 1]) == fileSize
    ensures var s := ScheduleFrom(fileSize, pageSize, pos);
      forall i | 0 <= i < |s| - 1 :: s[i + 1].offset == End(s[i])
    decreases fileSize - pos
  {
    if pos < fileSize {
      var len := Min(fileSize - pos, ChunkLimit(pageSize));
      var rest := ScheduleFrom(fileSize, pageSize, pos + len);
      ScheduleContiguous(fileSize, pageSize, pos + len);
      var s := ScheduleFrom(fileSize, pageSize, pos);
      assert s == [Chunk(pos, len)] + rest;
      assert forall i | 1 <= i < |s| :: s[i] == rest[i - 1];
    }
  }

  /** Every byte of the file lies in exactly one chunk of the schedule. */
  lemma ScheduleCoversOnce(fileSize: nat, pageSize: nat, b: nat)
    requires pageSize > 0 && b < fileSize
    ensures exists i :: 0 <= i < |Schedule(fileSize, pageSize)| && Schedule(fileSize, pageSize)[i].offset <= b < End(Schedule(fileSize, pageSize)[i])
    ensures forall i, j | 0 <= i < j < |Schedule(fileSize, pageSize)| :: End(Schedule(fileSize, pageSize)[i]) <= Schedule(fileSize, pageSize)[j].offset
  {
    var s := Schedule(fileSize, pageSize);
    ScheduleSizes(fileSize, pageSize, 0);
    ScheduleContiguous(fileSize, pageSize, 0);
    EndToEndOrdered(s);
    var k := LastStartingAtMost(s, b);
    assert s[k].offset <= b < End(s[k]) by {
      if k < |s| - 1 {
        assert s[k + 1].offset > b;
      }
    }
  }

  /** In chunks laid end to end, each chunk ends at or before any later one starts. */
  lemma EndToEndOrdered(s: seq<Chunk>)
    requires forall i | 0 <= i < |s| - 1 :: s[i + 1].offset == End(s[i])
    ensures forall i, j | 0 <= i < j < |s| :: End(s[i]) <= s[j].offset
  {
    forall i, j | 0 <= i < j < |s|
      ensures End(s[i]) <= s[j].offset
    {
      var k := i + 1;
      while k < j
        invariant i + 1 <= k <= j
        invariant End(s[i]) <= s[k].offset
      {
        k := k + 1;
      }
    }
  }

  /** The last chunk of a non-empty, end-to-end schedule starting at or before b that starts at or before b. */
  lemma LastStartingAtMost(s: seq<Chunk>, b: nat) returns (k: nat)
    requires |s| > 0 && s[0].offset <= b < End(s[|s| - 1])
    requires forall i | 0 <= i < |s| - 1 :: s[i + 1].offset == End(s[i])
    ensures k < |s| && s[k].offset <= b
    ensures k < |s| - 1 ==> s[k + 1].offset > b
  {
    k := 0;
    while k < |s| - 1 && s[k + 1].offset <= b
      invariant k < |s| && s[k].offset <= b
    {
      k := k + 1;
    }
  }

  // ---------------------------------------------------------------------------
  // g_error_string (copy_tool.c:16-24)
  // ---------------------------------------------------------------------------

  /** Where an error was recorded; stands for the strerror(errno) text of that failure. */
  datatype ErrorSite =
    | StatFailed
    | TruncateFailed
    | SourceMapFailed(at: nat)
    | DestinationMapFailed(at: nat)
    | PartFailed(at: nat)

  /** VERIFY_NOT_AND_CLEANUP: only the first error is kept. */
  function Record(err: Option<ErrorSite>, e: ErrorSite): (r: Option<ErrorSite>)
    ensures r.Some?
    ensures err.Some? ==> r == err
    ensures err.None? ==> r == Some(e)
  {
    if err.None? then Some(e) else err
  }

  function RecordAll(err: Option<ErrorSite>, es: seq<ErrorSite>): Option<ErrorSite>
    decreases |es|
  {
    if |es| == 0 then err else RecordAll(Record(err, es[0]), es[1..])
  }

  /** However many errors are recorded, the kept one is the first ever recorded. */
  lemma {:induction false} RecordKeepsFirst(err: Option<ErrorSite>, es: seq<ErrorSite>)
    requires |es| > 0 || err.Some?
    ensures RecordAll(err, es) == if err.Some? then err else Some(es[0])
    decreases |es|
  {
    if |es| > 0 {
      RecordKeepsFirst(Record(err, es[0]), es[1..]);
    }
  }

  // ---------------------------------------------------------------------------
  // copy_part and copy_file (copy_tool.c:43-106)
  // ---------------------------------------------------------------------------

  /** What mapping and copying one chunk does. */
  datatype PartOutcome = Copied | SourceMapFails | DestinationMapFails

  /** The outcome of copy_part for each chunk, supplied by the environment. */
  type PartOracle = Chunk -> PartOutcome

  /** copy_part: returns whether the chunk was copied; a failed mapping records its error. */
  function CopyPart(part: PartOracle, c: Chunk, err: Option<ErrorSite>): (r: (bool, Option<ErrorSite>))
    ensures r.0 <==> part(c) == Copied
    ensures r.0 ==> r.1 == err
    ensures !r.0 ==> r.1.Some? && (err.Some? ==> r.1 == err)
  {
    match part(c)
    case Copied => (true, err)
    case SourceMapFails => (false, Record(err, SourceMapFailed(c.offset)))
    case DestinationMapFails => (false, Record(err, DestinationMapFailed(c.offset)))
  }

  /** The error copy_part records for a failed chunk. */
  function PartError(part: PartOracle, c: Chunk): ErrorSite
  {
    if part(c) == SourceMapFails then SourceMapFailed(c.offset) else DestinationMapFailed(c.offset)
  }

  /** A schedule cut just after its first failing chunk `c`: `a` is the schedule up to and including it. */
  lemma StopsAtFailure(s: seq<Chunk>, done: seq<Chunk>, c: Chunk, rest: seq<Chunk>, part: PartOracle, a: seq<Chunk>)
    requires s == done + [c] + rest && a == done + [c]
    requires forall i | 0 <= i < |done| :: part(done[i]) == Copied
    requires part(c) != Copied
    ensures 0 < |a| <= |s| && a == s[..|a|]
    ensures forall i | 0 <= i < |a| - 1 :: part(a[i]) == Copied
    ensures a[|a| - 1] == c
    ensures !(forall i | 0 <= i < |s| :: part(s[i]) == Copied)
  {
    assert s[..|a|] == a;
    assert s[|done|] == c;
  }

  /** A failed chunk records its copy_part error unless an earlier one is kept; the loop's own record changes nothing. */
  lemma FailedPartError(part: PartOracle, c: Chunk, err0: Option<ErrorSite>, at: nat)
    requires part(c) != Copied
    ensures !CopyPart(part, c, err0).0
    ensures Record(CopyPart(part, c, err0).1, PartFailed(at)) == Record(err0, PartError(part, c))
  {
  }

  /**
    The chunk loop of copy_file: copy the schedule's chunks in order,
    stopping at the first that fails. `attempted` are the chunks handed to
    copy_part. It succeeds exactly when every chunk of the schedule is copied,
    and then nothing is recorded; otherwise the error kept is the first one
    recorded.
  */
  method CopyChunks(fileSize: nat, pageSize: nat, part: PartOracle, err0: Option<ErrorSite>)
    returns (ok: bool, attempted: seq<Chunk>, err: Option<ErrorSite>)
    requires pageSize > 0
    ensures ok <==> forall i | 0 <= i < |Schedule(fileSize, pageSize)| :: part(Schedule(fileSize, pageSize)[i]) == Copied
    ensures ok ==> attempted == Schedule(fileSize, pageSize) && err == err0
    ensures !ok ==> 0 < |attempted| <= |Schedule(fileSize, pageSize)|
    ensures !ok ==> attempted == Schedule(fileSize, pageSize)[..|attempted|]
    ensures !ok ==> forall i | 0 <= i < |attempted| - 1 :: part(attempted[i]) == Copied
    ensures !ok ==> part(attempted[|attempted| - 1]) != Copied
    ensures !ok ==> err == Record(err0, PartError(part, attempted[|attempted| - 1]))
  {
    ghost var s := Schedule(fileSize, pageSize);
    var pos: nat := 0;
    attempted, err := [], err0;
    while pos < fileSize
      invariant pos <= fileSize
      invariant s == attempted + ScheduleFrom(fileSize, pageSize, pos)
      invariant forall i | 0 <= i < |attempted| :: part(attempted[i]) == Copied
      invariant err == err0
      decreases fileSize - pos
    {
      var toCopy := Min(fileSize - pos, ChunkLimit(pageSize));
      var c := Chunk(pos, toCopy);
      ghost var rest := ScheduleFrom(fileSize, pageSize, pos + toCopy);
      assert s == attempted + [c] + rest by {
        assert ScheduleFrom(fileSize, pageSize, pos) == [c] + rest;
      }
      var outcome := CopyPart(part, c, err);
      var copied, err1 := outcome.0, outcome.1;
      if !copied {
        var failed := attempted + [c];
        StopsAtFailure(s, attempted, c, rest, part, failed);
        FailedPartError(part, c, err0, pos);
        return false, failed, Record(err1, PartFailed(pos));
      }
      attempted := attempted + [c];
      pos := pos + toCopy;
    }
    assert attempted == s;
    return true, attempted, err;
  }

  /**
    copy_file: fstat the source, truncate the destination to its size, then
    run the chunk loop. An empty source needs no chunk at all.
  */
  method CopyFile(stat: Option<nat>, truncated: bool, pageSize: nat, part: PartOracle, err0: Option<ErrorSite>)
    returns (ok: bool, attempted: seq<Chunk>, err: Option<ErrorSite>)
    requires pageSize > 0
    ensures stat.None? ==> !ok && attempted == [] && err == Record(err0, StatFailed)
    ensures stat.Some? && !truncated ==> !ok && attempted == [] && err == Record(err0, TruncateFailed)
    ensures stat.Some? && truncated ==> (ok <==> forall i | 0 <= i < |Schedule(stat.value, pageSize)| :: part(Schedule(stat.value, pageSize)[i]) == Copied)
    ensures stat.Some? && truncated && ok ==> attempted == Schedule(stat.value, pageSize) && err == err0
    ensures stat == Some(0) && truncated ==> ok && attempted == []
  {
    if stat.None? {
      return false, [], Record(err0, StatFailed);
    }
    if !truncated {
      return false, [], Record(err0, TruncateFailed);
    }
    ok, attempted, err := CopyChunks(stat.value, pageSize, part, err0);
  }
}
