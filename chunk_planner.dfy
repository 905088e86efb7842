/**
  How a recording is cut into chunks before recognition.

  Durations are whole seconds. The chunk size is chosen from four tiers by the
  total duration; the number of chunks is `duration / size + 1`, so a duration
  that is an exact multiple of the size ends with an extra chunk of length 0.
  Chunk `i` is `min(size, duration - i * size)` seconds long and is read from
  the stream right after chunk `i - 1`.
 */
module ChunkPlanner {
  import opened Arithmetic

  /** One piece of the recording: its position in the plan, the stream offset at
      which it is read and how many seconds are read. */
  datatype Chunk = Chunk(index: nat, start: nat, length: nat)

  /** The chunk size for a recording of `duration` seconds (calculate_chunk_size). */
  function ChunkSize(duration: nat): (size: nat)
    ensures size == 30 || size == 60 || size == 120 || size == 300
  {
    if duration <= 300 then 30
    else if duration <= 900 then 60
    else if duration <= 1800 then 120
    else 300
  }

  /** The number of chunks: one more than the number of whole chunks that fit. */
  function ChunkCount(duration: nat): (count: nat)
    ensures count >= 1
    ensures (count - 1) * ChunkSize(duration) <= duration < count * ChunkSize(duration)
  {
    var size := ChunkSize(duration);
    DivisionBounds(duration, size);
    duration / size + 1
  }

  /** The length of chunk `i`: a full chunk, or whatever is left of the recording. */
  function ChunkLength(duration: nat, i: nat): (length: nat)
    requires i < ChunkCount(duration)
    ensures length <= ChunkSize(duration)
    ensures i * ChunkSize(duration) + length <= duration
  {
    var size := ChunkSize(duration);
    FullChunksFit(duration, i);
    Min(size, duration - i * size)
  }

  function Min(a: int, b: int): int {
    if a <= b then a else b
  }

  /** The chunks split_audio yields, in order: reading starts at the beginning of
      the recording and the last chunk ends exactly at its end. */
  function Plan(duration: nat): (chunks: seq<Chunk>)
    ensures |chunks| == ChunkCount(duration)
    ensures chunks[0].start == 0
    ensures chunks[|chunks| - 1].start + chunks[|chunks| - 1].length == duration
  {
    var size, count := ChunkSize(duration), ChunkCount(duration);
    var chunks := seq(count, i requires 0 <= i < count => Chunk(i, i * size, ChunkLength(duration, i)));
    assert chunks[count - 1].length == duration - (count - 1) * size;
    chunks
  }

  /** Chunk `c` holds the second that starts at offset `t`. */
  predicate Covers(c: Chunk, t: nat) {
    c.start <= t < c.start + c.length
  }

  /** The total number of seconds a sequence of chunks reads. */
  function TotalLength(chunks: seq<Chunk>): nat {
    if chunks == [] then 0 else TotalLength(chunks[..|chunks| - 1]) + chunks[|chunks| - 1].length
  }

  /** Each chunk starts where the one before it ends. */
  predicate Contiguous(chunks: seq<Chunk>) {
    forall i :: 0 < i < |chunks| ==> chunks[i].start == chunks[i - 1].start + chunks[i - 1].length
  }

  // ---------------------------------------------------------------------------
  // Arithmetic helpers. The chunk size is one of four constants; splitting on it
  // keeps every division linear.

  lemma DivisionBounds(duration: nat, size: nat)
    requires size == 30 || size == 60 || size == 120 || size == 300
    ensures (duration / size) * size <= duration < (duration / size + 1) * size
    ensures duration - (duration / size) * size == duration % size
  {
  }

  lemma FullChunksFit(duration: nat, i: nat)
    requires i < ChunkCount(duration)
    ensures i * ChunkSize(duration) <= duration
  {
    var size := ChunkSize(duration);
    assert i <= ChunkCount(duration) - 1;
    MulMonotone(i, ChunkCount(duration) - 1, size);
  }

  // ---------------------------------------------------------------------------
  // Properties of the tiering.

  /** A longer recording never gets a smaller chunk size. */
  lemma ChunkSizeMonotone(d1: nat, d2: nat)
    requires d1 <= d2
    ensures ChunkSize(d1) <= ChunkSize(d2)
  {
  }

  /** Each tier includes its upper bound. */
  lemma ChunkSizeBoundaries()
    ensures ChunkSize(0) == 30 && ChunkSize(300) == 30 && ChunkSize(301) == 60
    ensures ChunkSize(900) == 60 && ChunkSize(901) == 120
    ensures ChunkSize(1800) == 120 && ChunkSize(1801) == 300
  {
  }

  /** Up to half an hour of audio never needs more than sixteen chunks. */
  lemma ChunkCountUpToHalfHour(duration: nat)
    requires duration <= 1800
    ensures ChunkCount(duration) <= 16
  {
    var size := ChunkSize(duration);
    assert (ChunkCount(duration) - 1) * size <= duration;
  }

  // ---------------------------------------------------------------------------
  // Properties of the plan.

  /** The plan has one chunk per index, and chunk `i` starts at `i * size`. */
  lemma PlanIndices(duration: nat)
    ensures |Plan(duration)| == ChunkCount(duration) >= 1
    ensures forall i :: 0 <= i < |Plan(duration)| ==>
      Plan(duration)[i].index == i && Plan(duration)[i].start == i * ChunkSize(duration)
  {
  }

  /** Every chunk but the last is full; the last holds the remainder, which is
      shorter than a chunk and is empty exactly when the size divides the duration. */
  lemma ChunkLengths(duration: nat)
    ensures forall i :: 0 <= i < |Plan(duration)| - 1 ==> Plan(duration)[i].length == ChunkSize(duration)
    ensures Plan(duration)[|Plan(duration)| - 1].length == duration % ChunkSize(duration)
    ensures Plan(duration)[|Plan(duration)| - 1].length < ChunkSize(duration)
    ensures Plan(duration)[|Plan(duration)| - 1].length == 0 <==> duration % ChunkSize(duration) == 0
  {
    var size := ChunkSize(duration);
    var count := ChunkCount(duration);
    forall i | 0 <= i < count - 1
      ensures Plan(duration)[i].length == size
    {
      assert (i + 1) * size <= (count - 1) * size by { MulMonotone(i + 1, count - 1, size); }
    }
    DivisionBounds(duration, size);
  }

  /** An empty recording is planned as exactly one chunk of length 0. */
  lemma EmptyRecording()
    ensures Plan(0) == [Chunk(0, 0, 0)]
  {
  }

  /** A recording of 95 seconds is read as 30, 30, 30 and 5 seconds. */
  lemma NinetyFiveSeconds()
    ensures |Plan(95)| == 4
    ensures Plan(95)[0].length == 30 && Plan(95)[1].length == 30
    ensures Plan(95)[2].length == 30 && Plan(95)[3].length == 5
  {
  }

  /** Chunks follow each other with no gap and no overlap, from offset 0 to the end. */
  lemma PlanContiguous(duration: nat)
    ensures Plan(duration)[0].start == 0
    ensures Contiguous(Plan(duration))
    ensures Plan(duration)[|Plan(duration)| - 1].start + Plan(duration)[|Plan(duration)| - 1].length == duration
  {
    var plan := Plan(duration);
    var size := ChunkSize(duration);
    var count := |plan|;
    ChunkLengths(duration);
    PlanIndices(duration);
    forall i | 0 < i < count
      ensures plan[i].start == plan[i - 1].start + plan[i - 1].length
    {
      assert plan[i - 1].length == size;
      assert plan[i].start == i * size && plan[i - 1].start == (i - 1) * size;
      assert i * size == (i - 1) * size + size;
    }
    assert plan[count - 1].start == (count - 1) * size;
    assert count - 1 == duration / size;
    DivisionBounds(duration, size);
  }

  /** A contiguous run of chunks reads exactly the seconds between its first start and its last end. */
  lemma {:induction false} ContiguousTotal(chunks: seq<Chunk>)
    requires chunks != []
    requires Contiguous(chunks)
    ensures chunks[0].start + TotalLength(chunks) == chunks[|chunks| - 1].start + chunks[|chunks| - 1].length
  {
    var n := |chunks|;
    if n > 1 {
      var front := chunks[..n - 1];
      assert front[0] == chunks[0];
      assert Contiguous(front) by {
        forall i | 0 < i < |front|
          ensures front[i].start == front[i - 1].start + front[i - 1].length
        {
          assert front[i] == chunks[i] && front[i - 1] == chunks[i - 1];
        }
      }
      ContiguousTotal(front);
    }
  }

  /** The chunk lengths add up to the duration. */
  lemma PlanTotal(duration: nat)
    ensures TotalLength(Plan(duration)) == duration
  {
    PlanContiguous(duration);
    ContiguousTotal(Plan(duration));
  }

  /** The chunks partition [0, duration): the second at offset `t` lies in chunk
      `t / size` when `t < duration`, and in no other chunk; past the end, in none. */
  lemma PlanPartition(duration: nat, t: nat)
    ensures forall j :: 0 <= j < |Plan(duration)| ==>
      (Covers(Plan(duration)[j], t) <==> t < duration && j == t / ChunkSize(duration))
  {
    var plan := Plan(duration);
    var size := ChunkSize(duration);
    var count := ChunkCount(duration);
    ChunkLengths(duration);
    DivisionBounds(duration, size);
    forall j | 0 <= j < count
      ensures Covers(plan[j], t) <==> t < duration && j == t / size
    {
      CoversIndex(duration, size, count, j, plan[j].length, t);
    }
  }

  lemma CoversIndex(duration: nat, size: nat, count: nat, j: nat, length: nat, t: nat)
    requires size == 30 || size == 60 || size == 120 || size == 300
    requires count == duration / size + 1 && j < count
    requires j < count - 1 ==> length == size
    requires j == count - 1 ==> length == duration % size
    ensures j * size <= t < j * size + length <==> t < duration && j == t / size
  {
    DivisionBounds(duration, size);
    DivisionBounds(t, size);
    if j * size <= t < j * size + length {
      assert t / size == j by { QuotientUnique(t, size, j); }
      if j < count - 1 {
        FullChunksUpTo(duration, size, count, j);
      }
    }
    if t < duration && j == t / size {
      assert t / size <= duration / size by { DivMonotone(t, duration, size); }
      if j == count - 1 {
        assert t - j * size < duration - j * size;
      }
    }
  }

  lemma QuotientUnique(t: nat, size: nat, q: nat)
    requires size == 30 || size == 60 || size == 120 || size == 300
    requires q * size <= t < q * size + size
    ensures t / size == q
  {
  }

  lemma DivMonotone(a: nat, b: nat, size: nat)
    requires size == 30 || size == 60 || size == 120 || size == 300
    requires a <= b
    ensures a / size <= b / size
  {
  }

  lemma FullChunksUpTo(duration: nat, size: nat, count: nat, j: nat)
    requires size == 30 || size == 60 || size == 120 || size == 300
    requires count == duration / size + 1 && j < count - 1
    ensures j * size + size <= duration
  {
    DivisionBounds(duration, size);
    MulMonotone(j + 1, count - 1, size);
  }

  // ---------------------------------------------------------------------------
  // The generator loop of split_audio.

  /** Reads the recording chunk by chunk, each read continuing where the last one
      stopped; returns the chunks yielded and how many seconds were read in all. */
  method SplitAudio(duration: nat) returns (chunks: seq<Chunk>, consumed: nat)
    ensures chunks == Plan(duration)
    ensures consumed == duration
  {
    var size := ChunkSize(duration);
    var count := duration / size + 1;
    chunks := [];
    consumed := 0;
    for i := 0 to count
      invariant chunks == Plan(duration)[..i]
      invariant i < count ==> consumed == i * size
      invariant i == count ==> consumed == duration
    {
      FullChunksFit(duration, i);
      var length := Min(size, duration - i * size);
      chunks := chunks + [Chunk(i, consumed, length)];
      consumed := consumed + length;
      if i + 1 < count {
        FullChunksUpTo(duration, size, count, i);
      }
    }
  }
}
