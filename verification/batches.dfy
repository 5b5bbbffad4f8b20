/** `AnalysisUtils.saveDataInBatches` and the analyzers' own save buffers:
    a list handed to a repository's `saveAll` in consecutive slices. The
    repository is modelled by the sequence of lists passed to `saveAll`,
    in call order. */
module Batches {

  import opened Nullable

  const DEFAULT_SAVE_BATCH_SIZE: int := 500

  /** The `IllegalArgumentException` thrown for a batch size below 1. */
  datatype BatchError = BatchSizeTooSmall

  function Min(a: int, b: int): int {
    if a <= b then a else b
  }

  /** The elements of the batches, batch after batch. */
  function Flatten<T>(bs: seq<seq<T>>): seq<T> {
    if |bs| == 0 then [] else bs[0] + Flatten(bs[1..])
  }

  /** Reference partition: the first `b` elements, then the rest split the
      same way. */
  function Chunks<T>(data: seq<T>, b: nat): (r: seq<seq<T>>)
    requires b >= 1
    decreases |data|
  {
    if |data| == 0 then []
    else if |data| <= b then [data]
    else [data[..b]] + Chunks(data[b..], b)
  }

  /** The batches hold the input, in order, each element once. */
  lemma {:induction false} ChunksFlatten<T>(data: seq<T>, b: nat)
    requires b >= 1
    ensures Flatten(Chunks(data, b)) == data
    decreases |data|
  {
    if |data| > 0 {
      if |data| <= b {
        assert Flatten([data]) == data + Flatten([]);
      } else {
        var rest := Chunks(data[b..], b);
        ChunksFlatten(data[b..], b);
        assert ([data[..b]] + rest)[1..] == rest;
        assert data == data[..b] + data[b..];
      }
    }
  }

  /** Every batch is non-empty and at most `b` long, all but the last are
      exactly `b` long, and there are ceil(n / b) of them. */
  lemma {:induction false} ChunkShape<T>(data: seq<T>, b: nat)
    requires b >= 1
    ensures var r := Chunks(data, b);
            && (forall k :: 0 <= k < |r| ==> 0 < |r[k]| <= b)
            && (forall k :: 0 <= k < |r| - 1 ==> |r[k]| == b)
            && (|data| == 0 <==> |r| == 0)
            && (|r| > 0 ==> (|r| - 1) * b < |data| <= |r| * b)
    decreases |data|
  {
    if |data| > b {
      var rest := Chunks(data[b..], b);
      ChunkShape(data[b..], b);
      assert Chunks(data, b) == [data[..b]] + rest;
      CountStep(|rest|, b, |data| - b);
    }
  }

  lemma CountStep(m: nat, b: nat, n: nat)
    requires m >= 1 && b >= 1 && (m - 1) * b < n <= m * b
    ensures m * b < n + b <= (m + 1) * b
  {
  }

  /** One step of the partition, from any position: the batch starting
      at i, then the partition of what follows it. */
  lemma ChunksFrom<T>(data: seq<T>, i: nat, b: nat)
    requires b >= 1 && i < |data|
    ensures Chunks(data[i..], b) == [data[i..Min(i + b, |data|)]] + Chunks(data[Min(i + b, |data|)..], b)
  {
    var s := data[i..];
    if |s| > b {
      assert s[..b] == data[i..i + b];
      assert s[b..] == data[i + b..];
    } else {
      assert Chunks(s, b) == [s];
      assert Min(i + b, |data|) == |data|;
      assert Chunks(data[|data|..], b) == [];
      assert data[i..Min(i + b, |data|)] == s;
      assert [s] + [] == [s];
    }
  }

  /** The partition by position: the batch starting at index i, then the
      batches from i + b on. This is how both save loops walk the input. */
  function ChunksAt<T>(data: seq<T>, i: nat, b: nat): seq<seq<T>>
    requires b >= 1
    decreases |data| - i
  {
    if i >= |data| then [] else [data[i..Min(i + b, |data|)]] + ChunksAt(data, i + b, b)
  }

  /** Walking by position gives the reference partition of what is left. */
  lemma {:induction false} ChunksAtIsChunks<T>(data: seq<T>, i: nat, b: nat)
    requires b >= 1 && i <= |data|
    ensures ChunksAt(data, i, b) == Chunks(data[i..], b)
    decreases |data| - i
  {
    if i < |data| {
      ChunksFrom(data, i, b);
      var next := Min(i + b, |data|);
      ChunksAtIsChunks(data, next, b);
      if i + b > |data| {
        assert ChunksAt(data, i + b, b) == [] == ChunksAt(data, next, b);
      }
    }
  }

  /** `saveDataInBatches(repository, data, batchSize)`: the `saveAll`
      calls it makes, or the exception it throws. `repositoryPresent` and
      `data` stand for the two arguments that may be null. */
  method SaveDataInBatches<T>(repositoryPresent: bool, data: Option<seq<T>>, batchSize: int)
    returns (r: Result<seq<seq<T>>, BatchError>)
    ensures r.Err? <==> batchSize < 1
    ensures batchSize >= 1 && (!repositoryPresent || data.None?) ==> r == Ok([])
    ensures batchSize >= 1 && repositoryPresent && data.Some? ==> r == Ok(Chunks(data.value, batchSize))
  {
    if batchSize < 1 {
      return Err(BatchSizeTooSmall);
    }
    if !repositoryPresent || data.None? {
      return Ok([]);
    }
    var list := data.value;
    if |list| == 0 {
      return Ok([]);
    }
    var saved: seq<seq<T>> := [];
    var i := 0;
    while i < |list|
      invariant saved + ChunksAt(list, i, batchSize) == ChunksAt(list, 0, batchSize)
      decreases |list| - i
    {
      var end := Min(i + batchSize, |list|);
      var batch := list[i..end];
      saved := saved + [batch];
      i := i + batchSize;
    }
    assert ChunksAt(list, i, batchSize) == [];
    assert saved + [] == saved;
    ChunksAtIsChunks(list, 0, batchSize);
    assert list[0..] == list;
    return Ok(saved);
  }

  /** The two-argument overload: batches of 500. */
  method SaveDataInDefaultBatches<T>(repositoryPresent: bool, data: Option<seq<T>>)
    returns (r: Result<seq<seq<T>>, BatchError>)
    ensures repositoryPresent && data.Some? ==> r == Ok(Chunks(data.value, DEFAULT_SAVE_BATCH_SIZE))
    ensures !repositoryPresent || data.None? ==> r == Ok([])
  {
    r := SaveDataInBatches(repositoryPresent, data, DEFAULT_SAVE_BATCH_SIZE);
  }

  /** The analyzers' own save loop: rows are appended to a buffer that is
      saved and cleared as soon as it holds `limit` rows; what is left is
      saved at the end. */
  method BufferedSave<T>(rows: seq<T>, limit: nat) returns (saved: seq<seq<T>>)
    requires limit >= 1
    ensures saved == Chunks(rows, limit)
  {
    saved := [];
    var buffer: seq<T> := [];
    var start := 0;
    var i := 0;
    while i < |rows|
      invariant 0 <= start <= i <= |rows| && i - start < limit
      invariant buffer == rows[start..i]
      invariant saved + ChunksAt(rows, start, limit) == ChunksAt(rows, 0, limit)
    {
      SliceSnoc(rows, start, i);
      buffer := buffer + [rows[i]];
      i := i + 1;
      if |buffer| >= limit {
        assert Min(start + limit, |rows|) == i;
        saved := saved + [buffer];
        buffer := [];
        start := i;
      }
    }
    if |buffer| > 0 {
      assert Min(start + limit, |rows|) == i;
      assert ChunksAt(rows, start + limit, limit) == [];
      saved := saved + [buffer];
    }
    ChunksAtIsChunks(rows, 0, limit);
    assert rows[0..] == rows;
  }

  lemma SliceSnoc<T>(rows: seq<T>, start: nat, i: nat)
    requires start <= i < |rows|
    ensures rows[start..i] + [rows[i]] == rows[start..i + 1]
  {
  }
}
