/**
 * The batch loop at the end of scraping_OFF_dict.py (lines 391-421): a cursor
 * hands out consecutive ranges of listing pages to workers, `threads` workers
 * per batch, and each worker harvests its range and saves it when non-empty.
 */
module Scheduler {
  import opened Wrappers
  import opened Text
  import opened Records
  import opened Harvest

  /**
   * The loop's parameters: the first page (`ctr = 1`), the pages per worker
   * (`count`), the batch bound (`nb_iter`: batches `1 .. nb_iter - 1`) and the
   * workers per batch (`nb_threads`).
   */
  datatype Config = Config(first: int, count: nat, iterations: nat, threads: nat)

  /** The values the script runs with (lines 413-416). */
  const Default := Config(1, 20, 52, 8)

  /** A `GeProductThread`: its id, its name, and its page range `[startIndex, endIndex)`. */
  datatype Worker = Worker(id: int, name: string, startIndex: int, endIndex: int)

  /** `range(1, nb_iter)` runs `nb_iter - 1` batches. */
  function Batches(c: Config): nat
  {
    if c.iterations >= 1 then c.iterations - 1 else 0
  }

  /** The position of worker `th` of batch `i` in the order the cursor hands out ranges. */
  function Slot(c: Config, i: int, th: int): int
  {
    (i - 1) * c.threads + th
  }

  /** The first page of worker `th` of batch `i`. */
  function ChunkStart(c: Config, i: int, th: int): int
  {
    c.first + Slot(c, i, th) * c.count
  }

  /** Worker `th` of batch `i`, as the inner loop creates it (line 420). */
  function WorkerFor(c: Config, i: int, th: int): (w: Worker)
    ensures w.endIndex - w.startIndex == c.count
  {
    Worker(c.iterations * th + i, "Thread-" + IntToString(i) + "." + IntToString(th),
      ChunkStart(c, i, th), ChunkStart(c, i, th) + c.count)
  }

  /** The next worker of a batch starts where the previous one ends. */
  lemma NextChunk(c: Config, i: int, th: int)
    ensures ChunkStart(c, i, th + 1) == ChunkStart(c, i, th) + c.count
  {
    assert Slot(c, i, th + 1) == Slot(c, i, th) + 1;
  }

  /** The first worker of a batch starts where the previous batch ends. */
  lemma NextBatch(c: Config, i: int)
    ensures ChunkStart(c, i + 1, 0) == ChunkStart(c, i, c.threads)
  {
    assert Slot(c, i + 1, 0) == Slot(c, i, c.threads);
  }

  /** Worker `th` of batch `i` exists. */
  predicate Scheduled(c: Config, i: int, th: int)
  {
    1 <= i < c.iterations && 0 <= th < c.threads
  }

  /** `a * n` and `b * n` are at least `n` apart when `a < b`. */
  lemma MulGap(a: int, b: int, n: nat)
    requires a < b
    ensures a * n + n <= b * n
  {
    var d := b - a;
    assert b * n == a * n + d * n;
    assert d * n == (d - 1) * n + n;
    assert (d - 1) * n >= 0;
  }

  /** Two scheduled workers share a slot only when they are the same worker. */
  lemma SlotInjective(c: Config, i: int, th: int, i': int, th': int)
    requires Scheduled(c, i, th) && Scheduled(c, i', th')
    requires Slot(c, i, th) == Slot(c, i', th')
    ensures i == i' && th == th'
  {
    if i < i' {
      MulGap(i - 1, i' - 1, c.threads);
    } else if i' < i {
      MulGap(i' - 1, i - 1, c.threads);
    }
  }

  /** The ranges of two different scheduled workers do not overlap. */
  lemma ChunksDisjoint(c: Config, i: int, th: int, i': int, th': int)
    requires Scheduled(c, i, th) && Scheduled(c, i', th')
    requires i != i' || th != th'
    ensures var w, w' := WorkerFor(c, i, th), WorkerFor(c, i', th');
      w.endIndex <= w'.startIndex || w'.endIndex <= w.startIndex
  {
    var s, s' := Slot(c, i, th), Slot(c, i', th');
    if s == s' {
      SlotInjective(c, i, th, i', th');
    } else if s < s' {
      MulGap(s, s', c.count);
    } else {
      MulGap(s', s, c.count);
    }
  }

  /** Euclidean division of `q` by `n` brackets `q` between two multiples of `n`. */
  lemma DivBounds(q: int, n: nat)
    requires n > 0
    ensures (q / n) * n <= q < (q / n) * n + n
    ensures q == (q / n) * n + q % n
  {
  }

  /** Multiplying by a non-negative number keeps `<=`. */
  lemma MulLe(a: int, b: int, n: nat)
    requires a <= b
    ensures a * n <= b * n
  {
    if a < b {
      MulGap(a, b, n);
    }
  }

  /**
   * An offset `q` below `b * t * n` falls in chunk `s = q / n`, which is worker
   * `s % t` of row `s / t`, a row below `b`.
   */
  lemma CoverArith(q: int, n: nat, t: nat, b: nat)
    requires n > 0 && t > 0 && 0 <= q < b * t * n
    ensures var s := q / n;
      && s * n <= q < s * n + n
      && 0 <= s / t < b && 0 <= s % t < t && s == (s / t) * t + s % t
  {
    ChunkOf(q, n, b * t);
    RowOf(q / n, t, b);
  }

  /** Offset `q` below `m * n` lies in chunk `q / n` of size `n`, a chunk below `m`. */
  lemma ChunkOf(q: int, n: nat, m: int)
    requires n > 0 && 0 <= q < m * n
    ensures (q / n) * n <= q < (q / n) * n + n && 0 <= q / n < m
  {
    DivBounds(q, n);
    BelowProduct(q / n, m, n, q);
  }

  /** Chunk `s` below `b * t` is worker `s % t` of row `s / t`, a row below `b`. */
  lemma RowOf(s: int, t: nat, b: int)
    requires t > 0 && 0 <= s < b * t
    ensures 0 <= s / t < b && 0 <= s % t < t && s == (s / t) * t + s % t
  {
    DivBounds(s, t);
    BelowProduct(s / t, b, t, s);
  }

  /** `x * n <= q < y * n` puts `x` below `y`. */
  lemma BelowProduct(x: int, y: int, n: nat, q: int)
    requires x * n <= q < y * n
    ensures x < y
  {
    if x >= y {
      MulLe(y, x, n);
      assert false;
    }
  }

  /** The ranges together cover `[first, first + batches * threads * count)`. */
  lemma ChunksCover(c: Config, p: int)
    requires c.count > 0 && c.threads > 0
    requires c.first <= p < c.first + Batches(c) * c.threads * c.count
    ensures exists i, th :: (Scheduled(c, i, th)
      && WorkerFor(c, i, th).startIndex <= p < WorkerFor(c, i, th).endIndex)
  {
    var q := p - c.first;
    CoverArith(q, c.count, c.threads, Batches(c));
    var s := q / c.count;
    var row, th := s / c.threads, s % c.threads;
    var i := row + 1;
    assert Slot(c, i, th) == s;
    assert Scheduled(c, i, th);
    assert WorkerFor(c, i, th).startIndex == c.first + s * c.count;
  }

  /** The worker ids `nb_iter * th + i` are pairwise distinct. */
  lemma IdsDistinct(c: Config, i: int, th: int, i': int, th': int)
    requires Scheduled(c, i, th) && Scheduled(c, i', th')
    requires WorkerFor(c, i, th).id == WorkerFor(c, i', th').id
    ensures i == i' && th == th'
  {
    assert c.iterations * th == th * c.iterations && c.iterations * th' == th' * c.iterations;
    if th < th' {
      MulGap(th, th', c.iterations);
    } else if th' < th {
      MulGap(th', th, c.iterations);
    }
  }

  /** Worker 163 of the script is worker 3 of batch 7 and harvests pages 1021 to 1040. */
  lemma Worker163()
    ensures Scheduled(Default, 7, 3)
    ensures WorkerFor(Default, 7, 3).id == 163
    ensures WorkerFor(Default, 7, 3).startIndex == 1021 && WorkerFor(Default, 7, 3).endIndex == 1041
  {
  }

  /**
   * The batch loop: the workers of each batch in creation order, and the final
   * cursor. Worker `th` of batch `i` is `WorkerFor(c, i, th)`, and after the
   * last batch the cursor has moved past every range handed out.
   */
  method Schedule(c: Config) returns (batches: seq<seq<Worker>>, ctr: int)
    ensures |batches| == Batches(c)
    ensures forall b :: 0 <= b < |batches| ==> |batches[b]| == c.threads
    ensures forall b, th :: 0 <= b < |batches| && 0 <= th < c.threads ==> batches[b][th] == WorkerFor(c, b + 1, th)
    ensures ctr == c.first + Batches(c) * c.threads * c.count
  {
    ctr := c.first;
    batches := [];
    var i := 1;
    while i < c.iterations
      invariant 1 <= i && (i <= c.iterations || i == 1)
      invariant |batches| == i - 1
      invariant forall b :: 0 <= b < |batches| ==> |batches[b]| == c.threads
      invariant forall b, th :: 0 <= b < |batches| && 0 <= th < c.threads ==> batches[b][th] == WorkerFor(c, b + 1, th)
      invariant ctr == ChunkStart(c, i, 0)
    {
      var threads: seq<Worker> := [];
      var th := 0;
      while th < c.threads
        invariant 0 <= th <= c.threads
        invariant |threads| == th
        invariant forall t :: 0 <= t < th ==> threads[t] == WorkerFor(c, i, t)
        invariant ctr == ChunkStart(c, i, th)
      {
        var w := Worker(c.iterations * th + i, "Thread-" + IntToString(i) + "." + IntToString(th), ctr, ctr + c.count);
        assert w == WorkerFor(c, i, th);
        threads := threads + [w];
        NextChunk(c, i, th);
        ctr := ctr + c.count;
        th := th + 1;
      }
      NextBatch(c, i);
      batches := batches + [threads];
      i := i + 1;
    }
    LastCursor(c, i);
  }

  /** After the last batch the cursor stands past all `Batches(c) * threads` ranges. */
  lemma LastCursor(c: Config, i: int)
    requires 1 <= i && (i <= c.iterations || i == 1) && !(i < c.iterations)
    ensures ChunkStart(c, i, 0) == c.first + Batches(c) * c.threads * c.count
  {
    assert i - 1 == Batches(c);
    assert Slot(c, i, 0) == Batches(c) * c.threads;
  }

  /** Where worker `id` saves its records (line 405). */
  function OutputPath(id: int): string
  {
    "/Users/gmidenfatma/Documents/dev/python/scraping_OFF/files_csv/output_" + IntToString(id) + ".csv"
  }

  /** Different workers save to different files. */
  lemma OutputPathInjective(id: int, id': int)
    requires OutputPath(id) == OutputPath(id')
    ensures id == id'
  {
    var prefix := "/Users/gmidenfatma/Documents/dev/python/scraping_OFF/files_csv/output_";
    var p, p' := OutputPath(id), OutputPath(id');
    assert p[|prefix|..|p| - 4] == IntToString(id);
    assert p'[|prefix|..|p'| - 4] == IntToString(id');
    IntToStringInjective(id, id');
  }

  /**
   * `GeProductThread.run` (lines 399-407): the records of the worker's pages,
   * saved to its file only when there is at least one.
   */
  method RunWorker(site: Site, w: Worker) returns (saved: Option<(string, seq<Record>)>)
    ensures var records := AllProducts(site, w.startIndex, w.endIndex);
      && (saved.Some? <==> |records| > 0)
      && (saved.Some? ==> saved.value == (OutputPath(w.id), records))
  {
    var myProducts := GetAllProducts(site, w.startIndex, w.endIndex);
    saved := None;
    if |myProducts| > 0 {
      saved := Some((OutputPath(w.id), myProducts));
    }
  }
}
