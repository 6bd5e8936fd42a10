/** The `tests` table: every benchmark the command can run, by name, and
    `testnames`, which lists those names in order. */
module Registry {
  import opened Storage
  import opened Strings
  import SeqWrite
  import BatchWrite

  /** `concurrentWrite{Options, N, NoWriteMerge}`; its behaviour is not part
      of this model, only its place in the table. */
  datatype ConcurrentConfig = ConcurrentConfig(options: Options, n: int, noWriteMerge: bool)

  /** A `Benchmarker`: one of the three write strategies with its settings. */
  datatype Benchmarker =
    | Sequential(seqCfg: SeqWrite.Config)
    | Batched(batchCfg: BatchWrite.Config)
    | Concurrent(concCfg: ConcurrentConfig)

  const NoSync: Options := Options(noSync := true, disableLargeBatchTransaction := false)

  const NoLargeBatchTransaction: Options := Options(noSync := false, disableLargeBatchTransaction := true)

  /** The table as written, including that "batch-notx-100kb" is given a
      BatchSize of 1 MiB, not 100 KiB. */
  const Tests: map<string, Benchmarker> := map[
    "nobatch" := Sequential(SeqWrite.Config(DefaultOptions)),
    "nobatch-nosync" := Sequential(SeqWrite.Config(NoSync)),
    "batch-100kb" := Batched(BatchWrite.Config(DefaultOptions, 100 * 1024)),
    "batch-1mb" := Batched(BatchWrite.Config(DefaultOptions, 1024 * 1024)),
    "batch-5mb" := Batched(BatchWrite.Config(DefaultOptions, 5 * 1024 * 1024)),
    "batch-100kb-nosync" := Batched(BatchWrite.Config(NoSync, 100 * 1024)),
    "batch-notx-100kb" := Batched(BatchWrite.Config(NoLargeBatchTransaction, 1024 * 1024)),
    "batch-notx-1mb" := Batched(BatchWrite.Config(NoLargeBatchTransaction, 1024 * 1024)),
    "batch-notx-5mb" := Batched(BatchWrite.Config(NoLargeBatchTransaction, 5 * 1024 * 1024)),
    "concurrent" := Concurrent(ConcurrentConfig(DefaultOptions, 8, false)),
    "concurrent-nomerge" := Concurrent(ConcurrentConfig(DefaultOptions, 8, true))
  ]

  /** The loop and sort of `testnames()`, for any map with string keys: the
      keys are collected in whatever order the map yields them, then
      sorted. The result lists every key exactly once, in strictly ascending
      code-point order, which is the same as UTF-8 byte order. */
  method SortedKeys<V>(m: map<string, V>) returns (n: seq<string>)
    ensures Sorted(n) && Distinct(n)
    ensures forall name :: name in n <==> name in m
    ensures |n| == |m|
  {
    var names: seq<string> := [];
    var rest := m.Keys;
    while rest != {}
      invariant rest <= m.Keys
      invariant forall name :: name in names <==> name in m && name !in rest
      invariant Distinct(names)
      invariant |names| + |rest| == |m|
      decreases rest
    {
      var name :| name in rest;
      names := names + [name];
      rest := rest - {name};
    }
    n := Sort(names);
    assert |n| == |names| by {
      assert |multiset(n)| == |multiset(names)|;
    }
  }

  /** `testnames()`: every test name exactly once, strictly ascending. */
  method TestNames() returns (n: seq<string>)
    ensures Sorted(n) && Distinct(n)
    ensures forall name :: name in n <==> name in Tests
    ensures |n| == |Tests|
  {
    n := SortedKeys(Tests);
  }

  /** `testnames()` has one possible result, whatever order the map yields
      its keys in: any two strictly ascending listings of the keys of
      `tests` are equal. */
  lemma TestNamesDetermined(n: seq<string>, m: seq<string>)
    requires Sorted(n) && Distinct(n)
    requires forall name :: name in n <==> name in Tests
    requires Sorted(m) && Distinct(m)
    requires forall name :: name in m <==> name in Tests
    ensures n == m
  {
    SortedUnique(n, m);
  }

  /** The "batch-notx-100kb" quirk: it runs exactly the benchmark that
      "batch-notx-1mb" runs, and differs from "batch-100kb" only in its
      options and its 1 MiB threshold. */
  lemma NoTx100kbIsNoTx1mb()
    ensures Tests["batch-notx-100kb"] == Tests["batch-notx-1mb"]
    ensures Tests["batch-notx-100kb"].batchCfg.batchSize == 1024 * 1024 != Tests["batch-100kb"].batchCfg.batchSize
  {
  }

  /** No test name is empty or holds a comma, so each can be picked out of a
      comma-separated list. */
  lemma NamesAreSelectable()
    ensures "" !in Tests
    ensures forall name :: name in Tests ==> ',' !in name
  {
  }
}
