# ldb-writebench write logic in Dafny

This project models the write logic of `ldb-writebench`. That command runs
named write benchmarks against a leveldb database. The model covers:

- the sequential strategy (`seqWrite`): one put per key/value pair;
- the batched strategy (`batchWrite`): pairs collect in a pending batch that
  is written atomically once its value bytes reach `BatchSize`, or when the
  workload hands over its last pair;
- the `tests` registry and `testnames`;
- the parts of `main` that pick the tests named by `-test` and decide whether
  the whole run failed.

The external collaborators become plain data:

- The workload environment's `env.Run` is `Driver.RunFrom`. It folds a
  callback over a finite sequence of pairs, sets `lastCall` on the final
  pair only, and stops at the first error the callback returns.
  `env.Progress` appends to a sequence of reported amounts.
- The database is `Storage.Db`: a log of accepted writes (`Put` or `Batch`)
  and a fault oracle. The oracle is a map from write-attempt number to the
  error that attempt returns. `Storage.PutPair` and `Storage.WriteBatch`
  stand for `db.Put` and `db.Write`. An error from `leveldb.OpenFile` is a
  parameter of each `Benchmark`.
- `runTest` is replaced by one given result per selected test.

Modules: `Results` (Option/Result), `Storage`, `Driver`, `SeqWrite`,
`BatchWrite`, `Strings` (Go's `strings.Split`/`Join` and `sort.Strings`),
`Registry` and `Cli`.

The registry is transcribed as written. That includes the entry
"batch-notx-100kb", which has a `BatchSize` of 1 MiB and so runs the same
benchmark as "batch-notx-1mb" (`Registry.NoTx100kbIsNoTx1mb`).

Two consequences of the order of operations in `batchWrite`'s callback:

- A flush can never write an empty batch. The pair is appended before the
  threshold test, so every accepted batch write holds at least one pair
  (`BatchWrite.Benchmark`).
- A failed batch write does not discard the pending pairs. The batch and
  `bsize` are left as they were, with the failed pair included, and the run
  ends (`BatchWrite.Step`, `BatchWrite.RunEnds`).

## Model

| member | source | states |
|---|---|---|
| Driver.RunFrom | cmd/ldb-writebench/ldb-writebench.go:147-159 | The driver hands at most all pairs to the callback. A run that returns nil was handed every pair. A run that returns an error stopped after handing over at least one pair. |
| Driver.RunCalls | cmd/ldb-writebench/ldb-writebench.go:147-159 | Call `k` is handed `items[k]`, with `lastCall` set exactly when it is the final pair. Every call before the run's last one returned nil. The run's final state and error are the last call's, so the run stops at the first error and returns it. |
| Storage.PutPair | cmd/ldb-writebench/ldb-writebench.go:125 | `db.Put` succeeds exactly when the attempt is not a fault. On success, exactly one `Put` of the pair is added to the log. On failure, the attempt's error is returned. |
| Storage.WriteBatch | cmd/ldb-writebench/ldb-writebench.go:151 | `db.Write` of a batch is all or nothing. It succeeds exactly when the attempt is not a fault, and it then adds the whole batch to the log as a single write. On failure, only the attempt's error is returned, with no new database state. |
| SeqWrite.Step | cmd/ldb-writebench/ldb-writebench.go:124-130 | Each callback makes exactly one put attempt, which succeeds exactly when the engine accepts it. On success the log gains `Put(key, value)` and progress gains `len(value)`. On failure the engine's error is returned and nothing is reported. |
| SeqWrite.RunPuts | cmd/ldb-writebench/ldb-writebench.go:124-130 | Over any stretch of a run, the accepted puts are those of the delivered pairs, in delivery order, minus the one whose put failed. Every accepted put keeps its single progress report. |
| SeqWrite.RunStops | cmd/ldb-writebench/ldb-writebench.go:124-130 | No write before the stopping point met a fault. A run that stops on a failed put returns exactly that attempt's error. |
| SeqWrite.Benchmark | cmd/ldb-writebench/ldb-writebench.go:118-131 | An open error is returned with no write and no progress. Otherwise the log holds puts of a prefix of the workload, in order, each reported with its value length. No put before the last attempt met a fault. Success means every pair was put. Failure means a proper prefix was put and the first faulting attempt's error was returned. |
| SeqWrite.SuccessWritesAll | cmd/ldb-writebench/ldb-writebench.go:124-130 | When the run returns nil, the pairs stored are exactly the workload, and the progress reports add up to its total value bytes. |
| BatchWrite.Step | cmd/ldb-writebench/ldb-writebench.go:147-159 | A batch write is issued exactly when `bsize + len(value) >= BatchSize` or `lastCall`. An accepted flush writes `batch + [pair]`, reports that byte count, and resets the batch and `bsize` to empty and 0. With no flush, the pair stays pending and nothing is reported. A failed flush returns the engine's error, leaves the grown batch and `bsize` unreset, and reports nothing. The written plus pending pairs always grow by exactly this pair. After an error-free callback, less than `BatchSize` is pending unless the batch is empty. |
| BatchWrite.StepKeepsValid | cmd/ldb-writebench/ldb-writebench.go:148-156 | Each callback preserves three facts: `bsize` is the sum of the pending values' lengths, every progress report matches one accepted write, and every accepted write is a nonempty batch. |
| BatchWrite.RunKeepsValid | cmd/ldb-writebench/ldb-writebench.go:147-159 | The same invariant holds after any stretch of a run, and the run never changes the fault oracle. |
| BatchWrite.RunConservesPairs | cmd/ldb-writebench/ldb-writebench.go:147-159 | The written batches, concatenated, followed by the pending batch, equal the pairs delivered so far, in order. No pair is lost, duplicated or reordered. |
| BatchWrite.RunAppends | cmd/ldb-writebench/ldb-writebench.go:150-153 | A run only appends to the database log. None of the write attempts it got past failed. |
| BatchWrite.RunEnds | cmd/ldb-writebench/ldb-writebench.go:150-158 | A run that completes with at least one pair ends with nothing pending. A run that fails returns the failing attempt's error, and its pending batch is not empty. |
| BatchWrite.FailedPairPending | cmd/ldb-writebench/ldb-writebench.go:148-153 | When a run fails, the last pair delivered, whose flush failed, is still the last pair of the pending batch. |
| BatchWrite.StepThresholds | cmd/ldb-writebench/ldb-writebench.go:148-153 | A batch the callback writes was below `BatchSize`, or empty, before its last pair. It reached `BatchSize` unless this was the last call. |
| BatchWrite.RunThresholds | cmd/ldb-writebench/ldb-writebench.go:147-159 | Over a run, every batch written was below `BatchSize` until its last pair. Every batch except the final one reached `BatchSize`, so only `lastCall` writes a batch that stays below it. A failed run never reached its `lastCall` flush, so every batch it wrote reached `BatchSize`. |
| BatchWrite.InitialRun | cmd/ldb-writebench/ldb-writebench.go:145-159 | From a fresh batch on a fresh database, the whole run keeps the accounting, and no write before the last attempt met a fault. On success the stored pairs are the workload. On failure they are a proper prefix, and the error is the first fault. |
| BatchWrite.Benchmark | cmd/ldb-writebench/ldb-writebench.go:138-160 | An open error is returned with nothing written. Every accepted write is one nonempty batch with one progress report of its byte count. No write before the last attempt met a fault. Each batch was below `BatchSize` until its last pair, and every batch but the final one reached `BatchSize`. A successful run stores the workload exactly and reports its total value bytes. A failed run stores a proper prefix, every batch it wrote reached `BatchSize`, and it returns the first faulting attempt's error. |
| BatchWrite.UniformRun | cmd/ldb-writebench/ldb-writebench.go:147-159 | With a 100 KiB threshold, 100-byte values and no faults, `j` pending plus `m` delivered pairs, where `j + m - 1 = 1024q + t`, give progress reports of `q` full batches of 102,400 bytes followed by one last batch of `100(t + 1)` bytes. |
| BatchWrite.TenThousandValues | cmd/ldb-writebench/ldb-writebench.go:145-159 | 10,000 values of 100 bytes with a 100 KiB threshold give exactly 10 flushes: nine of 102,400 bytes and a last one of 78,400 bytes. The last is below the threshold, so only `lastCall` triggers it. |
| Registry.TestNames | cmd/ldb-writebench/ldb-writebench.go:106-112 | The result lists every key of `tests` exactly once and nothing else, in strictly ascending code-point order, which is UTF-8 byte order. |
| Registry.SortedKeys | cmd/ldb-writebench/ldb-writebench.go:106-112 | For any map with string keys, the keys are collected in whatever order the map yields them and then sorted. The result lists every key exactly once and nothing else, in strictly ascending code-point order. |
| Registry.TestNamesDetermined | cmd/ldb-writebench/ldb-writebench.go:106-112 | Although the map yields its keys in no fixed order, `testnames()` has one possible result: any two strictly ascending listings of the keys of `tests` are equal. |
| Registry.NoTx100kbIsNoTx1mb | cmd/ldb-writebench/ldb-writebench.go:90-97 | "batch-notx-100kb" has the same strategy and settings as "batch-notx-1mb". Its threshold is 1 MiB, unlike the 100 KiB of "batch-100kb". |
| Registry.NamesAreSelectable | cmd/ldb-writebench/ldb-writebench.go:80-104 | No test name is empty or contains a comma. |
| Strings.Split | cmd/ldb-writebench/ldb-writebench.go:33 | Splitting yields at least one piece. No piece contains the separator. Joining the pieces with the separator gives back the input. |
| Strings.SplitJoin | cmd/ldb-writebench/ldb-writebench.go:33 | Splitting a join of separator-free parts gives back exactly those parts. |
| Strings.SortedUnique | cmd/ldb-writebench/ldb-writebench.go:110 | Two strictly ascending lists with the same elements are equal, so a sorted listing of a set of names is unique. |
| Strings.Sort | cmd/ldb-writebench/ldb-writebench.go:110 | The result is in ascending code-point order, which is UTF-8 byte order, and is a permutation (same multiset) of the input. It is free of duplicates when the input is. |
| Cli.SelectNames | cmd/ldb-writebench/ldb-writebench.go:33-38 | Selection succeeds exactly when every name is a key of `tests`, and then returns the names in their given order, duplicates included. Otherwise it fails with the first unknown name. |
| Cli.SelectTests | cmd/ldb-writebench/ldb-writebench.go:33-41 | The `-test` value is accepted exactly when every comma-separated piece names a test. The selection is then that split list. |
| Cli.NoTestsUnreachable | cmd/ldb-writebench/ldb-writebench.go:39-41 | The "no tests to run" outcome can never occur. An empty `-test` is rejected as the unknown test "". |
| Cli.SelectJoined | cmd/ldb-writebench/ldb-writebench.go:33-38 | Selecting a comma-joined nonempty list of known names returns that list. |
| Cli.RunAll | cmd/ldb-writebench/ldb-writebench.go:52-61 | Every selected test is run, including those after a failure. The failures are collected in run order. The run as a whole fails exactly when some test returned an error. |
| Cli.FailedCount | cmd/ldb-writebench/ldb-writebench.go:52-61 | The list of failed tests is empty exactly when every test returned nil, and it is never longer than the run. |

## Left out

- `concurrentWrite.Benchmark` (worker pool, channel hand-off, context cancellation, `errgroup`) is not modelled. Its behaviour depends on goroutine scheduling. Its two registry entries are kept as data only.
- leveldb itself is not modelled. `OpenFile` becomes an optional open error. `Put` and `Write` become appends to a log with a fault oracle. `opt.Options` becomes two opaque flags. The write options `nil` are not represented.
- The error from `db.Close`, which `defer` discards, is not modelled.
- The write attempts are numbered by the count of accepted writes. This is exact only because both strategies stop at their first failed write.
- The internals of `bench.Env` are not modelled. This covers `Run`'s key/value generation, timing and logging, `Progress`'s bookkeeping, and `NewEnv`. The workload is a given finite sequence of pairs.
- `bench.ParseSize` and the `-size`, `-valuesize` and `-keysize` checks (lines 42-50) are not modelled. They are size parsing in an external package.
- `runTest` (log-file creation, `io.MultiWriter`, `filepath.Join`), `flag` parsing, `log` output and the process exit are I/O. Each test's outcome is an input to `Cli.RunAll`.
- Driver.RunFrom: its own contract only counts deliveries. The per-call facts (which pair each call is handed, its `lastCall` flag, and stopping at the first error) are stated in `Driver.RunCalls`. This keeps the contract cheap where the benchmark proofs use it.
- BatchWrite.Step: `bsize` is an unbounded natural number, so Go's 64-bit `int` wrap-around is not modelled. Reaching it would take more than 2^63 pending bytes.
- Strings.Sort: strings are compared by character rather than by UTF-8 byte. The two orders agree on the ASCII test names.
