/** `batchWrite.Benchmark`: pairs are collected into a pending batch, and the
    batch is written in one atomic write once the value bytes collected reach
    `BatchSize`, or when the driver hands over its last pair. */
module BatchWrite {
  import opened Results
  import opened Storage
  import opened Driver

  /** `batchWrite{Options, BatchSize}`. */
  datatype Config = Config(options: Options, batchSize: int)

  /** The callback's closure: the pending `leveldb.Batch`, the running byte
      count `bsize`, and the database and progress it writes to. */
  datatype State = State(batch: seq<Pair>, bsize: nat, world: World)

  /** True when the step from `s` to `r` issued a batch write, whether the
      engine accepted it or not. */
  predicate Issued(s: State, r: (State, Option<Error>))
  {
    r.1.Some? || r.0.world.db.log != s.world.db.log
  }

  /** What holds between callbacks: `bsize` counts the pending value bytes,
      every progress report matches one accepted write, and every accepted
      write is a nonempty batch. */
  predicate Valid(s: State)
  {
    && s.bsize == TotalLen(s.batch)
    && Accounted(s.world)
    && BatchLog(s.world.db.log)
  }

  /** Every accepted write is a nonempty batch. */
  predicate BatchLog(log: seq<Write>)
  {
    forall i :: 0 <= i < |log| ==> log[i].Batch? && |log[i].pairs| > 0
  }

  /** The callback body, for one pair. */
  function Step(cfg: Config, s: State, p: Pair, lastCall: bool): (r: (State, Option<Error>))
    // a write is issued exactly when the count including this value reaches
    // the threshold, or this is the last pair
    ensures Issued(s, r) <==> s.bsize + |p.value| >= cfg.batchSize || lastCall
    // an accepted flush reports the flushed bytes, then empties the batch
    ensures r.1.None? && Issued(s, r) ==>
      && r.0.batch == [] && r.0.bsize == 0
      && r.0.world.db.log == s.world.db.log + [Batch(s.batch + [p])]
      && r.0.world.progress == s.world.progress + [s.bsize + |p.value|]
    // otherwise the pair stays pending and nothing is reported
    ensures !Issued(s, r) || r.1.Some? ==>
      && r.0 == s.(batch := s.batch + [p], bsize := s.bsize + |p.value|)
    // a failed write returns the engine's error for that attempt
    ensures r.1.Some? <==> Issued(s, r) && NextAttempt(s.world.db) in s.world.db.faults
    ensures r.1.Some? ==> r.1.value == s.world.db.faults[NextAttempt(s.world.db)]
    // nothing is lost: the written and the pending pairs grow by exactly `p`
    ensures Written(r.0.world.db.log) + r.0.batch == Written(s.world.db.log) + s.batch + [p]
    // an error-free step leaves less than a full batch pending
    ensures r.1.None? ==> r.0.batch == [] || r.0.bsize < cfg.batchSize
    ensures r.0.world.db.faults == s.world.db.faults
  {
    var batch := s.batch + [p];
    var bsize := s.bsize + |p.value|;
    WrittenSnoc(s.world.db.log, Batch(batch));
    if bsize >= cfg.batchSize || lastCall then
      match WriteBatch(s.world.db, batch)
      case Failure(e) => (s.(batch := batch, bsize := bsize), Some(e))
      case Success(db) => (State([], 0, World(db, s.world.progress + [bsize])), None)
    else
      (s.(batch := batch, bsize := bsize), None)
  }

  /** Adding a pair to the pending batch keeps the invariant. */
  lemma PendingKeepsValid(s: State, p: Pair)
    requires Valid(s)
    ensures Valid(s.(batch := s.batch + [p], bsize := s.bsize + |p.value|))
  {
    TotalLenAppend(s.batch, [p]);
    assert TotalLen([p]) == |p.value| by { assert [p][..0] == []; }
  }

  /** Writing the pending batch plus a pair, reporting its bytes and starting
      an empty batch keeps the invariant. */
  lemma FlushKeepsValid(s: State, p: Pair)
    requires Valid(s)
    ensures var e := Batch(s.batch + [p]);
      Valid(State([], 0, World(s.world.db.(log := s.world.db.log + [e]), s.world.progress + [s.bsize + |p.value|])))
  {
    var e := Batch(s.batch + [p]);
    PendingKeepsValid(s, p);
    AccountedStep(s.world, e);
  }

  /** Each callback keeps the between-callbacks invariant. */
  lemma StepKeepsValid(cfg: Config, s: State, p: Pair, lastCall: bool)
    requires Valid(s)
    ensures Valid(Step(cfg, s, p, lastCall).0)
  {
    var (s', err) := Step(cfg, s, p, lastCall);
    if err.None? && s'.world.db.log != s.world.db.log {
      FlushKeepsValid(s, p);
    } else {
      PendingKeepsValid(s, p);
    }
  }

  /** The closure handed to `env.Run`. */
  function Closure(cfg: Config): Callback<State>
  {
    (s, p, lastCall) => Step(cfg, s, p, lastCall)
  }

  /** The state `batchWrite.Benchmark` starts its run from on a freshly
      opened database whose write attempts fail as `faults` says. */
  function Initial(faults: map<nat, Error>): State
  {
    State([], 0, World(Db([], faults), []))
  }

  /** One pair handed to the closure: the run continues from `Step`'s
      state unless `Step` returned an error. */
  lemma RunUnfold(cfg: Config, s: State, items: seq<Pair>)
    requires |items| > 0
    ensures var (s', err) := Step(cfg, s, items[0], |items| == 1);
      var r := RunFrom(Closure(cfg), s, items);
      if err.Some? then r == Run(s', err, 1)
      else var r' := RunFrom(Closure(cfg), s', items[1..]);
        r == Run(r'.state, r'.err, r'.delivered + 1)
  {
  }

  /** The invariant holds after any stretch of a run, and the fault oracle is
      never altered. */
  lemma {:induction false} RunKeepsValid(cfg: Config, s: State, items: seq<Pair>)
    requires Valid(s)
    ensures var r := RunFrom(Closure(cfg), s, items);
      Valid(r.state) && r.state.world.db.faults == s.world.db.faults
    decreases |items|
  {
    if |items| > 0 {
      RunUnfold(cfg, s, items);
      StepKeepsValid(cfg, s, items[0], |items| == 1);
      var (s', err) := Step(cfg, s, items[0], |items| == 1);
      if err.None? {
        RunKeepsValid(cfg, s', items[1..]);
      }
    }
  }

  /** Delivering `items[0]` and then `d` more pairs delivers `items[..d + 1]`. */
  lemma PrefixStep<T>(before: seq<T>, items: seq<T>, d: nat, mid: seq<T>, end: seq<T>)
    requires 0 < |items| && d < |items|
    requires mid == before + [items[0]]
    requires end == mid + items[1..][..d]
    ensures end == before + items[..d + 1]
  {
  }

  /** Pairs are neither lost, duplicated nor reordered: the pairs written so
      far followed by the pending batch are exactly the pairs delivered. */
  lemma {:induction false} RunConservesPairs(cfg: Config, s: State, items: seq<Pair>)
    ensures var r := RunFrom(Closure(cfg), s, items);
      Written(r.state.world.db.log) + r.state.batch == Written(s.world.db.log) + s.batch + items[..r.delivered]
    decreases |items|
  {
    if |items| == 0 {
      assert items[..0] == [];
    } else {
      RunUnfold(cfg, s, items);
      var (s', err) := Step(cfg, s, items[0], |items| == 1);
      if err.None? {
        RunConservesPairs(cfg, s', items[1..]);
        var r' := RunFrom(Closure(cfg), s', items[1..]);
        PrefixStep(Written(s.world.db.log) + s.batch, items, r'.delivered,
          Written(s'.world.db.log) + s'.batch, Written(r'.state.world.db.log) + r'.state.batch);
      } else {
        assert items[..1] == [items[0]];
      }
    }
  }

  /** One error-free callback only appends to the log, past a write attempt
      that did not fail. */
  lemma StepAppends(cfg: Config, s: State, p: Pair, lastCall: bool)
    ensures var (s', err) := Step(cfg, s, p, lastCall);
      err.None? ==>
        && s.world.db.log <= s'.world.db.log
        && NoFaultsBetween(s.world.db.faults, NextAttempt(s.world.db), NextAttempt(s'.world.db))
  {
  }

  /** The log only grows, and no write accepted along the way met a fault. */
  lemma {:induction false} RunAppends(cfg: Config, s: State, items: seq<Pair>)
    ensures var r := RunFrom(Closure(cfg), s, items);
      && s.world.db.log <= r.state.world.db.log
      && NoFaultsBetween(s.world.db.faults, NextAttempt(s.world.db), NextAttempt(r.state.world.db))
    decreases |items|
  {
    if |items| > 0 {
      RunUnfold(cfg, s, items);
      var (s', err) := Step(cfg, s, items[0], |items| == 1);
      if err.None? {
        RunAppends(cfg, s', items[1..]);
        var r' := RunFrom(Closure(cfg), s', items[1..]);
        StepAppends(cfg, s, items[0], |items| == 1);
        NoFaultsJoin(s.world.db.faults, NextAttempt(s.world.db), NextAttempt(s'.world.db), NextAttempt(r'.state.world.db));
      }
    }
  }

  /** The first failed write ends the run, which returns that write's error
      with the failed pair still pending; a run without error that was
      handed at least one pair ends with nothing pending. */
  lemma {:induction false} RunEnds(cfg: Config, s: State, items: seq<Pair>)
    ensures var r := RunFrom(Closure(cfg), s, items);
      && (r.err.None? && |items| > 0 ==> r.state.batch == [] && r.state.bsize == 0)
      && (r.err.Some? ==>
            && r.state.batch != []
            && NextAttempt(r.state.world.db) in s.world.db.faults
            && r.err.value == s.world.db.faults[NextAttempt(r.state.world.db)])
    decreases |items|
  {
    if |items| > 0 {
      RunUnfold(cfg, s, items);
      var (s', err) := Step(cfg, s, items[0], |items| == 1);
      if err.None? {
        RunEnds(cfg, s', items[1..]);
      }
    }
  }

  /** The pair whose flush failed is the last one delivered, and it stays at
      the end of the pending batch. */
  lemma {:induction false} FailedPairPending(cfg: Config, s: State, items: seq<Pair>)
    ensures var r := RunFrom(Closure(cfg), s, items);
      r.err.Some? ==>
        && r.state.batch != []
        && r.state.batch[|r.state.batch| - 1] == items[r.delivered - 1]
    decreases |items|
  {
    if |items| > 0 {
      RunUnfold(cfg, s, items);
      var (s', err) := Step(cfg, s, items[0], |items| == 1);
      if err.None? {
        FailedPairPending(cfg, s', items[1..]);
        var r' := RunFrom(Closure(cfg), s', items[1..]);
        if r'.err.Some? {
          assert items[1..][r'.delivered - 1] == items[r'.delivered];
        }
      } else {
        assert s'.batch == s.batch + [items[0]];
      }
    }
  }

  /** A written batch that reached the threshold. */
  predicate Reached(cfg: Config, w: Write)
  {
    TotalLen(Pairs(w)) >= cfg.batchSize
  }

  /** A written batch that was still below the threshold, or empty, before
      its last pair was added. */
  predicate ShortBeforeLast(cfg: Config, w: Write)
  {
    |Pairs(w)| <= 1 || TotalLen(Pairs(w)[..|Pairs(w)| - 1]) < cfg.batchSize
  }

  /** The batch a flush writes holds `bsize` plus the new value's bytes, and
      it was below the threshold before the new pair. */
  lemma FlushedBatch(cfg: Config, s: State, p: Pair)
    requires s.bsize == TotalLen(s.batch)
    requires s.batch == [] || s.bsize < cfg.batchSize
    ensures ShortBeforeLast(cfg, Batch(s.batch + [p]))
    ensures TotalLen(Pairs(Batch(s.batch + [p]))) == s.bsize + |p.value|
  {
    TotalLenAppend(s.batch, [p]);
    assert TotalLen([p]) == |p.value| by { assert [p][..0] == []; }
    assert (s.batch + [p])[..|s.batch|] == s.batch;
  }

  /** A batch the callback writes was below the threshold until its last
      pair, and it reached the threshold unless this was the last call. */
  lemma StepThresholds(cfg: Config, s: State, p: Pair, lastCall: bool)
    requires s.bsize == TotalLen(s.batch)
    requires s.batch == [] || s.bsize < cfg.batchSize
    ensures var (s', err) := Step(cfg, s, p, lastCall);
      err.None? && s'.world.db.log != s.world.db.log ==>
        && ShortBeforeLast(cfg, Batch(s.batch + [p]))
        && (lastCall || Reached(cfg, Batch(s.batch + [p])))
  {
    FlushedBatch(cfg, s, p);
  }

  /** Over a run, every batch written was below the threshold until its last
      pair, and every batch but the final one reached the threshold: only
      `lastCall` flushes a batch that stays below it. */
  lemma {:induction false} RunThresholds(cfg: Config, s: State, items: seq<Pair>)
    requires Valid(s)
    requires s.batch == [] || s.bsize < cfg.batchSize
    requires forall i :: 0 <= i < |s.world.db.log| ==>
      Reached(cfg, s.world.db.log[i]) && ShortBeforeLast(cfg, s.world.db.log[i])
    ensures var r := RunFrom(Closure(cfg), s, items);
      var log := r.state.world.db.log;
      && (forall i :: 0 <= i < |log| ==> ShortBeforeLast(cfg, log[i]))
      && (forall i :: 0 <= i < |log| - 1 ==> Reached(cfg, log[i]))
      // a failed run never reached its `lastCall` flush
      && (r.err.Some? ==> forall i :: 0 <= i < |log| ==> Reached(cfg, log[i]))
    decreases |items|
  {
    if |items| > 0 {
      RunUnfold(cfg, s, items);
      var lastCall := |items| == 1;
      var (s', err) := Step(cfg, s, items[0], lastCall);
      var log, log' := s.world.db.log, s'.world.db.log;
      StepThresholds(cfg, s, items[0], lastCall);
      assert log' == log || log' == log + [Batch(s.batch + [items[0]])];
      forall i | 0 <= i < |log'|
        ensures ShortBeforeLast(cfg, log'[i])
        ensures i < |log'| - 1 || !lastCall ==> Reached(cfg, log'[i])
      {
        if i < |log| {
          assert log'[i] == log[i];
        }
      }
      if err.None? && !lastCall {
        StepKeepsValid(cfg, s, items[0], lastCall);
        RunThresholds(cfg, s', items[1..]);
      }
    }
  }

  /** A whole run on a freshly opened database. */
  lemma InitialRun(cfg: Config, faults: map<nat, Error>, items: seq<Pair>)
    ensures var r := RunFrom(Closure(cfg), Initial(faults), items);
      var log := r.state.world.db.log;
      && Accounted(r.state.world)
      && BatchLog(log)
      && Sum(r.state.world.progress) == TotalLen(Written(log))
      && NoFaultsBetween(faults, 0, |log|)
      && (r.err.None? ==> Written(log) == items)
      && (r.err.Some? ==>
            && Written(log) < items
            && |log| in faults && r.err.value == faults[|log|])
  {
    var s0 := Initial(faults);
    var r := RunFrom(Closure(cfg), s0, items);
    var log := r.state.world.db.log;
    RunKeepsValid(cfg, s0, items);
    RunConservesPairs(cfg, s0, items);
    RunAppends(cfg, s0, items);
    RunEnds(cfg, s0, items);
    AccountedSum(r.state.world);
    assert Written(s0.world.db.log) == [];
    var delivered := items[..r.delivered];
    assert Written(log) + r.state.batch == delivered;
    if r.err.None? {
      assert delivered == items;
      assert r.state.batch == [] by {
        if |items| == 0 {
          assert r.state == s0;
        }
      }
      assert Written(log) == Written(log) + r.state.batch;
    } else {
      assert Written(log) < delivered <= items;
    }
  }

  /** `batchWrite.Benchmark(dir, env)`: an open error is returned before
      anything is written; otherwise the run's result is returned. */
  function Benchmark(cfg: Config, openErr: Option<Error>, faults: map<nat, Error>, items: seq<Pair>): (r: Report)
    ensures openErr.Some? ==> r == Report([], [], openErr)
    // every accepted write is one nonempty batch with one progress report of its bytes
    ensures |r.progress| == |r.log|
    ensures forall i :: 0 <= i < |r.log| ==>
      r.log[i].Batch? && |r.log[i].pairs| > 0 && r.progress[i] == TotalLen(r.log[i].pairs)
    ensures Sum(r.progress) == TotalLen(Written(r.log))
    // a successful run stores every pair once, in order, and reports all bytes
    ensures r.err.None? ==> Written(r.log) == items && Sum(r.progress) == TotalLen(items)
    // no write attempt before the last one met a fault
    ensures openErr.None? ==> NoFaultsBetween(faults, 0, |r.log|)
    // a failed run stores a proper prefix and returns the first fault
    ensures openErr.None? && r.err.Some? ==>
      && Written(r.log) < items
      && |r.log| in faults && r.err.value == faults[|r.log|]
    // each batch was below `BatchSize` until its last pair, and only the
    // final one may stay below it
    ensures forall i :: 0 <= i < |r.log| ==> ShortBeforeLast(cfg, r.log[i])
    ensures forall i :: 0 <= i < |r.log| - 1 ==> Reached(cfg, r.log[i])
    // a failed run never reached the `lastCall` flush, so every batch it
    // wrote reached `BatchSize`
    ensures openErr.None? && r.err.Some? ==> forall i :: 0 <= i < |r.log| ==> Reached(cfg, r.log[i])
  {
    if openErr.Some? then Report([], [], openErr)
    else
      var run := RunFrom(Closure(cfg), Initial(faults), items);
      InitialRun(cfg, faults, items);
      RunThresholds(cfg, Initial(faults), items);
      Report(run.state.world.db.log, run.state.world.progress, run.err)
  }

  /** `n` copies of `x`. */
  function Repeat(x: nat, n: nat): (r: seq<nat>)
    ensures |r| == n && forall i :: 0 <= i < n ==> r[i] == x
  {
    seq(n, _ => x)
  }

  /** One callback under the conditions of `UniformRun`: the write that is
      issued always succeeds, and it is issued exactly when the batch reaches
      1,024 pairs or the pair is the last one. */
  lemma UniformStep(cfg: Config, s: State, p: Pair, lastCall: bool)
    requires cfg.batchSize == 100 * 1024
    requires |s.batch| < 1024 && s.bsize == 100 * |s.batch|
    requires |p.value| == 100
    requires s.world.db.faults == map[]
    ensures var (s', err) := Step(cfg, s, p, lastCall);
      && err.None?
      && s'.world.db.faults == map[]
      && (if lastCall || |s.batch| == 1023 then
            && s'.batch == [] && s'.bsize == 0
            && s'.world.progress == s.world.progress + [100 * (|s.batch| + 1)]
          else
            && |s'.batch| == |s.batch| + 1 && s'.bsize == s.bsize + 100
            && s'.world == s.world)
  {
  }

  /** The conditions `UniformRun` needs of the state between callbacks. */
  predicate UniformState(s: State)
  {
    && |s.batch| < 1024 && s.bsize == 100 * |s.batch|
    && s.world.db.faults == map[]
  }

  /** The first callback of a uniform run, seen from the run: either it was
      the last one, or the run goes on from a state that is again uniform,
      having reported one full batch or nothing. */
  lemma UniformUnfold(cfg: Config, s: State, items: seq<Pair>) returns (s': State)
    requires cfg.batchSize == 100 * 1024
    requires UniformState(s)
    requires 0 < |items| && |items[0].value| == 100
    ensures var r := RunFrom(Closure(cfg), s, items);
      if |items| == 1 then
        r.err.None? && r.state.world.progress == s.world.progress + [100 * (|s.batch| + 1)]
      else
        && UniformState(s')
        && r.state == RunFrom(Closure(cfg), s', items[1..]).state
        && r.err == RunFrom(Closure(cfg), s', items[1..]).err
        && (if |s.batch| + 1 < 1024 then
              |s'.batch| == |s.batch| + 1 && s'.world.progress == s.world.progress
            else
              |s'.batch| == 0 && s'.world.progress == s.world.progress + [102400])
  {
    RunUnfold(cfg, s, items);
    UniformStep(cfg, s, items[0], |items| == 1);
    s' := Step(cfg, s, items[0], |items| == 1).0;
  }

  /** Reporting one full batch in front of `n` more makes `n + 1`. */
  lemma RepeatCons(before: seq<nat>, x: nat, n: nat, after: seq<nat>)
    ensures before + [x] + Repeat(x, n) + after == before + Repeat(x, n + 1) + after
  {
  }

  /** With a 102,400-byte threshold and 100-byte values, a full batch holds
      1,024 pairs. Starting with `j` pairs pending and no faults, a run over
      `m` pairs where `j + m - 1 == 1024 * q + t` (so `q` and `t` are the
      quotient and remainder of `j + m - 1` by 1,024) reports `q` full
      batches and then, on the last pair, one more of `t + 1` pairs. */
  lemma {:induction false} UniformRun(cfg: Config, s: State, items: seq<Pair>, q: nat, t: nat)
    requires cfg.batchSize == 100 * 1024
    requires UniformState(s)
    requires 0 < |items|
    requires forall i :: 0 <= i < |items| ==> |items[i].value| == 100
    requires |s.batch| + |items| - 1 == 1024 * q + t && t < 1024
    ensures var r := RunFrom(Closure(cfg), s, items);
      && r.err.None?
      && r.state.world.progress == s.world.progress + Repeat(102400, q) + [100 * (t + 1)]
    decreases |items|
  {
    var s' := UniformUnfold(cfg, s, items);
    if |items| == 1 {
      assert q == 0 && Repeat(102400, 0) == [];
    } else {
      if |s.batch| + 1 < 1024 {
        UniformRun(cfg, s', items[1..], q, t);
      } else {
        UniformRun(cfg, s', items[1..], q - 1, t);
        var last: nat := 100 * (t + 1);
        RepeatCons(s.world.progress, 102400, q - 1, [last]);
      }
    }
  }

  /** 10,000 values of 100 bytes (1,000,000 bytes) against the 100 KiB
      threshold of "batch-100kb": ten flushes, nine full ones of 102,400
      bytes, and a tenth of 78,400 bytes that is under the threshold and so
      happens only because it carries the last pair. */
  lemma TenThousandValues(items: seq<Pair>)
    requires |items| == 10000
    requires forall i :: 0 <= i < |items| ==> |items[i].value| == 100
    ensures var r := Benchmark(Config(DefaultOptions, 100 * 1024), None, map[], items);
      && r.err.None?
      && |r.log| == 10
      && r.progress == Repeat(102400, 9) + [78400]
      && r.progress[9] < 100 * 1024
  {
    var cfg := Config(DefaultOptions, 100 * 1024);
    assert UniformState(Initial(map[]));
    UniformRun(cfg, Initial(map[]), items, 9, 783);
  }
}
