/** `seqWrite.Benchmark`: one put per pair, with the value's length reported
    as progress once the put has been accepted. */
module SeqWrite {
  import opened Results
  import opened Storage
  import opened Driver

  /** `seqWrite{Options}`. */
  datatype Config = Config(options: Options)

  /** The callback body, for one pair. The closure state is the database
      and the progress reports; `lastCall` is ignored, as `seqWrite` does. */
  function Step(w: World, p: Pair, lastCall: bool): (r: (World, Option<Error>))
    // exactly one put is attempted; it fails exactly when the engine says so
    ensures r.1.None? <==> NextAttempt(w.db) !in w.db.faults
    // an accepted put is followed by one report of the value's length
    ensures r.1.None? ==>
      && r.0.db.log == w.db.log + [Put(p)]
      && r.0.progress == w.progress + [|p.value|]
    // a failed put is returned as is, with nothing reported
    ensures r.1.Some? ==> r.0 == w && r.1.value == w.db.faults[NextAttempt(w.db)]
    ensures r.0.db.faults == w.db.faults
  {
    match PutPair(w.db, p)
    case Failure(e) => (w, Some(e))
    case Success(db) => (World(db, w.progress + [|p.value|]), None)
  }

  /** The closure handed to `env.Run`. */
  function Closure(cfg: Config): Callback<World>
  {
    (w, p, lastCall) => Step(w, p, lastCall)
  }

  /** Every accepted write is the put of the pair delivered at the same
      position. */
  predicate PutsOf(log: seq<Write>, items: seq<Pair>)
  {
    |log| <= |items| && forall i :: 0 <= i < |log| ==> log[i] == Put(items[i])
  }

  /** Over any stretch of a run, the puts accepted are those of the pairs
      delivered, in order, except the one whose put failed; every accepted
      put has its one progress report. */
  lemma {:induction false} RunPuts(cfg: Config, w: World, items: seq<Pair>)
    ensures var r := RunFrom(Closure(cfg), w, items);
      var log := r.state.db.log;
      && |w.db.log| <= |log| && log[..|w.db.log|] == w.db.log
      && PutsOf(log[|w.db.log|..], items)
      && |log| - |w.db.log| == (if r.err.None? then r.delivered else r.delivered - 1)
      && (Accounted(w) ==> Accounted(r.state))
    decreases |items|
  {
    if |items| > 0 {
      assert Closure(cfg)(w, items[0], |items| == 1) == Step(w, items[0], |items| == 1);
      var (w', err) := Step(w, items[0], |items| == 1);
      if err.None? {
        RunPuts(cfg, w', items[1..]);
        AccountedStep(w, Put(items[0]));
        assert TotalLen([items[0]]) == |items[0].value| by { assert [items[0]][..0] == []; }
        var log := RunFrom(Closure(cfg), w', items[1..]).state.db.log;
        var n := |w.db.log|;
        assert log[..n + 1] == w.db.log + [Put(items[0])];
        assert log[n] == Put(items[0]);
        assert log[n..] == [log[n]] + log[n + 1..];
      }
    }
  }

  /** The run meets no fault until it stops; when it stops on a failed put it
      returns that put's error. */
  lemma {:induction false} RunStops(cfg: Config, w: World, items: seq<Pair>)
    ensures var r := RunFrom(Closure(cfg), w, items);
      && r.state.db.faults == w.db.faults
      && |w.db.log| <= |r.state.db.log|
      && NoFaultsBetween(w.db.faults, NextAttempt(w.db), NextAttempt(r.state.db))
      && (r.err.Some? ==> NextAttempt(r.state.db) in w.db.faults && r.err.value == w.db.faults[NextAttempt(r.state.db)])
    decreases |items|
  {
    if |items| > 0 {
      assert Closure(cfg)(w, items[0], |items| == 1) == Step(w, items[0], |items| == 1);
      var (w', err) := Step(w, items[0], |items| == 1);
      if err.None? {
        RunStops(cfg, w', items[1..]);
        var r' := RunFrom(Closure(cfg), w', items[1..]);
        NoFaultsJoin(w.db.faults, NextAttempt(w.db), NextAttempt(w'.db), NextAttempt(r'.state.db));
      }
    }
  }

  /** `seqWrite.Benchmark(dir, env)`: an open error is returned before
      anything is written; otherwise the run's result is returned. */
  function Benchmark(cfg: Config, openErr: Option<Error>, faults: map<nat, Error>, items: seq<Pair>): (r: Report)
    ensures openErr.Some? ==> r == Report([], [], openErr)
    // the accepted writes are the puts of a prefix of the workload, each
    // with one report of its value length
    ensures |r.log| <= |items| && |r.progress| == |r.log|
    ensures forall i :: 0 <= i < |r.log| ==> r.log[i] == Put(items[i]) && r.progress[i] == |items[i].value|
    // a successful run puts every pair, in order
    ensures r.err.None? ==> |r.log| == |items|
    // no put before the last attempt met a fault
    ensures openErr.None? ==> NoFaultsBetween(faults, 0, |r.log|)
    // a failed run stops at the first failed put and returns its error
    ensures openErr.None? && r.err.Some? ==>
      && |r.log| < |items|
      && |r.log| in faults && r.err.value == faults[|r.log|]
  {
    if openErr.Some? then Report([], [], openErr)
    else
      var w0 := World(Db([], faults), []);
      var run := RunFrom(Closure(cfg), w0, items);
      RunPuts(cfg, w0, items);
      RunStops(cfg, w0, items);
      var log := run.state.db.log;
      assert log[0..] == log;
      assert forall i :: 0 <= i < |log| ==> TotalLen(Pairs(log[i])) == |items[i].value| by {
        forall i | 0 <= i < |log|
          ensures TotalLen(Pairs(log[i])) == |items[i].value|
        {
          assert Pairs(log[i]) == [items[i]];
          assert [items[i]][..0] == [];
        }
      }
      Report(log, run.state.progress, run.err)
  }

  /** A run that returns nil stores every pair of the workload, in order,
      and reports all of its value bytes. */
  lemma SuccessWritesAll(cfg: Config, openErr: Option<Error>, faults: map<nat, Error>, items: seq<Pair>)
    ensures var r := Benchmark(cfg, openErr, faults, items);
      r.err.None? ==> Written(r.log) == items && Sum(r.progress) == TotalLen(items)
  {
    var r := Benchmark(cfg, openErr, faults, items);
    if r.err.None? {
      PutsWritten(r.log, items);
      AccountedSum(World(Db(r.log, faults), r.progress));
    }
  }

  lemma {:induction false} PutsWritten(log: seq<Write>, items: seq<Pair>)
    requires |log| == |items|
    requires forall i :: 0 <= i < |log| ==> log[i] == Put(items[i])
    ensures Written(log) == items
    decreases |log|
  {
    if |log| > 0 {
      var n := |log| - 1;
      PutsWritten(log[..n], items[..n]);
      assert items == items[..n] + [items[n]];
    }
  }
}
