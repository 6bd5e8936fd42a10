/** The storage engine as the benchmarks see it: an append-only log of the
    writes it accepted, plus a fault oracle saying which write attempts fail.
    The progress counter of the workload environment lives beside it in
    `World`. Nothing here models leveldb's internals. */
module Storage {
  import opened Results

  newtype byte = b: int | 0 <= b < 256

  type Bytes = seq<byte>

  /** One key/value pair delivered by the workload driver. */
  datatype Pair = Pair(key: Bytes, value: Bytes)

  /** An engine error, carried opaquely (Go's `error`). */
  datatype Error = Error(msg: string)

  /** `opt.Options` as far as this program sets it: opaque tags handed to the
      engine when it is opened. */
  datatype Options = Options(noSync: bool, disableLargeBatchTransaction: bool)

  const DefaultOptions: Options := Options(false, false)

  /** A write the engine accepted: a single put or one atomic batch. */
  datatype Write = Put(pair: Pair) | Batch(pairs: seq<Pair>)

  /** An open database. Write attempts are numbered by the count of writes
      committed before them; attempt `k` fails with `faults[k]` when `k` is a
      key of `faults`. Both benchmarks stop at their first failed write, so
      a failed attempt is never followed by another and the numbering is
      exact. */
  datatype Db = Db(log: seq<Write>, faults: map<nat, Error>)

  /** Everything a benchmark run can observe or change: the database and the
      amounts reported through `env.Progress`, in order. */
  datatype World = World(db: Db, progress: seq<nat>)

  /** What a benchmark entry point leaves behind: the accepted writes, the
      progress reports and the error it returned (None for nil). */
  datatype Report = Report(log: seq<Write>, progress: seq<nat>, err: Option<Error>)

  /** The attempt number of the next write. */
  function NextAttempt(db: Db): nat
  {
    |db.log|
  }

  /** `db.Put(key, value, nil)` */
  function PutPair(db: Db, p: Pair): (r: Result<Db, Error>)
    ensures r.Success? <==> NextAttempt(db) !in db.faults
    ensures r.Success? ==> r.value == db.(log := db.log + [Put(p)])
    ensures r.Failure? ==> r.error == db.faults[NextAttempt(db)]
  {
    if NextAttempt(db) in db.faults then Failure(db.faults[NextAttempt(db)])
    else Success(db.(log := db.log + [Put(p)]))
  }

  /** `db.Write(batch, nil)`: the whole batch is accepted as one write or
      nothing is. */
  function WriteBatch(db: Db, ps: seq<Pair>): (r: Result<Db, Error>)
    ensures r.Success? <==> NextAttempt(db) !in db.faults
    ensures r.Success? ==> r.value == db.(log := db.log + [Batch(ps)])
    ensures r.Failure? ==> r.error == db.faults[NextAttempt(db)]
  {
    if NextAttempt(db) in db.faults then Failure(db.faults[NextAttempt(db)])
    else Success(db.(log := db.log + [Batch(ps)]))
  }

  /** True when no write attempt numbered in [from, to) fails: a run that
      went from `from` committed writes to `to` met no fault on the way. */
  predicate NoFaultsBetween(faults: map<nat, Error>, from: nat, to: nat)
  {
    forall k: nat :: from <= k < to ==> k !in faults
  }

  lemma NoFaultsJoin(faults: map<nat, Error>, a: nat, b: nat, c: nat)
    requires a <= b <= c
    requires NoFaultsBetween(faults, a, b) && NoFaultsBetween(faults, b, c)
    ensures NoFaultsBetween(faults, a, c)
  {
  }

  /** The pairs a write stores, in order. */
  function Pairs(w: Write): seq<Pair>
  {
    match w
    case Put(p) => [p]
    case Batch(ps) => ps
  }

  /** All pairs stored by a log of writes, in order. */
  function Written(log: seq<Write>): seq<Pair>
  {
    if |log| == 0 then [] else Written(log[..|log| - 1]) + Pairs(log[|log| - 1])
  }

  /** Total value bytes of a sequence of pairs (Go's `len(value)` summed). */
  function TotalLen(ps: seq<Pair>): nat
  {
    if |ps| == 0 then 0 else TotalLen(ps[..|ps| - 1]) + |ps[|ps| - 1].value|
  }

  function Sum(xs: seq<nat>): nat
  {
    if |xs| == 0 then 0 else Sum(xs[..|xs| - 1]) + xs[|xs| - 1]
  }

  /** Every progress report stands for exactly one accepted write and carries
      the number of value bytes that write stored. */
  predicate Accounted(w: World)
  {
    && |w.progress| == |w.db.log|
    && forall i :: 0 <= i < |w.progress| ==> w.progress[i] == TotalLen(Pairs(w.db.log[i]))
  }

  lemma WrittenSnoc(log: seq<Write>, e: Write)
    ensures Written(log + [e]) == Written(log) + Pairs(e)
  {
  }

  lemma {:induction false} TotalLenAppend(a: seq<Pair>, b: seq<Pair>)
    ensures TotalLen(a + b) == TotalLen(a) + TotalLen(b)
    decreases |b|
  {
    if |b| == 0 {
      assert a + b == a;
    } else {
      var b' := b[..|b| - 1];
      assert (a + b)[..|a + b| - 1] == a + b';
      TotalLenAppend(a, b');
    }
  }

  /** Under `Accounted`, the progress reports add up to the value bytes the
      log stores. */
  lemma {:induction false} AccountedSum(w: World)
    requires Accounted(w)
    ensures Sum(w.progress) == TotalLen(Written(w.db.log))
    decreases |w.progress|
  {
    var n := |w.progress|;
    if n > 0 {
      var w' := World(w.db.(log := w.db.log[..n - 1]), w.progress[..n - 1]);
      assert Accounted(w');
      AccountedSum(w');
      TotalLenAppend(Written(w'.db.log), Pairs(w.db.log[n - 1]));
    }
  }

  /** Appending one accepted write and its matching report keeps the
      accounting. */
  lemma AccountedStep(w: World, e: Write)
    ensures Accounted(w) ==> Accounted(World(w.db.(log := w.db.log + [e]), w.progress + [TotalLen(Pairs(e))]))
  {
  }
}
