/** The calling contract of the workload environment's `Run`: it hands the
    callback one pair at a time, with `lastCall` set on the final pair only,
    and stops at the first error the callback returns, which becomes the
    result of the run. Key and value generation, timing and logging are not
    modelled; the workload is given as a finite sequence of pairs. */
module Driver {
  import opened Results
  import opened Storage

  /** A benchmark callback over its closure state `S`:
      (state, pair, lastCall) -> (new state, returned error). */
  type Callback<!S> = (S, Pair, bool) -> (S, Option<Error>)

  /** The end of a run: the callback's final state, the error the run
      returns, and how many pairs were handed to the callback. */
  datatype Run<S> = Run(state: S, err: Option<Error>, delivered: nat)

  /** The closure state after the callback has been handed the first `k`
      pairs of `items`, each with the flag the driver passes. */
  function After<S>(callback: Callback<S>, s: S, items: seq<Pair>, k: nat): S
    requires k <= |items|
    decreases k
  {
    if k == 0 then s
    else After(callback, callback(s, items[0], |items| == 1).0, items[1..], k - 1)
  }

  /** Call number `k` (from 0) of a run over `items`: it is handed `items[k]`,
      with `lastCall` set exactly when that is the final pair. */
  function Call<S>(callback: Callback<S>, s: S, items: seq<Pair>, k: nat): (S, Option<Error>)
    requires k < |items|
  {
    callback(After(callback, s, items, k), items[k], k == |items| - 1)
  }

  /** Call `k + 1` of a run is call `k` of the run that goes on after the
      first call. */
  lemma CallShift<S>(callback: Callback<S>, s: S, items: seq<Pair>, k: nat)
    requires k + 1 < |items|
    ensures Call(callback, s, items, k + 1)
         == Call(callback, callback(s, items[0], |items| == 1).0, items[1..], k)
  {
  }

  function RunFrom<S>(callback: Callback<S>, s: S, items: seq<Pair>): (r: Run<S>)
    ensures r.delivered <= |items|
    ensures r.err.None? ==> r.delivered == |items|
    ensures r.err.Some? ==> 0 < r.delivered
    decreases |items|
  {
    if |items| == 0 then Run(s, None, 0)
    else
      var (s', err) := callback(s, items[0], |items| == 1);
      if err.Some? then Run(s', err, 1)
      else
        var r := RunFrom(callback, s', items[1..]);
        Run(r.state, r.err, r.delivered + 1)
  }

  /** What a run does call by call: every call before the last one returned
      nil, and the last call's state and error are the run's. With
      `RunFrom`'s own contract (a nil run was handed every pair), the run
      stops at the first error, and only the final pair is flagged
      `lastCall`. */
  lemma {:induction false} RunCalls<S>(callback: Callback<S>, s: S, items: seq<Pair>)
    ensures var r := RunFrom(callback, s, items);
      && (r.delivered == 0 ==> r.state == s && r.err.None?)
      && (forall k :: 0 <= k < r.delivered - 1 ==> Call(callback, s, items, k).1.None?)
      && (0 < r.delivered ==> Call(callback, s, items, r.delivered - 1) == (r.state, r.err))
    decreases |items|
  {
    if |items| > 0 {
      var (s', err) := callback(s, items[0], |items| == 1);
      assert Call(callback, s, items, 0) == (s', err);
      if err.None? {
        RunCalls(callback, s', items[1..]);
        var r := RunFrom(callback, s', items[1..]);
        assert RunFrom(callback, s, items) == Run(r.state, r.err, r.delivered + 1);
        forall k | 1 <= k < r.delivered
          ensures Call(callback, s, items, k).1.None?
        {
          CallShift(callback, s, items, k - 1);
        }
        if 0 < r.delivered {
          CallShift(callback, s, items, r.delivered - 1);
        }
      }
    }
  }
}
