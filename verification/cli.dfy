/** What `main` decides once flag parsing, size parsing, logging and the
    process exit are set aside: which tests the `-test` value selects, and
    whether the whole run failed. */
module Cli {
  import opened Results
  import opened Storage
  import opened Strings
  import Registry

  /** Why `main` refuses to start (it calls `log.Fatal` with these). */
  datatype SelectError = UnknownTest(name: string) | NoTests

  /** The loop over the comma-separated names: each must name a test, and
      the first that does not stops the selection with its name. Selected
      names keep their order, duplicates included. */
  function SelectNames(names: seq<string>): (r: Result<seq<string>, SelectError>)
    ensures r.Success? <==> forall i :: 0 <= i < |names| ==> names[i] in Registry.Tests
    ensures r.Success? ==> r.value == names
    ensures r.Failure? ==>
      exists i :: 0 <= i < |names| && r.error == UnknownTest(names[i])
        && names[i] !in Registry.Tests
        && forall k :: 0 <= k < i ==> names[k] in Registry.Tests
    decreases |names|
  {
    if |names| == 0 then Success([])
    else if names[0] !in Registry.Tests then
      Failure(UnknownTest(names[0]))
    else
      match SelectNames(names[1..])
      case Failure(e) =>
        var i :| 0 <= i < |names| - 1 && e == UnknownTest(names[1..][i])
          && names[1..][i] !in Registry.Tests
          && forall k :: 0 <= k < i ==> names[1..][k] in Registry.Tests;
        assert names[i + 1] == names[1..][i];
        Failure(e)
      case Success(rest) =>
        assert names == [names[0]] + names[1..];
        Success([names[0]] + rest)
  }

  /** Test selection from the `-test` flag value. */
  function SelectTests(testflag: string): (r: Result<seq<string>, SelectError>)
    ensures r.Success? <==> forall t :: t in Split(testflag, ',') ==> t in Registry.Tests
    ensures r.Success? ==> r.value == Split(testflag, ',')
  {
    match SelectNames(Split(testflag, ','))
    case Failure(e) => Failure(e)
    case Success(run) => if |run| == 0 then Failure(NoTests) else Success(run)
  }

  /** The "no tests to run" check can never fire: the split always yields at
      least one name, and the empty flag yields the unknown name "". */
  lemma NoTestsUnreachable(testflag: string)
    ensures SelectTests(testflag) != Failure(NoTests)
    ensures SelectTests("") == Failure(UnknownTest(""))
  {
  }

  /** Selecting a comma-joined list of known names gives back that list. */
  lemma SelectJoined(names: seq<string>)
    requires |names| > 0
    requires forall i :: 0 <= i < |names| ==> names[i] in Registry.Tests
    ensures SelectTests(Join(names, ',')) == Success(names)
  {
    Registry.NamesAreSelectable();
    assert forall i :: 0 <= i < |names| ==> ',' !in names[i];
    SplitJoin(names, ',');
    assert SelectNames(names) == Success(names);
  }

  /** The names whose test returned an error, in run order. */
  function Failed(run: seq<string>, results: seq<Option<Error>>): seq<string>
    requires |results| == |run|
  {
    if |run| == 0 then []
    else
      var n := |run| - 1;
      Failed(run[..n], results[..n]) + (if results[n].Some? then [run[n]] else [])
  }

  /** The loop at the end of `main`: every selected test is run, including
      those after a failure; each failure is logged; and the run as a whole
      fails exactly when some test returned an error. `results[i]` is what
      `runTest` returned for `run[i]`. */
  method RunAll(run: seq<string>, results: seq<Option<Error>>) returns (ran: seq<string>, failed: seq<string>, anyErr: bool)
    requires |results| == |run|
    ensures ran == run
    ensures failed == Failed(run, results)
    ensures anyErr <==> exists i :: 0 <= i < |results| && results[i].Some?
  {
    ran, failed, anyErr := [], [], false;
    var i := 0;
    while i < |run|
      invariant 0 <= i <= |run|
      invariant ran == run[..i]
      invariant failed == Failed(run[..i], results[..i])
      invariant anyErr <==> exists k :: 0 <= k < i && results[k].Some?
    {
      ran := ran + [run[i]];
      if results[i].Some? {
        failed := failed + [run[i]];
        anyErr := true;
      }
      assert run[..i + 1][..i] == run[..i] && results[..i + 1][..i] == results[..i];
      i := i + 1;
    }
    assert run[..i] == run && results[..i] == results;
  }

  /** `Failed` holds a name for each error result and nothing else. */
  lemma {:induction false} FailedCount(run: seq<string>, results: seq<Option<Error>>)
    requires |results| == |run|
    ensures |Failed(run, results)| <= |run|
    ensures |Failed(run, results)| == 0 <==> forall i :: 0 <= i < |results| ==> results[i].None?
    decreases |run|
  {
    if |run| > 0 {
      var n := |run| - 1;
      FailedCount(run[..n], results[..n]);
      assert forall i :: 0 <= i < n ==> results[..n][i] == results[i];
    }
  }
}
