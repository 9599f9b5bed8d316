/**
 * The fan-out/fan-in worker pool shared by the three CSV readers. A producer puts the
 * data rows on a FIFO job channel; three workers each loop over the channel, convert a
 * row and send the record to a result channel; the reader collects the results in
 * whatever order they arrive. A worker that meets a malformed row returns, which ends
 * its loop for good: the row is lost and the pool has one worker fewer.
 *
 * Jobs leave the channel in order and every malformed row retires exactly the worker
 * that took it, so whichever worker takes which job, the rows consumed are the rows up
 * to and including the third malformed one. `Harvest` states what comes out.
 */
module WorkerPool {
  import opened Wrappers
  import opened Entities

  /** Workers started by each reader. */
  const Workers: nat := 3

  /** A row conversion, defined on the rows it accepts. */
  type Converter<T> = Row --> Option<T>

  ghost predicate Accepts<T>(convert: Converter<T>, jobs: seq<Row>) {
    forall j :: 0 <= j < |jobs| ==> convert.requires(jobs[j])
  }

  /** The record a conversion emits, as a multiset of at most one element. */
  function Emitted<T>(o: Option<T>): multiset<T> {
    match o
    case None => multiset{}
    case Some(x) => multiset{x}
  }

  /** Every record the rows convert to, as if no worker ever stopped. */
  function Converted<T>(jobs: seq<Row>, convert: Converter<T>): multiset<T>
    requires Accepts(convert, jobs)
    decreases |jobs|
  {
    if |jobs| == 0 then multiset{} else Emitted(convert(jobs[0])) + Converted(jobs[1..], convert)
  }

  /** How many rows fail to convert. */
  function Failures<T>(jobs: seq<Row>, convert: Converter<T>): nat
    requires Accepts(convert, jobs)
    decreases |jobs|
  {
    if |jobs| == 0 then 0
    else (if convert(jobs[0]).None? then 1 else 0) + Failures(jobs[1..], convert)
  }

  /** The records the pool emits for `jobs` when `alive` workers are still looping. */
  function Harvest<T>(jobs: seq<Row>, convert: Converter<T>, alive: nat): multiset<T>
    requires Accepts(convert, jobs)
    decreases |jobs|
  {
    if |jobs| == 0 || alive == 0 then multiset{}
    else
      var o := convert(jobs[0]);
      Emitted(o) + Harvest(jobs[1..], convert, if o.None? then alive - 1 else alive)
  }

  /** Each worker the pool loses costs a row: the output is at most the rows less the retired workers. */
  lemma {:induction false} HarvestSize<T>(jobs: seq<Row>, convert: Converter<T>, alive: nat)
    requires Accepts(convert, jobs)
    ensures |Harvest(jobs, convert, alive)| + (if Failures(jobs, convert) < alive then Failures(jobs, convert) else alive) <= |jobs|
    decreases |jobs|
  {
    if |jobs| > 0 && alive > 0 {
      var o := convert(jobs[0]);
      HarvestSize(jobs[1..], convert, if o.None? then alive - 1 else alive);
    }
  }

  /** The pool never invents a record: its output is part of what the rows convert to. */
  lemma {:induction false} HarvestWithinConverted<T>(jobs: seq<Row>, convert: Converter<T>, alive: nat)
    requires Accepts(convert, jobs)
    ensures Harvest(jobs, convert, alive) <= Converted(jobs, convert)
    decreases |jobs|
  {
    if |jobs| > 0 && alive > 0 {
      var o := convert(jobs[0]);
      HarvestWithinConverted(jobs[1..], convert, if o.None? then alive - 1 else alive);
    }
  }

  /** Fewer malformed rows than workers: no worker runs out, so nothing but those rows is lost. */
  lemma {:induction false} HarvestComplete<T>(jobs: seq<Row>, convert: Converter<T>, alive: nat)
    requires Accepts(convert, jobs)
    requires Failures(jobs, convert) < alive
    ensures Harvest(jobs, convert, alive) == Converted(jobs, convert)
    decreases |jobs|
  {
    if |jobs| > 0 {
      var o := convert(jobs[0]);
      HarvestComplete(jobs[1..], convert, if o.None? then alive - 1 else alive);
    }
  }

  /** Each converted record comes from some row. */
  lemma {:induction false} ConvertedFromRows<T>(jobs: seq<Row>, convert: Converter<T>, x: T)
    requires Accepts(convert, jobs)
    requires x in Converted(jobs, convert)
    ensures exists j :: 0 <= j < |jobs| && convert(jobs[j]) == Some(x)
    decreases |jobs|
  {
    if convert(jobs[0]) == Some(x) {
    } else {
      assert x in Converted(jobs[1..], convert);
      ConvertedFromRows(jobs[1..], convert, x);
      var j :| 0 <= j < |jobs[1..]| && convert(jobs[1..][j]) == Some(x);
      assert convert(jobs[j + 1]) == Some(x);
    }
  }

  /** Every row yields one record or one failure. */
  lemma {:induction false} ConvertedSize<T>(jobs: seq<Row>, convert: Converter<T>)
    requires Accepts(convert, jobs)
    ensures |Converted(jobs, convert)| + Failures(jobs, convert) == |jobs|
    decreases |jobs|
  {
    if |jobs| > 0 {
      ConvertedSize(jobs[1..], convert);
    }
  }

  /**
   * Fewer malformed rows than workers: each malformed row is dropped on its own and
   * every other row yields its record.
   */
  lemma FewFailuresDropOnlyThemselves<T>(jobs: seq<Row>, convert: Converter<T>)
    requires Accepts(convert, jobs)
    requires Failures(jobs, convert) < Workers
    ensures Harvest(jobs, convert, Workers) == Converted(jobs, convert)
    ensures |Harvest(jobs, convert, Workers)| == |jobs| - Failures(jobs, convert)
  {
    HarvestComplete(jobs, convert, Workers);
    ConvertedSize(jobs, convert);
  }

  /**
   * Three malformed rows stop all three workers, and a well-formed row after them is
   * never converted: the pool does not skip bad rows, it loses a worker on each.
   */
  lemma LastWorkerStopsThePool<T>(r0: Row, r1: Row, r2: Row, r3: Row, convert: Converter<T>, x: T)
    requires convert.requires(r0) && convert.requires(r1) && convert.requires(r2) && convert.requires(r3)
    requires convert(r0).None? && convert(r1).None? && convert(r2).None?
    requires convert(r3) == Some(x)
    ensures Harvest([r0, r1, r2, r3], convert, Workers) == multiset{}
    ensures Converted([r0, r1, r2, r3], convert) == multiset{x}
  {
    var jobs := [r0, r1, r2, r3];
    assert jobs[1..] == [r1, r2, r3];
    assert jobs[1..][1..] == [r2, r3];
    assert jobs[1..][1..][1..] == [r3];
    assert [r3][1..] == [];
    assert Harvest([r3], convert, 0) == multiset{};
    assert Harvest([r2, r3], convert, 1) == multiset{};
    assert Harvest([r1, r2, r3], convert, 2) == multiset{};
    assert Converted([r3], convert) == multiset{x};
    assert Converted([r2, r3], convert) == multiset{x};
    assert Converted([r1, r2, r3], convert) == multiset{x};
  }

  /**
   * Once as many rows have failed as there were workers, the pool is done: the rows
   * after the one that stopped the last worker are never read, whatever they hold.
   */
  lemma {:induction false} NothingAfterLastFailure<T>(jobs: seq<Row>, convert: Converter<T>, alive: nat, k: nat)
    requires Accepts(convert, jobs)
    requires k < |jobs| && convert(jobs[k]).None?
    requires Failures(jobs[..k + 1], convert) == alive
    ensures Harvest(jobs, convert, alive) == Harvest(jobs[..k + 1], convert, alive)
    decreases k
  {
    var o := convert(jobs[0]);
    var left := if o.None? then alive - 1 else alive;
    assert jobs[..k + 1][1..] == jobs[1..][..k];
    if k == 0 {
      assert alive == 1;
      assert jobs[..1][1..] == [];
    } else {
      assert Failures(jobs[1..][..k], convert) == left;
      NothingAfterLastFailure(jobs[1..], convert, left, k - 1);
    }
  }

  /** One job taken off the front of the channel by one of the `alive` workers. */
  lemma HarvestStep<T>(jobs: seq<Row>, convert: Converter<T>, i: nat, alive: nat)
    requires Accepts(convert, jobs)
    requires i < |jobs| && alive > 0
    ensures Harvest(jobs[i..], convert, alive)
         == Emitted(convert(jobs[i])) + Harvest(jobs[i + 1..], convert, if convert(jobs[i]).None? then alive - 1 else alive)
  {
    assert jobs[i..][1..] == jobs[i + 1..];
  }

  /** The pool's loop invariant survives one job, whichever way it goes. */
  lemma PoolStep<T>(jobs: seq<Row>, convert: Converter<T>, i: nat, alive: nat, alive': nat,
                    out: multiset<T>, out': multiset<T>, total: multiset<T>)
    requires Accepts(convert, jobs)
    requires i < |jobs| && alive > 0
    requires out + Harvest(jobs[i..], convert, alive) == total
    requires alive' == if convert(jobs[i]).None? then alive - 1 else alive
    requires out' == out + Emitted(convert(jobs[i]))
    ensures out' + Harvest(jobs[i + 1..], convert, alive') == total
  {
    HarvestStep(jobs, convert, i, alive);
  }

  /** Inserts `x` into `s` at a position the scheduler picks. */
  method InsertAnywhere<T>(s: seq<T>, x: T) returns (t: seq<T>)
    ensures multiset(t) == multiset(s) + multiset{x}
  {
    var k :| 0 <= k <= |s|;
    t := s[..k] + [x] + s[k..];
    assert s == s[..k] + s[k..];
  }

  /**
   * One run of the pool over `jobs`. Which idle worker receives a job and where its
   * record lands in the collected slice are both left to the scheduler; whatever it
   * picks, the collected records are the `Harvest` of the rows.
   */
  method Pool<T>(jobs: seq<Row>, convert: Converter<T>) returns (out: seq<T>)
    requires Accepts(convert, jobs)
    ensures multiset(out) == Harvest(jobs, convert, Workers)
  {
    var alive: set<nat> := {1, 2, 3};
    assert |alive| == Workers;
    out := [];
    var i := 0;
    assert jobs[i..] == jobs;
    while i < |jobs| && alive != {}
      invariant 0 <= i <= |jobs|
      invariant multiset(out) + Harvest(jobs[i..], convert, |alive|) == Harvest(jobs, convert, Workers)
    {
      var w :| w in alive;
      ghost var before, n := multiset(out), |alive|;
      var o := convert(jobs[i]);
      if o.None? {
        alive := alive - {w};
        assert |alive| == n - 1;
      } else {
        out := InsertAnywhere(out, o.value);
      }
      PoolStep(jobs, convert, i, n, |alive|, before, multiset(out), Harvest(jobs, convert, Workers));
      i := i + 1;
    }
    assert |alive| == 0 || jobs[i..] == [];
  }

  /** Returns the elements of `s` in an order the scheduler picks. */
  method Shuffle<T>(s: seq<T>) returns (t: seq<T>)
    ensures multiset(t) == multiset(s)
  {
    t := [];
    var i := 0;
    while i < |s|
      invariant 0 <= i <= |s|
      invariant multiset(t) == multiset(s[..i])
    {
      assert s[..i + 1] == s[..i] + [s[i]];
      t := InsertAnywhere(t, s[i]);
      i := i + 1;
    }
    assert s[..|s|] == s;
  }
}
