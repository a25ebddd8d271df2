/**
 * The shared results of a batch as a value, and what each of the three
 * events that settle a class does to them. A worker that returns records
 * the unescaped source and its running time; a worker whose decompiler
 * throws marks the class failed and records the failure placeholder and its
 * running time; a timeout that finds the task not yet done marks the class
 * failed, records the timeout placeholder and appends the configured
 * timeout, a number of seconds, to the list of millisecond durations.
 * Each event is taken as one atomic step. Nothing makes the two paths
 * exclude each other: a worker that returns after its timeout has fired
 * still writes its source and appends a second duration.
 */
module Bookkeeping {
  import opened Wrappers
  import opened JavaText
  import opened Progress

  /** `classSources`, `failedDecompiles` and `decompileTimes`. */
  datatype Batch = Batch(classSources: map<string, string>, failedDecompiles: set<string>, decompileTimes: seq<int>)

  /** The state a panel starts in: nothing recorded. */
  function Empty(): Batch
  {
    Batch(map[], {}, [])
  }

  /**
   * A worker returned `source` (already unescaped) after `elapsed`
   * milliseconds: the source is recorded for the name and one duration is
   * appended; the failed set is untouched.
   */
  function Succeed(b: Batch, name: string, source: string, elapsed: int): (r: Batch)
    ensures r.classSources.Keys == b.classSources.Keys + {name} && r.classSources[name] == source
    ensures forall k :: k in b.classSources && k != name ==> r.classSources[k] == b.classSources[k]
    ensures r.failedDecompiles == b.failedDecompiles
    ensures r.decompileTimes == b.decompileTimes + [elapsed]
  {
    Batch(b.classSources[name := source], b.failedDecompiles, b.decompileTimes + [elapsed])
  }

  /**
   * A worker's decompiler threw after `elapsed` milliseconds: the name joins
   * the failed set, the failure placeholder is recorded for it and one
   * duration is appended. Nothing else changes.
   */
  function Fail(b: Batch, name: string, elapsed: int): (r: Batch)
    ensures r.classSources.Keys == b.classSources.Keys + {name} && r.classSources[name] == FailureStub(name)
    ensures forall k :: k in b.classSources && k != name ==> r.classSources[k] == b.classSources[k]
    ensures r.failedDecompiles == b.failedDecompiles + {name}
    ensures r.decompileTimes == b.decompileTimes + [elapsed]
  {
    Batch(b.classSources[name := FailureStub(name)], b.failedDecompiles + {name}, b.decompileTimes + [elapsed])
  }

  /**
   * The timeout of a task fired. If the task is already done nothing
   * changes. Otherwise the name joins the failed set, the timeout
   * placeholder is recorded for it and `classTimeout` (seconds) is appended
   * to the durations (milliseconds).
   */
  function TimeOut(b: Batch, name: string, done: bool, classTimeout: int): (r: Batch)
    ensures done ==> r == b
    ensures !done ==> r.classSources.Keys == b.classSources.Keys + {name} && r.classSources[name] == TimeoutStub(name)
    ensures !done ==> forall k :: k in b.classSources && k != name ==> r.classSources[k] == b.classSources[k]
    ensures !done ==> r.failedDecompiles == b.failedDecompiles + {name}
    ensures !done ==> r.decompileTimes == b.decompileTimes + [classTimeout]
  {
    if done then b
    else Batch(b.classSources[name := TimeoutStub(name)], b.failedDecompiles + {name}, b.decompileTimes + [classTimeout])
  }

  /** The colour state of a row of the class list. */
  function StatusIn(b: Batch, item: string): Status
  {
    StatusOf(b.classSources, b.failedDecompiles, item)
  }

  /**
   * What every reachable state keeps: a failed class always has a recorded
   * source, and there are never more recorded sources than durations (each
   * event appends exactly one duration and adds at most one source).
   */
  ghost predicate Consistent(b: Batch)
  {
    && b.failedDecompiles <= b.classSources.Keys
    && |b.classSources| <= |b.decompileTimes|
  }

  lemma EmptyConsistent()
    ensures Consistent(Empty())
  {
  }

  /** Adding one key grows a map's key set by at most one. */
  lemma UpdateGrowsByAtMostOne(m: map<string, string>, k: string, v: string)
    ensures |m[k := v]| <= |m| + 1
    ensures k in m ==> |m[k := v]| == |m|
  {
    var m' := m[k := v];
    if k in m {
      assert m'.Keys == m.Keys;
    } else {
      assert m'.Keys == m.Keys + {k};
    }
  }

  lemma SucceedConsistent(b: Batch, name: string, source: string, elapsed: int)
    requires Consistent(b)
    ensures Consistent(Succeed(b, name, source, elapsed))
  {
    UpdateGrowsByAtMostOne(b.classSources, name, source);
  }

  lemma FailConsistent(b: Batch, name: string, elapsed: int)
    requires Consistent(b)
    ensures Consistent(Fail(b, name, elapsed))
  {
    UpdateGrowsByAtMostOne(b.classSources, name, FailureStub(name));
  }

  lemma TimeOutConsistent(b: Batch, name: string, done: bool, classTimeout: int)
    requires Consistent(b)
    ensures Consistent(TimeOut(b, name, done, classTimeout))
  {
    UpdateGrowsByAtMostOne(b.classSources, name, TimeoutStub(name));
  }

  /**
   * After a worker returns its class shows success, unless a timeout had
   * already marked it failed: the failed mark is never taken back, so a
   * late real source still shows red. Other rows keep their colour.
   */
  lemma StatusAfterSucceed(b: Batch, name: string, source: string, elapsed: int, other: string)
    requires other != name
    ensures StatusIn(Succeed(b, name, source, elapsed), name) == if name in b.failedDecompiles then Failed else Succeeded
    ensures StatusIn(Succeed(b, name, source, elapsed), other) == StatusIn(b, other)
  {
  }

  /** After a worker throws its class shows failure; other rows keep their colour. */
  lemma StatusAfterFail(b: Batch, name: string, elapsed: int, other: string)
    requires other != name
    ensures StatusIn(Fail(b, name, elapsed), name) == Failed
    ensures StatusIn(Fail(b, name, elapsed), other) == StatusIn(b, other)
  {
  }

  /** A timeout on an unfinished task shows failure; on a finished one it shows nothing new. */
  lemma StatusAfterTimeOut(b: Batch, name: string, done: bool, classTimeout: int, other: string)
    requires other != name
    ensures StatusIn(TimeOut(b, name, done, classTimeout), name) == if done then StatusIn(b, name) else Failed
    ensures StatusIn(TimeOut(b, name, done, classTimeout), other) == StatusIn(b, other)
  {
  }

  /** A row is uncoloured exactly while its class has no recorded source. */
  lemma PendingIffNoSource(b: Batch, item: string)
    requires Consistent(b)
    ensures StatusIn(b, item) == Pending <==> item !in b.classSources
    ensures StatusIn(b, item) == Failed <==> item in b.failedDecompiles
  {
  }

  // ---------------------------------------------------------------------
  // Runs of events
  // ---------------------------------------------------------------------

  /**
   * One event of a class's task, with the inputs the environment supplies:
   * the unescaped source, the measured time, the done flag. `Threw` is a
   * worker whose backend threw an `Exception`; `Errored` is a worker ended
   * by an `Error`, which the worker's `catch (Exception ex)` lets through.
   */
  datatype Event =
    | Returned(name: string, source: string, elapsed: int)
    | Threw(name: string, elapsed: int)
    | Errored(name: string)
    | TimerFired(name: string, done: bool)

  function Step(b: Batch, e: Event, classTimeout: int): Batch
  {
    match e
    case Returned(n, src, t) => Succeed(b, n, src, t)
    case Threw(n, t) => Fail(b, n, t)
    case Errored(_) => b
    case TimerFired(n, d) => TimeOut(b, n, d, classTimeout)
  }

  /** The events applied one after another, in the order they happened. */
  function Run(b: Batch, events: seq<Event>, classTimeout: int): Batch
    decreases |events|
  {
    if events == [] then b else Run(Step(b, events[0], classTimeout), events[1..], classTimeout)
  }

  /** An event that writes: a worker's return or caught throw, and a timeout that found its task unfinished. */
  predicate Writes(e: Event)
  {
    e.Returned? || e.Threw? || (e.TimerFired? && !e.done)
  }

  /** The names written by some event of the run. */
  function Written(events: seq<Event>): set<string>
    decreases |events|
  {
    if events == [] then {} else (if Writes(events[0]) then {events[0].name} else {}) + Written(events[1..])
  }

  /** The number of writing events of the run. */
  function WriteCount(events: seq<Event>): nat
    decreases |events|
  {
    if events == [] then 0 else (if Writes(events[0]) then 1 else 0) + WriteCount(events[1..])
  }

  /** One event adds its name to the sources and one duration exactly when it writes, and keeps the state consistent. */
  lemma StepEffect(b: Batch, e: Event, classTimeout: int)
    requires Consistent(b)
    ensures var r := Step(b, e, classTimeout);
      && r.classSources.Keys == b.classSources.Keys + (if Writes(e) then {e.name} else {})
      && r.decompileTimes == b.decompileTimes + (if Writes(e) then [r.decompileTimes[|b.decompileTimes|]] else [])
      && Consistent(r)
  {
    match e {
      case Returned(n, src, t) => SucceedConsistent(b, n, src, t);
      case Threw(n, t) => FailConsistent(b, n, t);
      case Errored(_) =>
      case TimerFired(n, d) => TimeOutConsistent(b, n, d, classTimeout);
    }
  }

  /** A run keeps the state consistent. */
  lemma {:induction false} RunConsistent(b: Batch, events: seq<Event>, classTimeout: int)
    requires Consistent(b)
    ensures Consistent(Run(b, events, classTimeout))
    decreases |events|
  {
    if events != [] {
      StepEffect(b, events[0], classTimeout);
      RunConsistent(Step(b, events[0], classTimeout), events[1..], classTimeout);
    }
  }

  /** One event adds its name to the recorded sources exactly when it writes. */
  lemma StepKeys(b: Batch, e: Event, classTimeout: int)
    ensures Step(b, e, classTimeout).classSources.Keys == b.classSources.Keys + (if Writes(e) then {e.name} else {})
  {
  }

  /** A run records a source for exactly the names that some writing event names. */
  lemma {:induction false} RunKeys(b: Batch, events: seq<Event>, classTimeout: int)
    ensures Run(b, events, classTimeout).classSources.Keys == b.classSources.Keys + Written(events)
    decreases |events|
  {
    if events != [] {
      var e := events[0];
      var b' := Step(b, e, classTimeout);
      StepKeys(b, e, classTimeout);
      RunKeys(b', events[1..], classTimeout);
      assert Written(events) == (if Writes(e) then {e.name} else {}) + Written(events[1..]);
    }
  }

  /** A run appends exactly one duration per writing event after the ones already recorded. */
  lemma {:induction false} RunTimes(b: Batch, events: seq<Event>, classTimeout: int)
    requires Consistent(b)
    ensures var r := Run(b, events, classTimeout);
      && |r.decompileTimes| == |b.decompileTimes| + WriteCount(events)
      && b.decompileTimes <= r.decompileTimes
    decreases |events|
  {
    if events != [] {
      var e := events[0];
      var b' := Step(b, e, classTimeout);
      StepEffect(b, e, classTimeout);
      RunTimes(b', events[1..], classTimeout);
      assert WriteCount(events) == (if Writes(e) then 1 else 0) + WriteCount(events[1..]);
      assert b.decompileTimes <= b'.decompileTimes;
    }
  }

  /** Every name of the batch is named by some writing event of the run. */
  ghost predicate EveryClassWritten(names: set<string>, events: seq<Event>)
  {
    forall n :: n in names ==> exists i :: 0 <= i < |events| && Writes(events[i]) && events[i].name == n
  }

  /** A writing event puts its name among the written names. */
  lemma {:induction false} WritingEventWritten(events: seq<Event>, i: int)
    requires 0 <= i < |events| && Writes(events[i])
    ensures events[i].name in Written(events)
    decreases |events|
  {
    if i > 0 {
      WritingEventWritten(events[1..], i - 1);
    }
  }

  /** Every written name comes from a writing event of the run. */
  lemma {:induction false} WrittenByWritingEvent(events: seq<Event>, n: string)
    requires n in Written(events)
    ensures exists i :: 0 <= i < |events| && Writes(events[i]) && events[i].name == n
    decreases |events|
  {
    if !(Writes(events[0]) && events[0].name == n) {
      WrittenByWritingEvent(events[1..], n);
      var i :| 0 <= i < |events[1..]| && Writes(events[1..][i]) && events[1..][i].name == n;
      assert events[i + 1] == events[1..][i];
    }
  }

  /**
   * For a run whose events all name classes of the batch: the recorded
   * names are exactly the batch iff every class was written, by a worker's
   * return or caught throw or by a timeout that found its task unfinished.
   * A queued task cancelled by its timer never runs, and a worker ended by
   * an `Error` writes nothing, so a finished pool alone does not give this.
   * When it holds, there are as many results as classes.
   */
  lemma CompletedRun(names: set<string>, events: seq<Event>, classTimeout: int)
    requires forall i :: 0 <= i < |events| ==> events[i].name in names
    ensures Run(Empty(), events, classTimeout).classSources.Keys == names <==> EveryClassWritten(names, events)
    ensures EveryClassWritten(names, events) ==> |Run(Empty(), events, classTimeout).classSources| == |names|
  {
    RunKeys(Empty(), events, classTimeout);
    var r := Run(Empty(), events, classTimeout);
    assert r.classSources.Keys == Written(events);
    if EveryClassWritten(names, events) {
      forall n | n in names
        ensures n in Written(events)
      {
        var i :| 0 <= i < |events| && Writes(events[i]) && events[i].name == n;
        WritingEventWritten(events, i);
      }
      forall n | n in Written(events)
        ensures n in names
      {
        WrittenByWritingEvent(events, n);
      }
      assert r.classSources.Keys == names;
    }
    if r.classSources.Keys == names {
      forall n | n in names
        ensures exists i :: 0 <= i < |events| && Writes(events[i]) && events[i].name == n
      {
        WrittenByWritingEvent(events, n);
      }
    }
  }

  /**
   * A worker ended by an `Error` records nothing, and its timer then finds
   * the task done: the class never gets a source, a failed mark or a
   * duration, and its row stays uncoloured.
   */
  lemma ErrorLeavesClassUnrecorded(name: string, classTimeout: int)
    ensures var r := Run(Empty(), [Errored(name), TimerFired(name, true)], classTimeout);
      && r == Empty()
      && StatusIn(r, name) == Pending
  {
    var evs := [Errored(name), TimerFired(name, true)];
    assert Run(Empty(), evs, classTimeout) == Run(Empty(), evs[1..], classTimeout);
    assert evs[1..][1..] == [];
  }

  /**
   * A timeout that fires before its worker returns does not stop the
   * worker's write: the real source replaces the placeholder, the row stays
   * red, and the one class has two durations, the first of them the timeout
   * in seconds.
   */
  lemma LateWorkerAfterTimeout(name: string, source: string, elapsed: int, classTimeout: int)
    ensures var r := Run(Empty(), [TimerFired(name, false), Returned(name, source, elapsed)], classTimeout);
      && r.classSources == map[name := source]
      && r.failedDecompiles == {name}
      && r.decompileTimes == [classTimeout, elapsed]
      && StatusIn(r, name) == Failed
  {
    var evs := [TimerFired(name, false), Returned(name, source, elapsed)];
    var b1 := TimeOut(Empty(), name, false, classTimeout);
    assert Run(Empty(), evs, classTimeout) == Run(b1, evs[1..], classTimeout);
    assert evs[1..][1..] == [];
  }

  /*
   * A late write in a one-class batch with the default timeout of 10
   * seconds. The only task starts at submission, and its timer fires 10 s
   * after submission, so a worker still running then has run for at least
   * 10000 ms; the example below takes 12000 ms. (In a larger batch a task
   * queued behind busy workers may have run for less when its timer fires.)
   */

  lemma EtaOfLateWrite()
    ensures EtaMillis([10, 12_000], 1) == Some(-6_005)
  {
    var times := [10, 12_000];
    assert times[..1] == [10];
    assert Sum(times) == 12_010;
    assert Quot(-12_010, 2) == -6_005;
  }

  lemma FormatOfLateWrite()
    ensures FormatD02(0) == "00" && FormatD02(-6) == "-6"
  {
    assert DecimalDigits(0) == "0" && DecimalDigits(6) == "6";
  }

  /** Truncating toward zero, -6005 ms is zero hours, zero minutes and -6 seconds. */
  lemma HmsFieldsOfLateWrite()
    ensures HmsFields(-6_005) == (0, 0, -6)
  {
    assert Quot(-6_005, 3_600_000) == 0;
    assert Quot(-6_005, 60_000) == 0;
    assert Rem(0, 60) == 0;
    assert Quot(-6_005, 1_000) == -6;
    assert Rem(-6, 60) == -6;
  }

  /** The time text for an estimate of -6005 ms: the seconds field comes out as -6. */
  lemma HmsOfLateWrite()
    ensures Hms(-6_005) == "00:00:-6"
  {
    HmsFieldsOfLateWrite();
    FormatOfLateWrite();
    var t := Hms(-6_005);
    assert t == "00" + ":" + "00" + ":" + "-6";
  }

  /**
   * With a late write in a batch of one class (timeout 10 s, worker done
   * after 12000 ms), the durations outnumber the classes, the remaining
   * count goes negative, and the estimate shown is a negative number of
   * seconds.
   */
  lemma LateWriteGivesNegativeEstimate()
    ensures var r := Run(Empty(), [TimerFired("a/B", false), Returned("a/B", "class B {}", 12_000)], 10);
      && r.decompileTimes == [10, 12_000]
      && EtaMillis(r.decompileTimes, 1) == Some(-6_005)
      && EstimatedTimeText(r.decompileTimes, 1) == Some("Estimated remaining time: " + Hms(-6_005))
      && Hms(-6_005) == "00:00:-6"
  {
    LateWorkerAfterTimeout("a/B", "class B {}", 12_000, 10);
    EtaOfLateWrite();
    HmsOfLateWrite();
  }
}
