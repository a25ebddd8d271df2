/**
 * The panel that runs one batch: it lists the selected classes in order,
 * hands each to a worker together with a timeout, records what every worker
 * and every timeout reports, keeps the remaining-time label up to date and,
 * when the batch is over, writes the collected sources out.
 *
 * Each worker's call of the decompiler backend and each clock reading is a
 * parameter of the event that uses it; `unescape` stands for the
 * `\uXXXX` unescaping applied to every decompiled text.
 */
module Panel {
  import opened Wrappers
  import opened JavaText
  import opened Utf8
  import opened Selection
  import opened Progress
  import opened Bookkeeping
  import opened Saving

  /**
   * What one call of the decompiler backend did: returned a text, threw an
   * `Exception` (which the worker catches), or threw an `Error` (which it
   * does not).
   */
  datatype Outcome = Decompiled(text: string) | Threw | ThrewError

  /** The label's text after a progress update: an estimate when there is one, else what it showed before. */
  function RefreshedLabel(shown: string, decompileTimes: seq<int>, classCount: int): (r: string)
    ensures decompileTimes == [] ==> r == shown
    ensures decompileTimes != [] ==> r == "Estimated remaining time: " + Hms(EtaMillis(decompileTimes, classCount).value)
  {
    match EstimatedTimeText(decompileTimes, classCount)
    case None => shown
    case Some(text) => text
  }

  class DecompilePanel {
    /** The selected classes and how many there are. */
    const classNames: set<string>
    const classCount: int
    /** Applied to every text the backend returns. */
    const unescape: string -> string

    var classSources: map<string, string>
    var failedDecompiles: set<string>
    var decompileTimes: seq<int>
    /** The text of the remaining-time label. */
    var lblEstimatedTime: string

    /** The three collections as one value. */
    function State(): Batch
      reads this
    {
      Batch(classSources, failedDecompiles, decompileTimes)
    }

    ghost predicate Valid()
      reads this
    {
      classCount == |classNames| && Consistent(State())
    }

    /** A fresh panel: nothing recorded yet and the remaining time unknown. */
    constructor (classNames: set<string>, unescape: string -> string)
      ensures Valid()
      ensures this.classNames == classNames && classCount == |classNames| && this.unescape == unescape
      ensures State() == Empty() && lblEstimatedTime == UNKNOWN_TIME_TEXT
    {
      this.classNames := classNames;
      this.classCount := |classNames|;
      this.unescape := unescape;
      classSources := map[];
      failedDecompiles := {};
      decompileTimes := [];
      lblEstimatedTime := UNKNOWN_TIME_TEXT;
      EmptyConsistent();
    }

    /**
     * Sizes the pools and submits one task (and one timeout) per class, in
     * the ascending order of the sorted set: every selected class exactly
     * once, each before all greater ones.
     */
    method StartDecompile(plugin: Config, processors: int) returns (nThreads: int, submitted: seq<string>)
      requires Valid()
      ensures nThreads == ThreadCount(plugin.minimumThreads, processors)
      ensures Ascending(submitted)
      ensures forall n :: n in submitted <==> n in classNames
      ensures |submitted| == classCount
      ensures forall i, j :: 0 <= i < j < |submitted| ==> submitted[i] != submitted[j]
    {
      nThreads := ThreadCount(plugin.minimumThreads, processors);
      var remaining := classNames;
      submitted := [];
      while remaining != {}
        invariant remaining <= classNames
        invariant forall n :: n in submitted <==> n in classNames && n !in remaining
        invariant Ascending(submitted)
        invariant forall i, r :: 0 <= i < |submitted| && r in remaining ==> Below(submitted[i], r)
        invariant |submitted| + |remaining| == |classNames|
        decreases |remaining|
      {
        LeastExists(remaining);
        var least :| least in remaining && forall y :: y in remaining && y != least ==> Below(least, y);
        submitted := submitted + [least];
        remaining := remaining - {least};
      }
      forall i, j | 0 <= i < j < |submitted|
        ensures submitted[i] != submitted[j]
      {
        AscendingDistinct(submitted, i, j);
      }
    }

    /**
     * Refreshes the label from the recorded durations; while there are none
     * the label keeps its text.
     */
    method UpdateProgressUI()
      modifies this`lblEstimatedTime
      ensures lblEstimatedTime == RefreshedLabel(old(lblEstimatedTime), decompileTimes, classCount)
    {
      match EstimatedTimeText(decompileTimes, classCount)
      case None =>
      case Some(text) =>
        lblEstimatedTime := text;
    }

    /**
     * One worker: the backend's outcome for `name` between two clock
     * readings. A returned text is unescaped and recorded; a caught throw
     * records the failure placeholder and marks the class failed. In both
     * cases the elapsed milliseconds are appended and the label refreshed.
     * An `Error` leaves the worker before anything is recorded: the state
     * and the label stay as they were.
     */
    method Decompile(name: string, outcome: Outcome, startMillis: int, endMillis: int)
      requires Valid()
      modifies this
      ensures Valid()
      ensures State() == match outcome
        case Decompiled(text) => Succeed(old(State()), name, unescape(text), endMillis - startMillis)
        case Threw => Fail(old(State()), name, endMillis - startMillis)
        case ThrewError => old(State())
      ensures lblEstimatedTime ==
        if outcome.ThrewError? then old(lblEstimatedTime) else RefreshedLabel(old(lblEstimatedTime), decompileTimes, classCount)
    {
      match outcome
      case Decompiled(text) =>
        SucceedConsistent(State(), name, unescape(text), endMillis - startMillis);
        classSources := classSources[name := unescape(text)];
        decompileTimes := decompileTimes + [endMillis - startMillis];
        UpdateProgressUI();
      case Threw =>
        FailConsistent(State(), name, endMillis - startMillis);
        failedDecompiles := failedDecompiles + {name};
        classSources := classSources[name := FailureStub(name)];
        decompileTimes := decompileTimes + [endMillis - startMillis];
        UpdateProgressUI();
      case ThrewError =>
    }

    /**
     * The timeout of `name`'s task fires; `done` says whether the task had
     * finished. An unfinished task is marked failed with the timeout
     * placeholder and the configured timeout is appended to the durations.
     * The label is not refreshed.
     */
    method TimeoutFired(name: string, done: bool, plugin: Config)
      requires Valid()
      modifies this
      ensures Valid()
      ensures State() == TimeOut(old(State()), name, done, plugin.classTimeout)
      ensures lblEstimatedTime == old(lblEstimatedTime)
    {
      TimeOutConsistent(State(), name, done, plugin.classTimeout);
      if !done {
        failedDecompiles := failedDecompiles + {name};
        classSources := classSources[name := TimeoutStub(name)];
        decompileTimes := decompileTimes + [plugin.classTimeout];
      }
    }

    /**
     * The colour of a row: none until the class has a source, then red
     * exactly for the failed classes and green for the others.
     */
    function RowStatus(item: string): (s: Status)
      requires Valid()
      reads this
      ensures s == Pending <==> item !in classSources
      ensures s == Failed <==> item in failedDecompiles
      ensures s == Succeeded <==> item in classSources && item !in failedDecompiles
    {
      StatusOf(classSources, failedDecompiles, item)
    }

    /**
     * Writes the batch out once a destination is chosen (`keyOrder` is the
     * order in which the map yields its keys, `existing` what the chosen file
     * held before). One class: the UTF-8 bytes of the first source are
     * written over the start of the file, which keeps any longer old tail
     * and so reads back as the source only when it held no more bytes than
     * that; an empty map (the one class's worker ended by an `Error`) ends
     * in `NoSuchElementException`. Otherwise: an archive with one `.java` entry
     * per recorded class, in key order, each decoding back to its source.
     */
    method SaveSources(destinationChosen: bool, keyOrder: seq<string>, existing: seq<byte>) returns (outcome: SaveOutcome)
      requires Valid()
      requires IsListing(keyOrder, classSources)
      ensures !destinationChosen ==> outcome == NotSaved
      ensures destinationChosen && classCount == 1 && classSources == map[] ==> outcome == SaveFailed(NoSuchElement)
      ensures destinationChosen && classCount == 1 && classSources != map[] ==>
        && keyOrder != [] && keyOrder[0] in classSources
        && var data := Encode(classSources[keyOrder[0]]);
        && outcome == Saved(SingleFile(WrittenWithCreate(existing, data)))
        && outcome.output.bytes[..|data|] == data
        && (|existing| > |data| ==> outcome.output.bytes[|data|..] == existing[|data|..])
        && (|existing| <= |data| ==> Decode(outcome.output.bytes) == Some(classSources[keyOrder[0]]))
      ensures destinationChosen && classCount != 1 ==>
        && outcome.Saved? && outcome.output.Archive?
        && EntriesFor(outcome.output.entries, keyOrder, classSources)
        && (forall k :: k in classSources <==>
              exists i :: 0 <= i < |outcome.output.entries| && outcome.output.entries[i].name == EntryName(k))
        && (forall i, j :: 0 <= i < j < |outcome.output.entries| ==>
              outcome.output.entries[i].name != outcome.output.entries[j].name)
    {
      if !destinationChosen {
        return NotSaved;
      }
      if classCount == 1 {
        if classSources == map[] {
          return SaveFailed(NoSuchElement);
        }
        var some :| some in classSources;
        assert some in keyOrder;
        var key := keyOrder[0];
        assert key in classSources;
        if |existing| <= |Encode(classSources[key])| {
          CreateReadsBackWhenNotLonger(existing, classSources[key]);
        }
        return Saved(SingleFile(WrittenWithCreate(existing, Encode(classSources[key]))));
      }
      var entries := ArchiveEntries(keyOrder, classSources);
      ArchiveShape(entries, keyOrder, classSources);
      return Saved(Archive(entries));
    }
  }
}
