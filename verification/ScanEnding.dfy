/** What ends a scan and what it keeps, said of the lines and the limits alone. */
module ScanEndings {
  import opened Common
  import opened Findings
  import opened DatasetSpills
  import opened DatasetScans
  import opened DatasetChecks

  /** The first i lines are acceptable and within both budgets. */
  ghost predicate WithinTo(lines: seq<Line>, limits: Limits, i: nat)
    requires i <= |lines|
  {
    && (forall k :: 0 <= k < i ==> !lines[k].body.Bad?)
    && BytesTo(lines, i) <= limits.semanticBytes && |DigestsTo(lines, i)| <= limits.records
  }

  /** Line i runs over the byte budget, or is not blank and one record too many. */
  ghost predicate Overruns(lines: seq<Line>, limits: Limits, i: nat)
    requires i < |lines|
  {
    || BytesTo(lines, i + 1) > limits.semanticBytes
    || (!lines[i].body.Blank? && |DigestsTo(lines, i)| >= limits.records)
  }

  /** Everything before line i is read, and line i stops the pass: by a spent budget, else because it is refused. */
  ghost predicate StopsAt(lines: seq<Line>, limits: Limits, i: nat, stop: Stop) {
    && i < |lines| && WithinTo(lines, limits, i)
    && if Overruns(lines, limits, i) then stop == IncompleteBudget else lines[i].body == Bad(stop)
  }

  /** No line stops the pass. */
  ghost predicate AllRead(lines: seq<Line>, limits: Limits) { WithinTo(lines, limits, |lines|) }

  lemma NextLine(lines: seq<Line>, limits: Limits, i: nat)
    requires i < |lines| && WithinTo(lines, limits, i)
    ensures WithinTo(lines, limits, i + 1) <==> !Overruns(lines, limits, i) && !lines[i].body.Bad?
    ensures WithinTo(lines, limits, i + 1) <==> forall stop :: !StopsAt(lines, limits, i, stop)
  {
    if Overruns(lines, limits, i) {
      assert StopsAt(lines, limits, i, IncompleteBudget);
    } else if lines[i].body.Bad? {
      assert StopsAt(lines, limits, i, lines[i].body.stop);
    }
  }

  /** From line i on, the pass ends at the line that stops it, or after the last one. */
  lemma {:induction false} ReadingMeans(lines: seq<Line>, limits: Limits, i: nat)
    returns (at: nat)
    requires i <= |lines| && WithinTo(lines, limits, i)
    ensures var read := Reading(lines, limits, i, BytesTo(lines, i), |DigestsTo(lines, i)|);
      && i <= at <= |lines| && WithinTo(lines, limits, at) && read.records == |DigestsTo(lines, at)|
      && (read.stop.None? ==> at == |lines|)
      && (read.stop.Some? ==> StopsAt(lines, limits, at, read.stop.value))
    decreases |lines| - i
  {
    at := i;
    if i < |lines| {
      NextLine(lines, limits, i);
      if WithinTo(lines, limits, i + 1) {
        at := ReadingMeans(lines, limits, i + 1);
      }
    }
  }

  /** Lines before the one that stops the pass do not stop it. */
  lemma {:induction false} WithinBefore(lines: seq<Line>, limits: Limits, i: nat, n: nat)
    requires i <= n <= |lines| && WithinTo(lines, limits, n)
    ensures WithinTo(lines, limits, i)
  {
    PrefixOfLines(lines, i, n);
  }

  lemma OneStop(lines: seq<Line>, limits: Limits, i: nat, j: nat, stop: Stop, other: Stop)
    requires StopsAt(lines, limits, i, stop)
    ensures StopsAt(lines, limits, j, other) ==> i == j && stop == other
    ensures !AllRead(lines, limits)
  {
    NextLine(lines, limits, i);
    if AllRead(lines, limits) {
      WithinBefore(lines, limits, i + 1, |lines|);
      assert false;
    }
    if StopsAt(lines, limits, j, other) && i != j {
      NextLine(lines, limits, j);
      if i < j { WithinBefore(lines, limits, i + 1, j); } else { WithinBefore(lines, limits, j + 1, i); }
      assert false;
    }
  }

  /** When the lines stop the pass, the ending is that stop, and the records are those before it. */
  lemma StoppedEnding(source: Source, limits: Limits, i: nat, stop: Stop)
    requires StopsAt(source.lines, limits, i, stop)
    ensures EndingOf(source, limits) == Ending(Some(stop), |DigestsTo(source.lines, i)|)
  {
    hide WithinTo, Overruns, StopsAt, Reading;
    StartsWithin(source.lines, limits);
    var at := ReadingMeans(source.lines, limits, 0);
    var read := Reading(source.lines, limits, 0, 0, 0);
    OneStop(source.lines, limits, i, at, stop, if read.stop.Some? then read.stop.value else stop);
    IsAllRead(source.lines, limits);
  }

  lemma StartsWithin(lines: seq<Line>, limits: Limits)
    ensures WithinTo(lines, limits, 0) && BytesTo(lines, 0) == 0 && |DigestsTo(lines, 0)| == 0
  {
  }

  lemma IsAllRead(lines: seq<Line>, limits: Limits)
    ensures WithinTo(lines, limits, |lines|) <==> AllRead(lines, limits)
  {
  }

  lemma ReadEnding(source: Source, limits: Limits)
    requires AllRead(source.lines, limits)
    ensures EndingOf(source, limits) ==
      if source.broken.Some? then Ending(source.broken, |Digests(source.lines)|)
      else if Digests(source.lines) == [] then Ending(Some(Failed), 0)
      else Ending(None, |Digests(source.lines)|)
  {
    hide WithinTo, Overruns, StopsAt, Reading;
    StartsWithin(source.lines, limits);
    var at := ReadingMeans(source.lines, limits, 0);
    var read := Reading(source.lines, limits, 0, 0, 0);
    if read.stop.Some? {
      OneStop(source.lines, limits, at, at, read.stop.value, read.stop.value);
      assert false;
    }
  }

  lemma StopsOrAllRead(lines: seq<Line>, limits: Limits) returns (i: nat, stop: Stop)
    ensures AllRead(lines, limits) || StopsAt(lines, limits, i, stop)
  {
    hide WithinTo, Overruns, StopsAt, Reading;
    StartsWithin(lines, limits);
    IsAllRead(lines, limits);
    i := ReadingMeans(lines, limits, 0);
    var read := Reading(lines, limits, 0, 0, 0);
    stop := if read.stop.Some? then read.stop.value else Failed;
  }

  /** The final state of a scan on an undisturbed disk: a stop comes from the first line that overruns a budget or is
      refused; or all lines are read and the reader failed so; or, as a failure, from a file without records or one that
      does not verify.  It is complete exactly when all is read and verified, and there is a record. */
  lemma FinalStateMeans(source: Source, limits: Limits, stop: Stop)
    ensures FinalState(source, limits, false) == Stopped(stop) <==>
      || (exists i :: StopsAt(source.lines, limits, i, stop))
      || (AllRead(source.lines, limits)
          && (|| source.broken == Some(stop)
              || (stop == Failed && source.broken.None? && (Digests(source.lines) == [] || !source.verified))))
    ensures FinalState(source, limits, false) == Complete <==>
      AllRead(source.lines, limits) && source.broken.None? && Digests(source.lines) != [] && source.verified
  {
    hide WithinTo, Overruns, StopsAt, EndingOf, AllRead, Digests;
    var at, first := StopsOrAllRead(source.lines, limits);
    if AllRead(source.lines, limits) {
      ReadEnding(source, limits);
      if i :| StopsAt(source.lines, limits, i, stop) {
        OneStop(source.lines, limits, i, i, stop, stop);
        assert false;
      }
    } else {
      StoppedEnding(source, limits, at, first);
      if i :| StopsAt(source.lines, limits, i, stop) {
        OneStop(source.lines, limits, at, i, first, stop);
      }
    }
  }

  /** Where line i overruns a budget after acceptable lines, the scan is INCOMPLETE_BUDGET and keeps exactly the records
      before it. */
  lemma BudgetKeepsRecords(source: Source, limits: Limits, i: nat)
    requires i < |source.lines| && WithinTo(source.lines, limits, i) && Overruns(source.lines, limits, i)
    ensures FinalState(source, limits, false) == Stopped(IncompleteBudget)
    ensures Inspected(source, limits) == multiset(DigestsTo(source.lines, i))
  {
    hide WithinTo, Overruns, EndingOf;
    assert StopsAt(source.lines, limits, i, IncompleteBudget);
    StoppedEnding(source, limits, i, IncompleteBudget);
    PrefixOfLines(source.lines, i, |source.lines|);
    HeadOfPrefix(Digests(source.lines), DigestsTo(source.lines, i));
  }

  lemma HeadOfPrefix(all: seq<string>, part: seq<string>)
    requires part <= all
    ensures Head(all, |part|) == part
  {
  }

  /** What a scan keeps: nothing when it fails, else the records before the line that stops it, else all. */
  lemma InspectedMeans(source: Source, limits: Limits, i: nat, stop: Stop)
    ensures FinalState(source, limits, false) == Stopped(Failed) ==> Inspected(source, limits) == multiset{}
    ensures StopsAt(source.lines, limits, i, stop) && stop != Failed ==>
      Inspected(source, limits) == multiset(DigestsTo(source.lines, i))
    ensures AllRead(source.lines, limits) && FinalState(source, limits, false) != Stopped(Failed) ==>
      Inspected(source, limits) == multiset(Digests(source.lines))
  {
    hide WithinTo, Overruns, EndingOf, AllRead;
    if StopsAt(source.lines, limits, i, stop) && stop != Failed {
      StoppedEnding(source, limits, i, stop);
      PrefixOfLines(source.lines, i, |source.lines|);
      HeadOfPrefix(Digests(source.lines), DigestsTo(source.lines, i));
    }
    if AllRead(source.lines, limits) {
      ReadEnding(source, limits);
      HeadOfPrefix(Digests(source.lines), Digests(source.lines));
    }
  }

  /** d is among the records of acceptable lines within both budgets, in a file whose scan does not fail. */
  ghost predicate ReadRecord(source: Source, limits: Limits, d: string) {
    && FinalState(source, limits, false) != Stopped(Failed)
    && exists i :: 0 <= i <= |source.lines| && WithinTo(source.lines, limits, i) && d in DigestsTo(source.lines, i)
  }

  lemma ReadIsKept(source: Source, limits: Limits, d: string)
    requires ReadRecord(source, limits, d)
    ensures d in Inspected(source, limits)
  {
    hide WithinTo, Overruns, EndingOf, AllRead, DigestsTo, Inspected;
    var lines := source.lines;
    var i: nat :| i <= |lines| && WithinTo(lines, limits, i) && d in DigestsTo(lines, i);
    var at, stop := StopsOrAllRead(lines, limits);
    InspectedMeans(source, limits, at, stop);
    if AllRead(lines, limits) {
      PrefixOfLines(lines, i, |lines|);
    } else {
      FinalStateMeans(source, limits, stop);
      StopComesLater(lines, limits, i, at, stop);
      PrefixOfLines(lines, i, at);
    }
  }

  lemma StopComesLater(lines: seq<Line>, limits: Limits, i: nat, at: nat, stop: Stop)
    requires StopsAt(lines, limits, at, stop) && i <= |lines| && WithinTo(lines, limits, i)
    ensures i <= at
  {
    if at < i {
      NextLine(lines, limits, at);
      WithinBefore(lines, limits, at + 1, i);
      assert false;
    }
  }

  /** A record read in both files of an experiment is a reported leak, whatever ended the two scans short of a
      failure. */
  lemma ReadLeakIsReported(context: Context, experiment: Experiment, d: string)
    requires ReadRecord(context.sources(Role(experiment, Train)), context.limits, d)
    requires ReadRecord(context.sources(Role(experiment, Eval)), context.limits, d)
    ensures DatasetExactLeakage in InspectedRules(context)
  {
    hide ReadRecord, Inspected;
    ReadIsKept(context.sources(Role(experiment, Train)), context.limits, d);
    ReadIsKept(context.sources(Role(experiment, Eval)), context.limits, d);
    KeptLeak(context, experiment, d);
  }

  lemma KeptLeak(context: Context, experiment: Experiment, d: string)
    requires d in Kept(context, Role(experiment, Train)) && d in Kept(context, Role(experiment, Eval))
    ensures DatasetExactLeakage in InspectedRules(context)
  {
    hide Kept, Finished;
    assert d in Kept(context, Role(experiment, Train)) * Kept(context, Role(experiment, Eval));
    match experiment {
      case Baseline =>
        assert Kept(context, Role(Baseline, Train)) * Kept(context, Role(Baseline, Eval)) != multiset{};
      case Candidate =>
        assert Kept(context, Role(Candidate, Train)) * Kept(context, Role(Candidate, Eval)) != multiset{};
    }
  }
}
