/** One pass over the records of a dataset split, flushed to the spill in batches under byte and record budgets. */
module DatasetScans {
  import opened Common
  import opened DatasetSpills

  const BATCH_RECORDS: nat := 128

  datatype Stop = IncompleteBudget | IncompleteLimit | Failed

  datatype State = Complete | Stopped(stop: Stop)

  /** What interrupts a pass: a controlled stop, or a scratch disk that is full. */
  datatype Raise = Halted(stop: Stop) | Full

  /** A physical line, after parsing: whitespace, a record, or a record that cannot be accepted. */
  datatype Body = Blank | Record(digest: string) | Bad(stop: Stop)

  datatype Line = Line(bytes: nat, body: Body)

  /** A split as the line reader delivers it: its lines, what ends them, and whether the integrity check
      of the finished stream passes at the first and at the second attempt. */
  datatype Source = Source(lines: seq<Line>, broken: Option<Stop>, verified: bool, verifiedAgain: bool)

  datatype Limits = Limits(semanticBytes: nat, records: nat)

  datatype SplitScan = SplitScan(role: Role, state: State, records: nat, indexed: nat)

  /** The digests of the records among the first n lines, in order. */
  function DigestsTo(lines: seq<Line>, n: nat): seq<string>
    requires n <= |lines|
  {
    if n == 0 then []
    else DigestsTo(lines, n - 1) + if lines[n - 1].body.Record? then [lines[n - 1].body.digest] else []
  }

  function Digests(lines: seq<Line>): seq<string> { DigestsTo(lines, |lines|) }

  function BytesTo(lines: seq<Line>, n: nat): nat
    requires n <= |lines|
  {
    if n == 0 then 0 else BytesTo(lines, n - 1) + lines[n - 1].bytes
  }

  /** Every line is acceptable, the budgets cover them all, and there is a record. */
  ghost predicate Clean(source: Source, limits: Limits) {
    && source.broken.None?
    && (forall i :: 0 <= i < |source.lines| ==> !source.lines[i].body.Bad?)
    && BytesTo(source.lines, |source.lines|) <= limits.semanticBytes
    && 0 < |Digests(source.lines)| <= limits.records
  }

  lemma {:induction false} PrefixOfLines(lines: seq<Line>, i: nat, n: nat)
    requires i <= n <= |lines|
    ensures DigestsTo(lines, i) <= DigestsTo(lines, n) && BytesTo(lines, i) <= BytesTo(lines, n)
  {
    if i < n {
      PrefixOfLines(lines, i, n - 1);
    }
  }

  ghost predicate OthersKept(now: map<Role, multiset<string>>, before: map<Role, multiset<string>>, role: Role) {
    && role in now && role in before
    && forall other: Role :: other != role ==> other in now && other in before && now[other] == before[other]
  }

  /** The first k digests of all were added to what the role held before; nothing else changed. */
  ghost predicate Added(now: map<Role, multiset<string>>, before: map<Role, multiset<string>>, role: Role,
                        all: seq<string>, k: nat) {
    k <= |all| && OthersKept(now, before, role) && now[role] == before[role] + multiset(all[..k])
  }

  lemma NothingAdded(before: map<Role, multiset<string>>, role: Role, all: seq<string>)
    requires OthersKept(before, before, role)
    ensures Added(before, before, role, all, 0)
  {
  }

  lemma AddedMore(now: map<Role, multiset<string>>, middle: map<Role, multiset<string>>,
                  before: map<Role, multiset<string>>, role: Role, all: seq<string>, j: nat, k: nat)
    requires j <= k <= |all| && Added(middle, before, role, all, j)
    requires OthersKept(now, middle, role) && now[role] == middle[role] + multiset(all[j..k])
    ensures Added(now, before, role, all, k)
  {
    assert all[..k] == all[..j] + all[j..k];
    assert before[role] + multiset(all[..k]) == middle[role] + multiset(all[j..k]);
  }

  /** The counters of a pass, its pending digests and the number of batches written. */
  datatype Pass = Pass(records: nat, indexed: nat, pending: seq<string>, batches: nat)

  /** The first `stored` of all digests are in the table, at least those counted as indexed. */
  ghost predicate Reached(records: nat, indexed: nat, stored: nat, all: seq<string>,
                          now: map<Role, multiset<string>>, before: map<Role, multiset<string>>, role: Role) {
    && indexed <= stored <= records <= |all|
    && records - indexed <= BATCH_RECORDS
    && Added(now, before, role, all, stored)
  }

  /** What is indexed is stored, and the rest of what was read is pending. */
  ghost predicate InStep(pass: Pass, all: seq<string>, now: map<Role, multiset<string>>,
                         before: map<Role, multiset<string>>, role: Role) {
    && Reached(pass.records, pass.indexed, pass.indexed, all, now, before, role)
    && pass.pending == all[pass.indexed..pass.records]
  }

  /** The disk gave up: the last batch is stored as a whole or not at all. */
  ghost predicate GaveUp(pass: Pass, stored: nat, all: seq<string>, now: map<Role, multiset<string>>,
                         before: map<Role, multiset<string>>, role: Role) {
    && Reached(pass.records, pass.indexed, stored, all, now, before, role)
    && (stored == pass.indexed || stored == pass.records)
  }

  /** The disk commits the batch and stays within its budget. */
  ghost predicate Willing(disk: nat -> Disk, maximumBytes: nat) { forall n: nat :: Takes(disk(n), maximumBytes) }

  /** Hand the pending digests to the spill and count them as indexed, unless the disk gives up: then they may
      nevertheless be stored. */
  method Flush(store: DatasetSpill, role: Role, pass: Pass, disk: Disk, ghost all: seq<string>,
               ghost before: map<Role, multiset<string>>)
    returns (ok: bool, after: Pass, ghost stored: nat)
    requires store.Valid() && InStep(pass, all, store.contents, before, role)
    modifies store
    ensures store.Valid() && after.records == pass.records
    ensures ok ==> InStep(after, all, store.contents, before, role) && after.pending == [] && stored == after.indexed
    ensures ok ==> store.exhausted == old(store.exhausted)
    ensures !ok ==> store.exhausted && GaveUp(after, stored, all, store.contents, before, role)
    ensures !old(store.exhausted) && Takes(disk, store.maximumBytes) ==> ok
  {
    ghost var middle := store.contents;
    var r := store.AddBatch(role, pass.pending, disk);
    ok := r.Ok?;
    after := Pass(pass.records, pass.indexed + if ok then r.value else 0, [], pass.batches + 1);
    if store.contents == middle && !ok {
      stored := pass.indexed;
    } else {
      stored := pass.records;
      if pass.pending == [] {
        assert pass.indexed == pass.records;
      } else {
        AddedMore(store.contents, middle, before, role, all, pass.indexed, pass.records);
      }
    }
  }

  /** State of the loop after i lines. */
  ghost predicate Underway(lines: seq<Line>, limits: Limits, i: nat, bytes: nat, pass: Pass) {
    && i <= |lines|
    && pass.records <= |Digests(lines)| && pass.records <= limits.records
    && DigestsTo(lines, i) == Digests(lines)[..pass.records]
    && bytes == BytesTo(lines, i) <= limits.semanticBytes
    && forall k :: 0 <= k < i ==> !lines[k].body.Bad?
  }

  datatype LineCheck = Halt(stop: Stop) | Skip | Take(digest: string)

  /** The checks each line goes through, in their order. */
  function Inspect(line: Line, bytes: nat, records: nat, limits: Limits): LineCheck {
    if bytes + line.bytes > limits.semanticBytes then Halt(IncompleteBudget)
    else if line.body.Blank? then Skip
    else if records >= limits.records then Halt(IncompleteBudget)
    else if line.body.Bad? then Halt(line.body.stop)
    else Take(line.body.digest)
  }

  /** What ends a pass and how many records it has read by then, when the disk takes every batch. */
  datatype Ending = Ending(stop: Option<Stop>, records: nat)

  function Reading(lines: seq<Line>, limits: Limits, i: nat, bytes: nat, records: nat): Ending
    requires i <= |lines|
    decreases |lines| - i
  {
    if i == |lines| then Ending(None, records)
    else
      match Inspect(lines[i], bytes, records, limits)
      case Halt(stop) => Ending(Some(stop), records)
      case Skip => Reading(lines, limits, i + 1, bytes + lines[i].bytes, records)
      case Take(_) => Reading(lines, limits, i + 1, bytes + lines[i].bytes, records + 1)
  }

  /** The first line that halts the pass, else a failure of the reader, else the absence of any record. */
  function EndingOf(source: Source, limits: Limits): Ending {
    var read := Reading(source.lines, limits, 0, 0, 0);
    if read.stop.Some? then read
    else if source.broken.Some? then Ending(source.broken, read.records)
    else if read.records == 0 then Ending(Some(Failed), 0)
    else read
  }

  function StopOf(raised: Option<Raise>): Option<Stop> {
    if raised.Some? && raised.value.Halted? then Some(raised.value.stop) else None
  }

  /** A halted line shows the split is not clean; otherwise the loop state advances. */
  lemma Advance(source: Source, limits: Limits, i: nat, bytes: nat, pass: Pass)
    requires i < |source.lines| && Underway(source.lines, limits, i, bytes, pass)
    ensures var verdict, next := Inspect(source.lines[i], bytes, pass.records, limits), bytes + source.lines[i].bytes;
            && (verdict.Halt? ==> !Clean(source, limits))
            && (verdict.Skip? ==> Underway(source.lines, limits, i + 1, next, pass))
            && (verdict.Take? ==> Underway(source.lines, limits, i + 1, next, Taken(pass, verdict.digest)))
            && (verdict.Take? ==> Digests(source.lines)[pass.records] == verdict.digest)
  {
    var lines := source.lines;
    PrefixOfLines(lines, i + 1, |lines|);
    if Inspect(lines[i], bytes, pass.records, limits).Take? {
      assert DigestsTo(lines, i + 1)[pass.records] == lines[i].body.digest;
      assert Digests(lines)[..pass.records + 1] == Digests(lines)[..pass.records] + [lines[i].body.digest];
    }
  }

  function Taken(pass: Pass, digest: string): Pass {
    pass.(records := pass.records + 1, pending := pass.pending + [digest])
  }

  /** A record joins the pending ones; a full batch is flushed. */
  method AddRecord(store: DatasetSpill, role: Role, digest: string, pass: Pass, disk: nat -> Disk,
                   ghost all: seq<string>, ghost before: map<Role, multiset<string>>)
    returns (ok: bool, after: Pass, ghost stored: nat)
    requires store.Valid() && !store.exhausted && InStep(pass, all, store.contents, before, role)
    requires |pass.pending| < BATCH_RECORDS && pass.records < |all| && all[pass.records] == digest
    modifies store
    ensures store.Valid() && after.records == pass.records + 1
    ensures ok ==>
      !store.exhausted && InStep(after, all, store.contents, before, role) && |after.pending| < BATCH_RECORDS
    ensures !ok ==> store.exhausted && GaveUp(after, stored, all, store.contents, before, role)
    ensures Willing(disk, store.maximumBytes) ==> ok
  {
    ok, after, stored := true, Taken(pass, digest), 0;
    if |after.pending| >= BATCH_RECORDS {
      ok, after, stored := Flush(store, role, after, disk(after.batches), all, before);
    }
  }

  /** How the pass stands when the lines are done or something interrupted it. */
  ghost predicate Outcome(raised: Option<Raise>, pass: Pass, stored: nat, source: Source, limits: Limits,
                          exhausted: bool, now: map<Role, multiset<string>>, before: map<Role, multiset<string>>,
                          role: Role) {
    var all := Digests(source.lines);
    && (raised.None? ==> Clean(source, limits) && !exhausted && pass.indexed == pass.records == |all|)
    && (raised.Some? ==> !Clean(source, limits) || exhausted)
    && (if exhausted then raised == Some(Full) || raised == Some(Halted(IncompleteBudget))
        else raised != Some(Full) && EndingOf(source, limits) == Ending(StopOf(raised), pass.records))
    && if raised == Some(Full) then exhausted && GaveUp(pass, stored, all, now, before, role)
       else InStep(pass, all, now, before, role)
  }

  /** The loop state before line i: nothing is lost so far, and what is to come decides the ending. */
  ghost predicate Turning(source: Source, limits: Limits, i: nat, bytes: nat, pass: Pass,
                          now: map<Role, multiset<string>>, before: map<Role, multiset<string>>, role: Role) {
    && InStep(pass, Digests(source.lines), now, before, role) && |pass.pending| < BATCH_RECORDS
    && Underway(source.lines, limits, i, bytes, pass)
    && Reading(source.lines, limits, 0, 0, 0) == Reading(source.lines, limits, i, bytes, pass.records)
  }

  lemma FirstTurn(source: Source, limits: Limits, before: map<Role, multiset<string>>, role: Role)
    requires OthersKept(before, before, role)
    ensures Turning(source, limits, 0, 0, Pass(0, 0, [], 0), before, before, role)
  {
    NothingAdded(before, role, Digests(source.lines));
  }

  /** Before line i: still turning, or interrupted by an earlier line. */
  ghost predicate LoopState(raised: Option<Raise>, pass: Pass, stored: nat, source: Source, limits: Limits, i: nat,
                            bytes: nat, exhausted: bool, now: map<Role, multiset<string>>,
                            before: map<Role, multiset<string>>, role: Role) {
    if raised.None? then !exhausted && Turning(source, limits, i, bytes, pass, now, before, role)
    else Outcome(raised, pass, stored, source, limits, exhausted, now, before, role)
  }

  lemma TurnedByHalt(source: Source, limits: Limits, i: nat, bytes: nat, pass: Pass, stored: nat,
                     now: map<Role, multiset<string>>, before: map<Role, multiset<string>>, role: Role)
    requires i < |source.lines| && Turning(source, limits, i, bytes, pass, now, before, role)
    requires Inspect(source.lines[i], bytes, pass.records, limits).Halt?
    ensures Outcome(Some(Halted(Inspect(source.lines[i], bytes, pass.records, limits).stop)), pass, stored, source,
                    limits, false, now, before, role)
  {
    Advance(source, limits, i, bytes, pass);
  }

  lemma TurnedBySkip(source: Source, limits: Limits, i: nat, bytes: nat, pass: Pass,
                     now: map<Role, multiset<string>>, before: map<Role, multiset<string>>, role: Role)
    requires i < |source.lines| && Turning(source, limits, i, bytes, pass, now, before, role)
    requires Inspect(source.lines[i], bytes, pass.records, limits).Skip?
    ensures Turning(source, limits, i + 1, bytes + source.lines[i].bytes, pass, now, before, role)
  {
    Advance(source, limits, i, bytes, pass);
  }

  /** One line of the loop. */
  method ReadLine(store: DatasetSpill, role: Role, source: Source, limits: Limits, disk: nat -> Disk, i: nat,
                  bytes: nat, pass: Pass, ghost before: map<Role, multiset<string>>)
    returns (raised: Option<Raise>, after: Pass, ghost stored: nat)
    requires store.Valid() && !store.exhausted && i < |source.lines|
    requires Turning(source, limits, i, bytes, pass, store.contents, before, role)
    modifies store
    ensures store.Valid()
    ensures LoopState(raised, after, stored, source, limits, i + 1, bytes + source.lines[i].bytes, store.exhausted,
                      store.contents, before, role)
    ensures Willing(disk, store.maximumBytes) ==> !store.exhausted
  {
    var verdict := Inspect(source.lines[i], bytes, pass.records, limits);
    raised, after, stored := None, pass, 0;
    if verdict.Halt? {
      TurnedByHalt(source, limits, i, bytes, pass, 0, store.contents, before, role);
      raised := Some(Halted(verdict.stop));
    } else if verdict.Skip? {
      TurnedBySkip(source, limits, i, bytes, pass, store.contents, before, role);
    } else {
      Advance(source, limits, i, bytes, pass);
      var ok;
      ok, after, stored := AddRecord(store, role, verdict.digest, pass, disk, Digests(source.lines), before);
      if !ok {
        raised := Some(Full);
      }
    }
  }

  /** The loop over the lines, from an empty pass. */
  method ReadLines(store: DatasetSpill, role: Role, source: Source, limits: Limits, disk: nat -> Disk)
    returns (raised: Option<Raise>, pass: Pass, ghost stored: nat, ghost bytes: nat)
    requires store.Valid() && !store.exhausted
    modifies store
    ensures store.Valid()
    ensures LoopState(raised, pass, stored, source, limits, |source.lines|, bytes, store.exhausted, store.contents,
                      old(store.contents), role)
    ensures Willing(disk, store.maximumBytes) ==> !store.exhausted
  {
    hide Turning, Outcome;
    ghost var before := store.contents;
    pass, stored, raised := Pass(0, 0, [], 0), 0, None;
    FirstTurn(source, limits, before, role);
    var i, read: nat := 0, 0;
    while i < |source.lines| && raised.None?
      invariant store.Valid() && i <= |source.lines|
      invariant LoopState(raised, pass, stored, source, limits, i, read, store.exhausted, store.contents, before, role)
      invariant Willing(disk, store.maximumBytes) ==> !store.exhausted
    {
      raised, pass, stored := ReadLine(store, role, source, limits, disk, i, read, pass, before);
      i, read := i + 1, read + source.lines[i].bytes;
    }
    bytes := read;
    assert raised.None? ==> i == |source.lines|;
  }

  lemma LastTurn(source: Source, limits: Limits, bytes: nat, pass: Pass,
                 now: map<Role, multiset<string>>, before: map<Role, multiset<string>>, role: Role)
    requires Turning(source, limits, |source.lines|, bytes, pass, now, before, role)
    ensures InStep(pass, Digests(source.lines), now, before, role)
    ensures pass.records == |Digests(source.lines)|
    ensures EndingOf(source, limits) == (if source.broken.Some? then Ending(source.broken, pass.records)
                                         else if pass.records == 0 then Ending(Some(Failed), 0)
                                         else Ending(None, pass.records))
    ensures source.broken.None? && pass.records > 0 ==> Clean(source, limits)
  {
    assert |DigestsTo(source.lines, |source.lines|)| == pass.records;
  }

  /** How the pass stands once the rest is flushed. */
  lemma Ended(source: Source, limits: Limits, pass: Pass, stored: nat, exhausted: bool,
              now: map<Role, multiset<string>>, before: map<Role, multiset<string>>, role: Role)
    requires source.broken.None? && pass.records == |Digests(source.lines)|
    requires EndingOf(source, limits) ==
      if pass.records == 0 then Ending(Some(Failed), 0) else Ending(None, pass.records)
    requires pass.records > 0 ==> Clean(source, limits)
    requires if exhausted then GaveUp(pass, stored, Digests(source.lines), now, before, role)
             else InStep(pass, Digests(source.lines), now, before, role) && pass.pending == []
    ensures Outcome(if exhausted then Some(Full) else if pass.records == 0 then Some(Halted(Failed)) else None,
                    pass, stored, source, limits, exhausted, now, before, role)
  {
  }

  /** After the last line: the reader may still fail, the rest is flushed, and an empty split is an error. */
  method EndOfLines(store: DatasetSpill, role: Role, source: Source, limits: Limits, disk: nat -> Disk,
                    ghost bytes: nat, pass: Pass, ghost before: map<Role, multiset<string>>)
    returns (raised: Option<Raise>, after: Pass, ghost stored: nat)
    requires store.Valid() && !store.exhausted
    requires Turning(source, limits, |source.lines|, bytes, pass, store.contents, before, role)
    modifies store
    ensures store.Valid()
    ensures Outcome(raised, after, stored, source, limits, store.exhausted, store.contents, before, role)
    ensures Willing(disk, store.maximumBytes) ==> !store.exhausted
  {
    hide Turning, Outcome, InStep, GaveUp, EndingOf, Clean;
    LastTurn(source, limits, bytes, pass, store.contents, before, role);
    if source.broken.Some? {
      EndedBroken(source, limits, pass, store.contents, before, role);
      return Some(Halted(source.broken.value)), pass, 0;
    }
    var ok;
    ok, after, stored := Flush(store, role, pass, disk(pass.batches), Digests(source.lines), before);
    Ended(source, limits, after, stored, !ok, store.contents, before, role);
    raised := if !ok then Some(Full) else if pass.records == 0 then Some(Halted(Failed)) else None;
  }

  lemma EndedBroken(source: Source, limits: Limits, pass: Pass, now: map<Role, multiset<string>>,
                    before: map<Role, multiset<string>>, role: Role)
    requires source.broken.Some? && EndingOf(source, limits) == Ending(source.broken, pass.records)
    requires InStep(pass, Digests(source.lines), now, before, role)
    ensures Outcome(Some(Halted(source.broken.value)), pass, 0, source, limits, false, now, before, role)
  {
  }

  /** The whole body of the pass.  Whatever interrupts it, what it stored is a prefix of the records. */
  method ScanLines(store: DatasetSpill, role: Role, source: Source, limits: Limits, disk: nat -> Disk)
    returns (raised: Option<Raise>, pass: Pass, ghost stored: nat)
    requires store.Valid()
    modifies store
    ensures store.Valid() && (old(store.exhausted) ==> store.exhausted)
    ensures Outcome(raised, pass, stored, source, limits, store.exhausted, store.contents, old(store.contents), role)
    ensures Willing(disk, store.maximumBytes) && !old(store.exhausted) ==> !store.exhausted
  {
    if store.exhausted {
      NothingAdded(store.contents, role, Digests(source.lines));
      return Some(Halted(IncompleteBudget)), Pass(0, 0, [], 0), 0;
    }
    ghost var before, bytes := store.contents, 0;
    raised, pass, stored, bytes := ReadLines(store, role, source, limits, disk);
    if raised.None? {
      raised, pass, stored := EndOfLines(store, role, source, limits, disk, bytes, pass, before);
    }
  }

  // ---------------------------------------------------------------- the whole pass

  /** What a finished pass says, and what it leaves in the table: a prefix of the records, of which at least the
      indexed ones, or nothing when it failed. */
  ghost predicate Faithful(scan: SplitScan, stored: nat, all: seq<string>, now: map<Role, multiset<string>>,
                           before: map<Role, multiset<string>>, role: Role) {
    && scan.role == role
    && if scan.state != Stopped(Failed) then Reached(scan.records, scan.indexed, stored, all, now, before, role)
       else && scan.records <= |all| && scan.indexed == stored == 0
            && OthersKept(now, before, role) && now[role] == multiset{}
  }

  /** A full disk is a spent budget; otherwise the ending decides, and a complete pass must also be verified. */
  function FinalState(source: Source, limits: Limits, exhausted: bool): State {
    if exhausted then Stopped(IncompleteBudget)
    else
      match EndingOf(source, limits).stop
      case Some(stop) => Stopped(stop)
      case None => if source.verified then Complete else Stopped(Failed)
  }

  /** Everything a finished pass over a split promises. */
  ghost predicate Scanned(scan: SplitScan, stored: nat, source: Source, limits: Limits, exhausted: bool,
                          now: map<Role, multiset<string>>, before: map<Role, multiset<string>>, role: Role) {
    && Faithful(scan, stored, Digests(source.lines), now, before, role)
    && (stored != scan.indexed ==> exhausted && stored == scan.records)
    && (scan.state == Complete <==> Clean(source, limits) && !exhausted && source.verified)
    && scan.state == FinalState(source, limits, exhausted)
    && (!exhausted ==> scan.records == EndingOf(source, limits).records)
    && (!exhausted && scan.state != Stopped(Failed) ==> scan.indexed == scan.records)
    && (scan.state == Complete ==> scan.indexed == stored == scan.records == |Digests(source.lines)|)
  }

  lemma CompleteScan(pass: Pass, stored: nat, source: Source, limits: Limits, now: map<Role, multiset<string>>,
                     before: map<Role, multiset<string>>, role: Role)
    requires Outcome(None, pass, stored, source, limits, false, now, before, role) && source.verified
    ensures Scanned(SplitScan(role, Complete, pass.records, pass.indexed), pass.indexed, source, limits, false, now,
                    before, role)
  {
    hide Digests, Clean, EndingOf;
  }

  lemma FailedScan(raised: Option<Raise>, pass: Pass, stored: nat, source: Source, limits: Limits, exhausted: bool,
                   middle: map<Role, multiset<string>>, before: map<Role, multiset<string>>, role: Role)
    requires Outcome(raised, pass, stored, source, limits, exhausted, middle, before, role)
    requires if raised.None? then !source.verified else raised.value == Halted(Failed)
    ensures !exhausted && Scanned(SplitScan(role, Stopped(Failed), pass.records, 0), 0, source, limits, exhausted,
                                  middle[role := multiset{}], before, role)
  {
    hide Digests, Clean, EndingOf;
  }

  lemma FullScan(pass: Pass, stored: nat, source: Source, limits: Limits, exhausted: bool,
                 now: map<Role, multiset<string>>, before: map<Role, multiset<string>>, role: Role)
    requires Outcome(Some(Full), pass, stored, source, limits, exhausted, now, before, role)
    ensures Scanned(SplitScan(role, Stopped(IncompleteBudget), pass.records, pass.indexed), stored, source, limits,
                    exhausted, now, before, role)
  {
    hide Digests, Clean, EndingOf;
  }

  /** A controlled stop, whose pending digests are flushed before the pass ends. */
  lemma StoppedScan(stop: Stop, pass: Pass, stored: nat, source: Source, limits: Limits, exhausted: bool,
                    middle: map<Role, multiset<string>>, before: map<Role, multiset<string>>, role: Role,
                    ok: bool, after: Pass, last: nat, spent: bool, now: map<Role, multiset<string>>)
    requires Outcome(Some(Halted(stop)), pass, stored, source, limits, exhausted, middle, before, role)
      && stop != Failed
    requires after.records == pass.records && (if ok then spent == exhausted else spent)
    requires ok ==>
      InStep(after, Digests(source.lines), now, before, role) && after.pending == [] && last == after.indexed
    requires !ok ==> GaveUp(after, last, Digests(source.lines), now, before, role)
    ensures Scanned(SplitScan(role, Stopped(if ok then stop else IncompleteBudget), after.records, after.indexed), last,
                    source, limits, spent, now, before, role)
  {
    hide Digests, Clean, EndingOf;
  }

  lemma OutcomeInStep(stop: Stop, pass: Pass, stored: nat, source: Source, limits: Limits, exhausted: bool,
                      now: map<Role, multiset<string>>, before: map<Role, multiset<string>>, role: Role)
    requires Outcome(Some(Halted(stop)), pass, stored, source, limits, exhausted, now, before, role)
    ensures InStep(pass, Digests(source.lines), now, before, role)
  {
  }

  lemma ScannedKeeps(scan: SplitScan, stored: nat, source: Source, limits: Limits, exhausted: bool,
                     now: map<Role, multiset<string>>, before: map<Role, multiset<string>>, role: Role)
    requires Scanned(scan, stored, source, limits, exhausted, now, before, role)
    ensures OthersKept(now, before, role)
  {
    hide Digests, Clean, EndingOf, FinalState;
  }

  /** A pass over one split.  None when the integrity check of the stream never passes, or the database refuses to
      delete a failed split; then the context of the whole audit is abandoned. */
  method ScanDataset(store: DatasetSpill, role: Role, source: Source, limits: Limits, disk: nat -> Disk, deletes: bool)
    returns (scan: Option<SplitScan>, ghost stored: nat)
    requires store.Valid()
    modifies store
    ensures store.Valid() && OthersKept(store.contents, old(store.contents), role)
    ensures old(store.exhausted) ==> store.exhausted
    ensures Willing(disk, store.maximumBytes) && !old(store.exhausted) ==> !store.exhausted
    ensures source.verified && deletes ==> scan.Some?
    ensures !source.verified && !source.verifiedAgain ==> scan.None?
    ensures scan.Some? ==>
      Scanned(scan.value, stored, source, limits, store.exhausted, store.contents, old(store.contents), role)
  {
    hide Outcome, InStep, GaveUp, Scanned, Digests, OthersKept;
    ghost var all, before := Digests(source.lines), store.contents;
    var raised, pass;
    raised, pass, stored := ScanLines(store, role, source, limits, disk);
    OutcomeKeeps(raised, pass, stored, source, limits, store.exhausted, store.contents, before, role);
    if raised.None? && source.verified {
      Unspent(pass, stored, source, limits, store.exhausted, store.contents, before, role);
      CompleteScan(pass, stored, source, limits, store.contents, before, role);
      scan, stored := Some(SplitScan(role, Complete, pass.records, pass.indexed)), pass.indexed;
    } else if raised.None? || raised == Some(Halted(Failed)) {
      FailedScan(raised, pass, stored, source, limits, store.exhausted, store.contents, before, role);
      var deleted := store.DeleteSplit(role, deletes);
      if !deleted {
        return None, 0;
      }
      scan, stored := Some(SplitScan(role, Stopped(Failed), pass.records, 0)), 0;
    } else if raised == Some(Full) {
      FullScan(pass, stored, source, limits, store.exhausted, store.contents, before, role);
      scan := Some(SplitScan(role, Stopped(IncompleteBudget), pass.records, pass.indexed));
    } else {
      ghost var middle, spent, step, held := store.contents, store.exhausted, pass, stored;
      OutcomeInStep(raised.value.stop, pass, stored, source, limits, spent, middle, before, role);
      var ok;
      ok, pass, stored := Flush(store, role, pass, disk(pass.batches), all, before);
      StoppedScan(raised.value.stop, step, held, source, limits, spent, middle, before, role, ok, pass, stored,
                  store.exhausted, store.contents);
      scan := Some(SplitScan(role, Stopped(if ok then raised.value.stop else IncompleteBudget), pass.records,
        pass.indexed));
    }
    ScannedKeeps(scan.value, stored, source, limits, store.exhausted, store.contents, before, role);
    if !(if raised.None? && !source.verified then source.verifiedAgain else source.verified) {
      scan := None;
    }
  }

  lemma OutcomeKeeps(raised: Option<Raise>, pass: Pass, stored: nat, source: Source, limits: Limits, exhausted: bool,
                     now: map<Role, multiset<string>>, before: map<Role, multiset<string>>, role: Role)
    requires Outcome(raised, pass, stored, source, limits, exhausted, now, before, role)
    ensures OthersKept(now, before, role)
  {
    hide Digests, Clean, EndingOf;
  }

  lemma Unspent(pass: Pass, stored: nat, source: Source, limits: Limits, exhausted: bool,
                now: map<Role, multiset<string>>, before: map<Role, multiset<string>>, role: Role)
    requires Outcome(None, pass, stored, source, limits, exhausted, now, before, role)
    ensures !exhausted
  {
  }
}
