/** One descriptor-bound pass over an artifact: every byte is hashed, counted against the integrity budget and
    checked against the committed content when the pass is finished. */
module ArtifactScans {
  import opened Common

  type Byte = bv8

  /** What the descriptor delivers: a finite file, or a source that never ends. */
  datatype Stream = Stream(at: nat -> Byte, size: Option<nat>)

  /** What the operating system does with one read: refuse it, or give at most `count` bytes. */
  datatype Grant = Fails | Gives(count: nat)

  datatype Error = NotReadable | BadRequest | ReadFailed | OverBudget | Unstable | SizeMismatch | ShaMismatch
    | ContractError

  datatype State = Complete | IncompleteBudget | IncompleteLimit | Failed

  /** COMPLETE or one of the reasons for stopping early. */
  datatype Reason = Completed | Other(code: nat)

  datatype Report = Report(state: State, reason: Reason, records: nat, semanticBytes: nat, integrityBytes: nat,
                           expectedBytes: nat)

  /** The committed artifact: its size, and the content its digest commits to. */
  datatype Candidate = Candidate(size: nat, content: seq<Byte>)

  const READ_CHUNK_BYTES: nat := 65536
  const TRACE_PREFIX: seq<Byte> :=
    [99, 108, 97, 105, 109, 99, 105, 45, 101, 118, 105, 100, 101, 110, 99, 101, 45, 116, 114, 97, 99, 101, 45, 98,
     121, 116, 101, 115, 45, 118, 49, 0]

  function Slice(stream: Stream, from: nat, to: nat): (s: seq<Byte>)
    requires from <= to
    ensures |s| == to - from
  {
    seq(to - from, i requires 0 <= i < to - from => stream.at(from + i))
  }

  lemma SliceJoins(stream: Stream, from: nat, middle: nat, to: nat)
    requires from <= middle <= to
    ensures Slice(stream, from, middle) + Slice(stream, middle, to) == Slice(stream, from, to)
  {
  }

  /** How many bytes a read delivers: none only at the end of the source. */
  function Delivered(stream: Stream, position: nat, request: nat, count: nat): (n: nat)
    requires request >= 1 && (stream.size.Some? ==> position <= stream.size.value)
    ensures n <= request && (n == 0 <==> stream.size == Some(position))
    ensures stream.size.Some? ==> position + n <= stream.size.value
  {
    var wanted := Max(1, Min(request, count));
    if stream.size.Some? then Min(wanted, stream.size.value - position) else wanted
  }

  class ArtifactScan {
    const stream: Stream
    const candidate: Candidate
    const budget: nat
    var maximumReadRequest: nat
    var rawHash: seq<Byte>
    var traceHash: seq<Byte>
    var integrityBytes: nat
    var semanticBytes: nat
    var peakBufferBytes: nat
    var eof: bool
    var finished: bool
    var closed: bool
    /** How many reads have been refused for exceeding the budget. */
    ghost var breaches: nat

    /** Both hashes commit to exactly the bytes read, which are a prefix of the source; the budget is exceeded
        only by the single byte of each refused read. */
    ghost predicate Valid()
      reads this
    {
      && (stream.size.Some? ==> integrityBytes <= stream.size.value)
      && rawHash == Slice(stream, 0, integrityBytes)
      && traceHash == TRACE_PREFIX + Slice(stream, 0, integrityBytes)
      && integrityBytes <= budget + breaches
      && (breaches > 0 ==> integrityBytes == budget + breaches)
      && (eof ==> stream.size == Some(integrityBytes))
      && maximumReadRequest <= READ_CHUNK_BYTES
    }

    constructor (stream: Stream, candidate: Candidate, budget: nat)
      requires budget >= 1
      ensures Valid() && this.stream == stream && this.candidate == candidate && this.budget == budget
      ensures integrityBytes == semanticBytes == breaches == maximumReadRequest == peakBufferBytes == 0
      ensures !eof && !finished && !closed
    {
      this.stream, this.candidate, this.budget := stream, candidate, budget;
      maximumReadRequest, rawHash, traceHash := 0, [], TRACE_PREFIX;
      integrityBytes, semanticBytes, peakBufferBytes, breaches := 0, 0, 0, 0;
      eof, finished, closed := false, false, false;
    }

    /** The next block, which is the next stretch of the source; an error hands out nothing. */
    method ReadChunk(maximum: int, grant: Grant) returns (r: Result<seq<Byte>, Error>)
      requires Valid()
      modifies this`maximumReadRequest, this`rawHash, this`traceHash, this`integrityBytes, this`eof, this`breaches
      ensures Valid() && old(integrityBytes) <= integrityBytes
      ensures closed || finished ==> r == Err(NotReadable)
      ensures !closed && !finished ==> (r == Err(BadRequest) <==> !(1 <= maximum <= READ_CHUNK_BYTES))
      ensures r.Ok? ==> r.value == Slice(stream, old(integrityBytes), integrityBytes) && |r.value| <= maximum
      ensures r.Ok? ==> breaches == old(breaches) && (r.value == [] ==> eof) && (r.value != [] ==> eof == old(eof))
      ensures r.Ok? && r.value != [] ==> integrityBytes <= budget
      ensures r == Err(OverBudget) ==> breaches == old(breaches) + 1 && eof == old(eof)
      ensures r == Err(OverBudget) ==> old(integrityBytes) >= budget && integrityBytes == old(integrityBytes) + 1
      ensures r.Err? && r.error != OverBudget ==>
        integrityBytes == old(integrityBytes) && breaches == old(breaches) && eof == old(eof)
      ensures r == Err(ReadFailed) ==> grant == Fails
      ensures !closed && !finished && 1 <= maximum <= READ_CHUNK_BYTES ==>
        var request := Min(maximum, Max(1, budget - old(integrityBytes)));
        && maximumReadRequest == Max(old(maximumReadRequest), request)
        && (grant.Gives? ==>
             integrityBytes == old(integrityBytes) + Delivered(stream, old(integrityBytes), request, grant.count))
      ensures r.Ok? || r.error == NotReadable || r.error == BadRequest || r.error == ReadFailed || r.error == OverBudget
      ensures r == Err(NotReadable) ==> closed || finished
    {
      hide Slice;
      if closed || finished {
        return Err(NotReadable);
      }
      if !(1 <= maximum <= READ_CHUNK_BYTES) {
        return Err(BadRequest);
      }
      var remaining := budget - integrityBytes;
      var request := Min(maximum, Max(1, remaining));
      maximumReadRequest := Max(maximumReadRequest, request);
      if grant.Fails? {
        return Err(ReadFailed);
      }
      var n := Delivered(stream, integrityBytes, request, grant.count);
      var block := Slice(stream, integrityBytes, integrityBytes + n);
      if |block| == 0 {
        eof := true;
        return Ok([]);
      }
      SliceJoins(stream, 0, integrityBytes, integrityBytes + n);
      rawHash := rawHash + block;
      ConcatAssociates(TRACE_PREFIX, Slice(stream, 0, integrityBytes), block);
      traceHash := traceHash + block;
      integrityBytes := integrityBytes + |block|;
      if integrityBytes > budget {
        breaches := breaches + 1;
        return Err(OverBudget);
      }
      return Ok(block);
    }

    method NoteSemanticBytes(count: nat, buffered: nat)
      requires Valid()
      modifies this`semanticBytes, this`peakBufferBytes
      ensures Valid() && semanticBytes == old(semanticBytes) + count
      ensures peakBufferBytes == Max(old(peakBufferBytes), buffered)
    {
      semanticBytes := semanticBytes + count;
      peakBufferBytes := Max(peakBufferBytes, buffered);
    }

    /** Read to the end.  It stops for every source: at the end of a finite one, or at the first byte past the
        budget. */
    method Drain(grants: nat -> Grant) returns (r: Option<Error>)
      requires Valid() && !closed && !finished
      modifies this`maximumReadRequest, this`rawHash, this`traceHash, this`integrityBytes, this`eof, this`breaches
      ensures Valid()
      ensures r.None? ==> eof && breaches == old(breaches) && integrityBytes <= Max(budget, old(integrityBytes))
      ensures r.Some? ==> r.value == OverBudget || (r.value == ReadFailed && exists k: nat :: grants(k) == Fails)
      ensures r == Some(OverBudget) ==> integrityBytes == Max(budget, old(integrityBytes)) + 1
      ensures r == Some(OverBudget) ==> breaches == old(breaches) + 1 && !eof
      ensures old(integrityBytes) <= integrityBytes && (r != Some(OverBudget) ==> breaches == old(breaches))
      ensures r == Some(OverBudget) && stream.size.Some? ==> stream.size.value > Max(budget, old(integrityBytes))
    {
      var k: nat := 0;
      while !eof
        invariant Valid() && breaches == old(breaches)
        invariant old(integrityBytes) <= integrityBytes <= Max(budget, old(integrityBytes))
        decreases budget + 1 - integrityBytes, !eof
      {
        var grant := grants(k);
        var block := ReadChunk(READ_CHUNK_BYTES, grant);
        if block.Err? {
          return Some(block.error);
        }
        k := k + 1;
      }
      return None;
    }

    /** What a finish needs when no read fails: in particular the file may exceed the budget only by bytes that
        were already refused. */
    ghost predicate CanFinish(semanticComplete: bool, state: Option<State>, reason: Option<Reason>, stable: bool)
      reads this
    {
      && !closed && !finished && stable
      && stream.size == Some(candidate.size) && Slice(stream, 0, candidate.size) == candidate.content
      && candidate.size <= Max(budget, integrityBytes)
      && (semanticComplete || (state != Some(Complete) && reason != Some(Completed)))
      && semanticBytes <= candidate.size
    }

    /** Success means the whole committed content was read, once; and it is the last success. */
    method Finish(records: nat, semanticComplete: bool, state: Option<State>, reason: Option<Reason>, stable: bool,
                  grants: nat -> Grant)
      returns (r: Result<Report, Error>)
      requires Valid()
      modifies this`maximumReadRequest, this`rawHash, this`traceHash, this`integrityBytes, this`eof, this`breaches,
               this`finished
      ensures Valid() && (old(finished) ==> finished)
      ensures r.Ok? ==> !old(closed) && !old(finished) && finished
      ensures r.Ok? ==> stream.size == Some(candidate.size) && Slice(stream, 0, candidate.size) == candidate.content
      ensures r.Ok? ==> integrityBytes == candidate.size && breaches == old(breaches)
      ensures r.Ok? ==> r.value.integrityBytes == r.value.expectedBytes == candidate.size
      ensures r.Ok? ==> r.value.semanticBytes == semanticBytes <= candidate.size && r.value.records == records
      ensures r.Ok? ==>
        (r.value.state == Complete <==> semanticComplete) && (r.value.reason == Completed <==> semanticComplete)
      ensures r.Ok? && !semanticComplete ==>
        && r.value.state == (if state.Some? then state.value else IncompleteBudget)
        && r.value.reason == (if reason.Some? then reason.value else Other(0))
      ensures r.Err? ==> finished == old(finished)
      ensures r.Err? && r.error != NotReadable && r.error != ReadFailed && r.error != OverBudget ==>
        stream.size == Some(integrityBytes)
      ensures r == Err(OverBudget) ==> integrityBytes > budget
      ensures r == Err(NotReadable) ==> integrityBytes == old(integrityBytes)
      ensures old(closed) || old(finished) ==> r == Err(NotReadable) && integrityBytes == old(integrityBytes)
      ensures r.Ok? ==> old(CanFinish(semanticComplete, state, reason, stable))
      ensures old(CanFinish(semanticComplete, state, reason, stable)) && r.Err? ==>
        r.error == ReadFailed && exists k: nat :: grants(k) == Fails
      ensures breaches == old(breaches) + (if r == Err(OverBudget) then 1 else 0)
        && old(integrityBytes) <= integrityBytes
    {
      if closed || finished {
        return Err(NotReadable);
      }
      var drained := Drain(grants);
      if drained.Some? {
        return Err(drained.value);
      }
      if !stable {
        return Err(Unstable);
      }
      if integrityBytes != candidate.size {
        return Err(SizeMismatch);
      }
      if rawHash != candidate.content {
        return Err(ShaMismatch);
      }
      var resolvedState, resolvedReason := Complete, Completed;
      if !semanticComplete {
        resolvedState := if state.Some? then state.value else IncompleteBudget;
        resolvedReason := if reason.Some? then reason.value else Other(0);
        if resolvedState == Complete || resolvedReason == Completed {
          return Err(ContractError);
        }
      }
      if semanticBytes > integrityBytes {
        return Err(ContractError);
      }
      finished := true;
      return Ok(Report(resolvedState, resolvedReason, records, semanticBytes, integrityBytes, candidate.size));
    }

    method Close()
      requires Valid()
      modifies this`closed
      ensures Valid() && closed
    {
      closed := true;
    }
  }

  // ---------------------------------------------------------------- runs

  datatype Command =
    | Read(maximum: int, grant: Grant)
    | Note(count: nat, buffered: nat)
    | Finish(records: nat, semanticComplete: bool, state: Option<State>, reason: Option<Reason>, stable: bool,
             grants: nat -> Grant)
    | Close

  /** A block or an error from a read, a report or an error from a finish, or nothing to tell. */
  datatype Event = Handed(offset: nat, block: seq<Byte>) | Refused(error: Error)
    | Reported(report: Report) | Rejected(error: Error) | Silent

  predicate BreaksBudget(e: Event) { e == Refused(OverBudget) || e == Rejected(OverBudget) }

  function OverBudgetEvents(events: seq<Event>): nat {
    if events == [] then 0
    else OverBudgetEvents(events[..|events| - 1]) + if BreaksBudget(events[|events| - 1]) then 1 else 0
  }

  /** Every block handed out is the stretch of the source at its offset, and starts where earlier ones ended or
      later. */
  ghost predicate InOrder(stream: Stream, events: seq<Event>, position: nat) {
    && (forall i :: 0 <= i < |events| && events[i].Handed? ==> BlockAt(stream, events[i], position))
    && (forall i, j :: 0 <= i < j < |events| && events[i].Handed? && events[j].Handed? ==>
          events[i].offset + |events[i].block| <= events[j].offset)
  }

  ghost predicate BlockAt(stream: Stream, e: Event, position: nat)
    requires e.Handed?
  {
    && e.offset + |e.block| <= position
    && e.block == Slice(stream, e.offset, e.offset + |e.block|)
  }

  /** After a report nothing is handed out and nothing is reported. */
  ghost predicate ReportIsLast(events: seq<Event>) {
    forall i, j :: 0 <= i < j < |events| && events[i].Reported? ==> !events[j].Handed? && !events[j].Reported?
  }

  /** The bytes handed out so far. */
  function Bytes(events: seq<Event>): seq<Byte> {
    if events == [] then []
    else Bytes(events[..|events| - 1]) + if events[|events| - 1].Handed? then events[|events| - 1].block else []
  }

  /** No further byte can be handed out: the budget is passed or the source is at its end. */
  predicate Spent(stream: Stream, budget: nat, position: nat) { position > budget || stream.size == Some(position) }

  /** An event that hands out nothing either reads nothing, or leaves nothing to be handed out, unless it is a finish
      whose own reads failed. */
  predicate Wasted(e: Event, stream: Stream, budget: nat, before: nat, after: nat) {
    e.Handed? || e == Rejected(ReadFailed) || after == before || Spent(stream, budget, after)
  }

  /** A finish was interrupted by a failing read, after reading bytes that nobody was handed. */
  ghost predicate Interrupted(events: seq<Event>) { Rejected(ReadFailed) in events }

  /** At every moment before such an interruption, the bytes handed out are an unbroken prefix of the source. */
  ghost predicate Unbroken(events: seq<Event>, stream: Stream) {
    forall n :: 0 <= n <= |events| && !Interrupted(events[..n]) ==>
      Bytes(events[..n]) == Slice(stream, 0, |Bytes(events[..n])|)
  }

  method Step(scan: ArtifactScan, command: Command) returns (e: Event)
    requires scan.Valid()
    modifies scan
    ensures scan.Valid() && old(scan.integrityBytes) <= scan.integrityBytes
    ensures scan.breaches == old(scan.breaches) + if BreaksBudget(e) then 1 else 0
    ensures old(scan.finished) ==> scan.finished && !e.Handed? && !e.Reported?
    ensures old(scan.finished) ==> scan.integrityBytes == old(scan.integrityBytes)
    ensures e.Reported? ==> scan.finished
    ensures e.Handed? ==> e.offset == old(scan.integrityBytes) && scan.integrityBytes == e.offset + |e.block|
    ensures e.Handed? ==> e.block == Slice(scan.stream, e.offset, e.offset + |e.block|)
    ensures e.Handed? && e.block != [] ==> scan.integrityBytes <= scan.budget
    ensures e.Silent? ==> scan.integrityBytes == old(scan.integrityBytes)
    ensures Wasted(e, scan.stream, scan.budget, old(scan.integrityBytes), scan.integrityBytes)
    ensures e.Reported? ==> scan.stream.size == Some(scan.candidate.size) && scan.integrityBytes == scan.candidate.size
    ensures e.Reported? ==> Slice(scan.stream, 0, scan.candidate.size) == scan.candidate.content
  {
    match command
    case Read(maximum, grant) =>
      var offset := scan.integrityBytes;
      var r := scan.ReadChunk(maximum, grant);
      e := if r.Ok? then Handed(offset, r.value) else Refused(r.error);
    case Note(count, buffered) =>
      scan.NoteSemanticBytes(count, buffered);
      e := Silent;
    case Finish(records, semanticComplete, state, reason, stable, grants) =>
      var r := scan.Finish(records, semanticComplete, state, reason, stable, grants);
      e := if r.Ok? then Reported(r.value) else Rejected(r.error);
    case Close =>
      scan.Close();
      e := Silent;
  }

  ghost predicate HasReport(events: seq<Event>) {
    exists i :: 0 <= i < |events| && events[i].Reported?
  }

  /** The whole committed content, and nothing else, has been read. */
  ghost predicate ReadInFull(stream: Stream, candidate: Candidate, position: nat) {
    && stream.size == Some(candidate.size) && position == candidate.size
    && Slice(stream, 0, position) == candidate.content
  }

  /** What the events of a run say about the stream. */
  ghost predicate History(events: seq<Event>, stream: Stream, candidate: Candidate, budget: nat, position: nat,
                          finished: bool) {
    && InOrder(stream, events, position) && ReportIsLast(events)
    && (HasReport(events) ==> finished && ReadInFull(stream, candidate, position))
    && Unbroken(events, stream)
    && (Interrupted(events) || |Bytes(events)| == position || Spent(stream, budget, position))
  }

  lemma BytesExtend(events: seq<Event>, e: Event, stream: Stream, budget: nat, before: nat, after: nat)
    requires Unbroken(events, stream) && before <= after && Wasted(e, stream, budget, before, after)
    requires Interrupted(events) || |Bytes(events)| == before || Spent(stream, budget, before)
    requires e.Handed? ==>
      e.offset == before && after == e.offset + |e.block| && e.block == Slice(stream, before, after)
    requires e.Handed? && e.block != [] ==> after <= budget
    requires stream.size.Some? ==> after <= stream.size.value
    ensures Unbroken(events + [e], stream)
    ensures Interrupted(events + [e]) || |Bytes(events + [e])| == after || Spent(stream, budget, after)
  {
    hide Slice;
    var all := events + [e];
    assert all[..|all| - 1] == events && all[|all| - 1] == e && all[..|all|] == all;
    assert events[..|events|] == events;
    assert !Interrupted(all) ==> !Interrupted(events);
    if !Interrupted(all) && e.Handed? && |Bytes(events)| == before {
      SliceJoins(stream, 0, before, after);
    }
    forall n | 0 <= n <= |all| && !Interrupted(all[..n])
      ensures Bytes(all[..n]) == Slice(stream, 0, |Bytes(all[..n])|)
    {
      if n <= |events| {
        assert all[..n] == events[..n];
      }
    }
  }

  lemma HistoryExtends(events: seq<Event>, e: Event, stream: Stream, candidate: Candidate, budget: nat, before: nat,
                       after: nat, wasFinished: bool, finished: bool)
    requires History(events, stream, candidate, budget, before, wasFinished) && before <= after
    requires wasFinished ==> finished && after == before && !e.Handed? && !e.Reported?
    requires e.Handed? ==> e.offset == before && after == e.offset + |e.block| && BlockAt(stream, e, after)
    requires e.Handed? && e.block != [] ==> after <= budget
    requires stream.size.Some? ==> after <= stream.size.value
    requires Wasted(e, stream, budget, before, after)
    requires e.Reported? ==> finished && ReadInFull(stream, candidate, after)
    ensures History(events + [e], stream, candidate, budget, after, finished)
  {
    hide Unbroken, Interrupted, Bytes, Slice, Wasted, Spent;
    var all := events + [e];
    assert all[..|all| - 1] == events && all[|all| - 1] == e;
    if HasReport(all) && !e.Reported? {
      var i :| 0 <= i < |all| && all[i].Reported?;
      assert events[i].Reported?;
    }
    BytesExtend(events, e, stream, budget, before, after);
  }

  /** Any run of a scan. */
  method Run(scan: ArtifactScan, commands: seq<Command>) returns (events: seq<Event>)
    requires scan.Valid() && scan.integrityBytes == scan.breaches == 0 && !scan.finished
    modifies scan
    ensures scan.Valid() && |events| == |commands|
    ensures History(events, scan.stream, scan.candidate, scan.budget, scan.integrityBytes, scan.finished)
    ensures scan.integrityBytes <= scan.budget + OverBudgetEvents(events)
  {
    events := [];
    for i := 0 to |commands|
      invariant scan.Valid() && |events| == i
      invariant History(events, scan.stream, scan.candidate, scan.budget, scan.integrityBytes, scan.finished)
      invariant scan.breaches == OverBudgetEvents(events)
    {
      ghost var before, wasFinished := scan.integrityBytes, scan.finished;
      var e := Step(scan, commands[i]);
      HistoryExtends(events, e, scan.stream, scan.candidate, scan.budget, before, scan.integrityBytes, wasFinished,
        scan.finished);
      assert (events + [e])[..|events|] == events;
      events := events + [e];
    }
  }

  /** A budget error that the caller ignores is not repeated at the end: a file one byte over the budget can be
      finished successfully. */
  method IgnoredLimitError(content: seq<Byte>, budget: nat) returns (first: Option<Error>, r: Result<Report, Error>)
    requires budget >= 1 && |content| == budget + 1
    ensures first == Some(OverBudget)
    ensures r.Ok? && r.value.integrityBytes == budget + 1
  {
    var stream := Stream((k: nat) => if k < |content| then content[k] else 0, Some(|content|));
    var scan := new ArtifactScan(stream, Candidate(|content|, content), budget);
    var willing := (k: nat) => Gives(READ_CHUNK_BYTES);
    first := scan.Drain(willing);
    assert Slice(stream, 0, |content|) == content;
    r := scan.Finish(0, true, None, None, true, willing);
  }
}
