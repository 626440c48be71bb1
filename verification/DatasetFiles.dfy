/** One dataset file read line by line and read whole: when the two readers see the same records. */
module DatasetFiles {
  import opened Common
  import opened Findings
  import opened ResultCheck
  import opened DatasetLines
  import opened DatasetSpills
  import opened DatasetScans
  import opened DatasetChecks
  import opened Audit
  import opened StreamedAudit

  // ---------------------------------------------------------------- reading the whole file

  /** The records among some lines, in order. */
  function RecordsIn(lines: seq<Bytes>, reader: Bytes -> Body): seq<string> {
    if lines == [] then []
    else (if reader(lines[0]).Record? then [reader(lines[0]).digest] else []) + RecordsIn(lines[1..], reader)
  }

  ghost predicate SomeBad(lines: seq<Bytes>, reader: Bytes -> Body) {
    exists i :: 0 <= i < |lines| && reader(lines[i]).Bad?
  }

  ghost function LoadedText(s: Bytes, reader: Bytes -> Body): Load<seq<string>> {
    var lines := TextLines(s);
    if SomeBad(lines, reader) || RecordsIn(lines, reader) == [] then Invalid else Loaded(RecordsIn(lines, reader))
  }

  lemma {:induction false} RecordsJoin(a: seq<Bytes>, b: seq<Bytes>, reader: Bytes -> Body)
    ensures RecordsIn(a + b, reader) == RecordsIn(a, reader) + RecordsIn(b, reader)
    ensures SomeBad(a + b, reader) <==> SomeBad(a, reader) || SomeBad(b, reader)
  {
    hide SomeBad;
    if a == [] {
      assert a + b == b;
    } else {
      assert (a + b)[1..] == a[1..] + b;
      RecordsJoin(a[1..], b, reader);
    }
    BadJoin(a, b, reader);
  }

  lemma BadJoin(a: seq<Bytes>, b: seq<Bytes>, reader: Bytes -> Body)
    ensures SomeBad(a + b, reader) <==> SomeBad(a, reader) || SomeBad(b, reader)
  {
    if i :| 0 <= i < |a| && reader(a[i]).Bad? {
      assert (a + b)[i] == a[i];
    }
    if i :| 0 <= i < |b| && reader(b[i]).Bad? {
      assert (a + b)[|a| + i] == b[i];
    }
  }

  /** `load_dataset`: every line blank or a record, and at least one record. */
  method LoadDataset(s: Bytes, reader: Bytes -> Body) returns (r: Load<seq<string>>)
    ensures r == LoadedText(s, reader)
  {
    hide Universal, SplitAt;
    var lines := TextLines(s);
    var hashes := [];
    for i := 0 to |lines|
      invariant hashes == RecordsIn(lines[..i], reader) && !SomeBad(lines[..i], reader)
    {
      assert lines[..i + 1] == lines[..i] + [lines[i]];
      RecordsJoin(lines[..i], [lines[i]], reader);
      assert [lines[i]][0] == lines[i];
      var body := reader(lines[i]);
      if body.Bad? {
        assert SomeBad(lines, reader);
        return Invalid;
      }
      hashes := hashes + if body.Record? then [body.digest] else [];
    }
    assert lines[..|lines|] == lines;
    r := if hashes == [] then Invalid else Loaded(hashes);
  }

  // ---------------------------------------------------------------- reading line by line

  /** The source that a scan reads: the lines delivered so far, each as the block reader takes it. */
  ghost predicate ReadFrom(source: Source, s: Bytes, reader: Bytes -> Body) {
    && |source.lines| <= |Lines(s)|
    && (forall i :: 0 <= i < |source.lines| ==> source.lines[i] == Line(Lines(s)[i].bytes, reader(Lines(s)[i].raw)))
    && (source.broken.None? ==> |source.lines| == |Lines(s)|)
  }

  /** What a pass over blocks hands to the scan. */
  method SourceOf(blocks: seq<Bytes>, maximum: nat, reader: Bytes -> Body, verified: bool, again: bool)
    returns (source: Source)
    ensures ReadFrom(source, Concat(blocks), reader)
    ensures source.broken.Some? <==>
      exists i :: 0 <= i < |Lines(Concat(blocks))| && |Lines(Concat(blocks))[i].raw| > maximum
  {
    hide Lines;
    var lines, stopped := BinaryLines(blocks, maximum);
    var read := seq(|lines|, i requires 0 <= i < |lines| => Line(lines[i].bytes, reader(lines[i].raw)));
    source := Source(read, if stopped then Some(IncompleteLimit) else None, verified, again);
  }

  /** How the parsers of the two readers compare.  On a line without a carriage return inside, the text reader accepts
      what the block reader accepts, as the same record.  Inside an accepted line a carriage return is white space
      between tokens: the pieces hold that one record and blanks, or the record is cut and some piece is refused. */
  ghost predicate Comparable(stream: Bytes -> Body, memory: Bytes -> Body) {
    && stream([]).Blank?
    && forall raw: Bytes :: Compares(stream, memory, raw)
  }

  ghost predicate Compares(stream: Bytes -> Body, memory: Bytes -> Body, raw: Bytes) {
    && (CR !in raw && !stream(raw).Bad? ==> memory(raw) == stream(raw))
    && (stream(raw).Blank? ==> !SomeBad(Pieces(raw), memory) && RecordsIn(Pieces(raw), memory) == [])
    && (stream(raw).Record? ==>
         SomeBad(Pieces(raw), memory) || RecordsIn(Pieces(raw), memory) == [stream(raw).digest])
  }

  /** Some accepted record has a carriage return inside that cuts it for the text reader. */
  ghost predicate CutRecord(s: Bytes, stream: Bytes -> Body, memory: Bytes -> Body) {
    exists i :: 0 <= i < |Lines(s)| && Cut(Lines(s)[i].raw, stream, memory)
  }

  ghost predicate Cut(raw: Bytes, stream: Bytes -> Body, memory: Bytes -> Body) {
    stream(raw).Record? && SomeBad(Pieces(raw), memory)
  }

  // ---------------------------------------------------------------- both readings of the same lines

  lemma {:induction false} PiecesJoin(a: seq<Physical>, b: seq<Physical>)
    ensures AllPieces(a + b) == AllPieces(a) + AllPieces(b)
  {
    hide Pieces;
    if a == [] {
      assert a + b == b;
    } else {
      assert (a + b)[1..] == a[1..] + b;
      PiecesJoin(a[1..], b);
    }
  }

  lemma OnePieces(line: Physical)
    ensures AllPieces([line]) == Pieces(line.raw)
  {
    assert AllPieces([line]) == Pieces(line.raw) + AllPieces([line][1..]);
  }

  ghost function PiecesTo(lines: seq<Physical>, k: nat): seq<Bytes>
    requires k <= |lines|
  {
    AllPieces(lines[..k])
  }

  lemma PiecesNext(lines: seq<Physical>, k: nat)
    requires k < |lines|
    ensures PiecesTo(lines, k + 1) == PiecesTo(lines, k) + Pieces(lines[k].raw)
  {
    hide Pieces;
    assert lines[..k + 1] == lines[..k] + [lines[k]];
    PiecesJoin(lines[..k], [lines[k]]);
    OnePieces(lines[k]);
  }

  /** The first k lines as the scan reads them. */
  ghost predicate ReadTo(read: seq<Line>, lines: seq<Physical>, k: nat, stream: Bytes -> Body) {
    && k <= |read| && k <= |lines|
    && forall i :: 0 <= i < k ==> read[i].body == stream(lines[i].raw)
  }

  ghost predicate NoneBad(read: seq<Line>, k: nat)
    requires k <= |read|
  {
    forall i :: 0 <= i < k ==> !read[i].body.Bad?
  }

  ghost predicate NoneCut(lines: seq<Physical>, k: nat, stream: Bytes -> Body, memory: Bytes -> Body)
    requires k <= |lines|
  {
    forall i :: 0 <= i < k ==> !Cut(lines[i].raw, stream, memory)
  }

  /** What the text reader accepts holds every record of the scan; where the scan accepts each line, no record is
      missing on either side, and the text reader refuses some piece exactly where a record is cut. */
  lemma {:induction false} ReadingsCompare(read: seq<Line>, lines: seq<Physical>, k: nat, stream: Bytes -> Body,
                                           memory: Bytes -> Body)
    requires Comparable(stream, memory) && ReadTo(read, lines, k, stream)
    ensures var pieces := PiecesTo(lines, k);
      && (!SomeBad(pieces, memory) ==> multiset(DigestsTo(read, k)) <= multiset(RecordsIn(pieces, memory)))
      && (!SomeBad(pieces, memory) && NoneBad(read, k) ==> DigestsTo(read, k) == RecordsIn(pieces, memory))
      && (NoneBad(read, k) ==> (SomeBad(pieces, memory) <==> !NoneCut(lines, k, stream, memory)))
  {
    hide AllPieces, Pieces, SomeBad, RecordsIn, Comparable, PiecesTo, Cut, DigestsTo;
    if k == 0 {
      NoPieces(lines, memory);
      DigestsNone(read);
    } else {
      var before, more := PiecesTo(lines, k - 1), Pieces(lines[k - 1].raw);
      ReadingsCompare(read, lines, k - 1, stream, memory);
      PiecesNext(lines, k - 1);
      RecordsJoin(before, more, memory);
      OneLineCompares(lines[k - 1].raw, stream, memory);
      DigestsNext(read, k - 1);
      RecordsGrow(DigestsTo(read, k - 1), DigestOf(read[k - 1]), RecordsIn(before, memory), RecordsIn(more, memory));
    }
  }

  /** What one line contributes to the digests of a scan. */
  function DigestOf(line: Line): seq<string> { if line.body.Record? then [line.body.digest] else [] }

  lemma DigestsNone(read: seq<Line>)
    ensures DigestsTo(read, 0) == []
  {
  }

  lemma DigestsNext(read: seq<Line>, k: nat)
    requires k < |read|
    ensures DigestsTo(read, k + 1) == DigestsTo(read, k) + DigestOf(read[k])
  {
  }

  lemma RecordsGrow(a: seq<string>, b: seq<string>, m: seq<string>, n: seq<string>)
    ensures multiset(a) <= multiset(m) && multiset(b) <= multiset(n) ==> multiset(a + b) <= multiset(m + n)
  {
  }

  lemma NoPieces(lines: seq<Physical>, memory: Bytes -> Body)
    ensures RecordsIn(PiecesTo(lines, 0), memory) == [] && !SomeBad(PiecesTo(lines, 0), memory)
  {
  }

  lemma OneLineCompares(raw: Bytes, stream: Bytes -> Body, memory: Bytes -> Body)
    requires Comparable(stream, memory)
    ensures var bad, records := SomeBad(Pieces(raw), memory), RecordsIn(Pieces(raw), memory);
      && (stream(raw).Blank? ==> !bad && records == [] && !Cut(raw, stream, memory))
      && (stream(raw).Record? ==> bad || records == [stream(raw).digest])
      && (stream(raw).Record? ==> (bad <==> Cut(raw, stream, memory)))
  {
    hide Pieces, SomeBad, RecordsIn;
    assert Compares(stream, memory, raw);
  }

  /** The text reader reads the pieces of all lines, and perhaps one blank line more. */
  lemma TextReading(s: Bytes, stream: Bytes -> Body, memory: Bytes -> Body)
    requires Comparable(stream, memory)
    ensures RecordsIn(TextLines(s), memory) == RecordsIn(PiecesTo(Lines(s), |Lines(s)|), memory)
    ensures SomeBad(TextLines(s), memory) <==> SomeBad(PiecesTo(Lines(s), |Lines(s)|), memory)
  {
    hide Pieces, SomeBad, RecordsIn, AllPieces, TextLines, AllLines, Comparable;
    TextLinesArePieces(s);
    var all, lines := AllLines(s), Lines(s);
    assert lines[..|lines|] == lines;
    var last := all[|all| - 1];
    if last.bytes == 0 {
      assert all == lines + [last];
      PiecesJoin(lines, [last]);
      OnePieces(last);
      RecordsJoin(AllPieces(lines), Pieces(last.raw), memory);
      EmptyLast(s);
      OneLineCompares([], stream, memory);
      EmptyIsBlank(stream, memory);
    }
  }

  lemma EmptyIsBlank(stream: Bytes -> Body, memory: Bytes -> Body)
    requires Comparable(stream, memory)
    ensures stream([]).Blank?
  {
    hide Compares;
  }

  lemma LoadedMeans(s: Bytes, stream: Bytes -> Body, memory: Bytes -> Body)
    requires Comparable(stream, memory)
    ensures var pieces, load := PiecesTo(Lines(s), |Lines(s)|), LoadedText(s, memory);
      && (load.Loaded? <==> !SomeBad(pieces, memory) && RecordsIn(pieces, memory) != [])
      && (load.Loaded? ==> load.value == RecordsIn(pieces, memory))
  {
    hide Pieces, SomeBad, RecordsIn, PiecesTo, TextLines, Lines, Comparable;
    TextReading(s, stream, memory);
  }

  lemma PrefixLoads(lines: seq<Physical>, k: nat, memory: Bytes -> Body)
    requires k <= |lines|
    ensures SomeBad(PiecesTo(lines, k), memory) ==> SomeBad(PiecesTo(lines, |lines|), memory)
    ensures multiset(RecordsIn(PiecesTo(lines, k), memory)) <= multiset(RecordsIn(PiecesTo(lines, |lines|), memory))
  {
    hide AllPieces, SomeBad, RecordsIn;
    assert lines[..|lines|] == lines[..k] + lines[k..];
    PiecesJoin(lines[..k], lines[k..]);
    RecordsJoin(AllPieces(lines[..k]), AllPieces(lines[k..]), memory);
  }

  /** Both readers see the same file, in the sense that the streamed audit relies on, if and only if the scan does not
      accept it all while a carriage return cuts one of its records. */
  lemma SameFileExactly(source: Source, s: Bytes, stream: Bytes -> Body, memory: Bytes -> Body)
    requires Comparable(stream, memory) && ReadFrom(source, s, stream)
    ensures SameFile(source, LoadedText(s, memory)) <==> !(Readable(source) && CutRecord(s, stream, memory))
  {
    hide PiecesTo, SomeBad, RecordsIn, Comparable, LoadedText, Lines, Cut;
    var lines, k := Lines(s), |source.lines|;
    LoadedMeans(s, stream, memory);
    ReadingsCompare(source.lines, lines, k, stream, memory);
    PrefixLoads(lines, k, memory);
  }

  /** Without a carriage return inside a line no record is cut, and the two readers see the same file. */
  lemma NoReturnSameFile(source: Source, s: Bytes, stream: Bytes -> Body, memory: Bytes -> Body)
    requires Comparable(stream, memory) && ReadFrom(source, s, stream)
    requires forall i :: 0 <= i < |Lines(s)| ==> CR !in Lines(s)[i].raw
    ensures SameFile(source, LoadedText(s, memory))
  {
    hide SameFile, Readable, Lines, LoadedText, SomeBad, Comparable;
    SameFileExactly(source, s, stream, memory);
    forall i | 0 <= i < |Lines(s)| ensures !Cut(Lines(s)[i].raw, stream, memory) {
      NoReturnNoCut(Lines(s)[i].raw, stream, memory);
    }
  }

  lemma NoReturnNoCut(raw: Bytes, stream: Bytes -> Body, memory: Bytes -> Body)
    requires Comparable(stream, memory) && CR !in raw
    ensures !Cut(raw, stream, memory)
  {
    assert Compares(stream, memory, raw);
    FirstIs(CR, raw, |raw|);
    assert Pieces(raw) == [raw];
  }

  // ---------------------------------------------------------------- a record that only one reader accepts

  /** One record with a carriage return between two of its tokens, such as an object written as two halves: the block
      reader accepts it, the text reader refuses the first half. */
  lemma CutFile(source: Source, head: Bytes, tail: Bytes, stream: Bytes -> Body, memory: Bytes -> Body, d: string)
    requires LineFree(head + [CR] + tail) && CR !in head && stream(head + [CR] + tail) == Record(d) && memory(head).Bad?
    requires ReadFrom(source, head + [CR] + tail, stream) && source.broken.None?
    ensures source.lines == [Line(|head| + 1 + |tail|, Record(d))] && Readable(source)
    ensures LoadedText(head + [CR] + tail, memory) == Invalid
    ensures !SameFile(source, LoadedText(head + [CR] + tail, memory))
  {
    hide Universal, AllLines;
    var s := head + [CR] + tail;
    OneLine(s, []);
    OneDigest(source.lines, d);
    TextLinesArePieces(s);
    OnePieces(Physical(s, |s|));
    FirstIs(CR, s, |head|);
    assert Pieces(s)[0] == head;
  }

  lemma OneDigest(lines: seq<Line>, d: string)
    requires |lines| == 1 && lines[0].body == Record(d)
    ensures Digests(lines) == [d]
  {
    assert DigestsTo(lines, 0) == [];
  }

  /** Where such a file is the training file of an otherwise sound audit, streaming supports the claim, and the audit of
      the whole files lacks evidence. */
  lemma CutRecordSupports(context: Context, a: Artifacts, claim: Claim, floats: Floats, head: Bytes, tail: Bytes,
                          stream: Bytes -> Body, memory: Bytes -> Body, d: string, e: string, bytes: nat, again: bool)
    requires LineFree(head + [CR] + tail) && CR !in head && stream(head + [CR] + tail) == Record(d) && memory(head).Bad?
    requires ReadFrom(context.sources(Role(Baseline, Train)), head + [CR] + tail, stream)
    requires context.sources(Role(Baseline, Train)).broken.None? && context.sources(Role(Baseline, Train)).verified
    requires context.sources(Role(Baseline, Eval)) == Source([Line(bytes, Record(e))], None, true, again)
    requires context.sources(Role(Candidate, Train)) == Source([Line(bytes, Record(d))], None, true, again)
    requires context.sources(Role(Candidate, Eval)) == Source([Line(bytes, Record(e))], None, true, again)
    requires context.limits.records >= 1 && d != e
    requires bytes <= context.limits.semanticBytes && |head| + 1 + |tail| <= context.limits.semanticBytes
    requires a.baselineTrain == LoadedText(head + [CR] + tail, memory) && a.baselineEval == Loaded([e])
    requires a.candidateTrain == Loaded([d]) && a.candidateEval == Loaded([e])
    requires FairConfigs(a.baselineConfig, a.candidateConfig)
    requires SoundResults(a.baselineResults, a.candidateResults, claim, floats)
    ensures VerdictOf(AuditRules(a, claim, floats, InspectedRules(context))) == Supported
    ensures MemoryVerdict(a, claim, floats) == InsufficientEvidence
  {
    hide Readable, Inspected, FinalState, Digests, SameFile, FairConfigs, SoundResults, LoadedText, AuditRules,
      InspectedRules, ReadFrom, LineFree;
    var train := context.sources(Role(Baseline, Train));
    CutFile(train, head, tail, stream, memory, d);
    OneRecord(train, context.limits, d, |head| + 1 + |tail|, train.verifiedAgain);
    OneRecord(context.sources(Role(Baseline, Eval)), context.limits, e, bytes, again);
    OneRecord(context.sources(Role(Candidate, Train)), context.limits, d, bytes, again);
    OneRecord(context.sources(Role(Candidate, Eval)), context.limits, e, bytes, again);
    forall role: Role ensures Finished(context, role) {
      match role
      case Role(Baseline, Train) =>
      case Role(Baseline, Eval) =>
      case Role(Candidate, Train) =>
      case Role(Candidate, Eval) =>
    }
    CleanInspection(context, d, e);
    CutVerdicts(context, a, claim, floats, d, e);
  }

  lemma CleanInspection(context: Context, d: string, e: string)
    requires d != e && forall role: Role :: Finished(context, role)
    requires Kept(context, Role(Baseline, Train)) == Kept(context, Role(Candidate, Train)) == multiset{d}
    requires Kept(context, Role(Baseline, Eval)) == Kept(context, Role(Candidate, Eval)) == multiset{e}
    ensures InspectedRules(context) == {DatasetNoLeakage, DatasetEvaluationAligned}
  {
    hide Kept, Finished;
    assert multiset{d} * multiset{e} == multiset{};
  }

  lemma CutVerdicts(context: Context, a: Artifacts, claim: Claim, floats: Floats, d: string, e: string)
    requires InspectedRules(context) == {DatasetNoLeakage, DatasetEvaluationAligned} && d != e
    requires a.baselineTrain == Invalid && a.baselineEval == Loaded([e])
    requires a.candidateTrain == Loaded([d]) && a.candidateEval == Loaded([e])
    requires FairConfigs(a.baselineConfig, a.candidateConfig)
    requires SoundResults(a.baselineResults, a.candidateResults, claim, floats)
    ensures VerdictOf(AuditRules(a, claim, floats, InspectedRules(context))) == Supported
    ensures MemoryVerdict(a, claim, floats) == InsufficientEvidence
  {
    hide AllHarmless, SomeInvalidates, FairConfigs, SoundResults, UnfairConfigs, RefutedResults, ConfigRules,
      ResultRules, DatasetRules, InspectedRules;
    ConfigMeaning(a.baselineConfig, a.candidateConfig);
    ResultMeaning(a.baselineResults, a.candidateResults, claim, floats);
    DatasetMeaning(a);
    assert multiset([d]) * multiset([e]) == multiset{};
    HarmlessNeverInvalidates(ConfigRules(a.baselineConfig, a.candidateConfig));
    HarmlessNeverInvalidates(ResultRules(a.baselineResults, a.candidateResults, claim, floats));
    TwoHarmless(InspectedRules(context));
    HarmlessNeverInvalidates(InspectedRules(context));
    GroupsJoin(ConfigRules(a.baselineConfig, a.candidateConfig),
      ResultRules(a.baselineResults, a.candidateResults, claim, floats));
    GroupsJoin(ConfigRules(a.baselineConfig, a.candidateConfig)
      + ResultRules(a.baselineResults, a.candidateResults, claim, floats), DatasetRules(a));
    GroupsJoin(ConfigRules(a.baselineConfig, a.candidateConfig)
      + ResultRules(a.baselineResults, a.candidateResults, claim, floats), InspectedRules(context));
  }

  lemma HarmlessNeverInvalidates(rules: set<Rule>)
    requires AllHarmless(rules)
    ensures !SomeInvalidates(rules)
  {
  }

  lemma TwoHarmless(rules: set<Rule>)
    requires rules == {DatasetNoLeakage, DatasetEvaluationAligned}
    ensures AllHarmless(rules)
  {
  }
}
