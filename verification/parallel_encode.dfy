/** Whole encode calls: chunks built, encoded by racing workers and gathered, against encoding one document after
    the other. */
module ParallelEncode {
  import opened Common
  import opened Utf8
  import opened Documents
  import opened DocumentChunks
  import opened JsonLines
  import opened Gather
  import D = DocChunks
  import SpModel
  import SpFinalize
  import SpFragments
  import SpChunks

  /** The documents' ids in one run, and the length of each document's row. */
  type Ragged = (seq<Id>, seq<nat>)

  function Serial(enc: D.Encoder, docs: seq<Bytes>): Ragged {
    (Concat(D.EncodeAll(enc, docs)), D.Lengths(D.EncodeAll(enc, docs)))
  }

  /** `encode_docs_ragged_serial`: one document after the other. */
  method EncodeDocsSerial(enc: D.Encoder, docs: seq<Bytes>) returns (ids: seq<Id>, lens: seq<nat>)
    ensures (ids, lens) == Serial(enc, docs)
  {
    hide D.Lengths;
    ids, lens := [], [];
    assert docs[..0] == [];
    SerialStart(enc, docs);
    for i := 0 to |docs|
      invariant (ids, lens) == Serial(enc, docs[..i])
    {
      SerialSnoc(enc, docs, i);
      ids, lens := ids + enc(docs[i], true), lens + [|enc(docs[i], true)|];
    }
    assert docs[..|docs|] == docs;
  }

  lemma SerialStart(enc: D.Encoder, docs: seq<Bytes>)
    ensures Serial(enc, docs[..0]) == ([], [])
  {
  }

  lemma SerialSnoc(enc: D.Encoder, docs: seq<Bytes>, i: nat)
    requires i < |docs|
    ensures var (ids, lens), row := Serial(enc, docs[..i]), enc(docs[i], true);
      Serial(enc, docs[..i + 1]) == (ids + row, lens + [|row|])
  {
    var before := D.EncodeAll(enc, docs[..i]);
    assert docs[..i + 1] == docs[..i] + [docs[i]];
    D.EncodeAllSnoc(enc, docs[..i], docs[i]);
    ConcatSnoc(before, enc(docs[i], true));
    assert D.Lengths(before + [enc(docs[i], true)]) == D.Lengths(before) + [|enc(docs[i], true)|];
  }

  // ---------------------------------------------------------------------------
  // Workers
  // ---------------------------------------------------------------------------

  /** Whatever order the workers step in, up to the end of the run. */
  type Schedule = Job -> seq<State>

  ghost predicate Finishing(schedule: Schedule) {
    forall job: Job :: Run(job, schedule(job)) && Done(schedule(job)[|schedule(job)| - 1])
  }

  /** One worker alone finishes every job. */
  lemma SomeRun(job: Job)
    ensures exists run :: Run(job, run) && Done(run[|run| - 1])
  {
    hide Init, Step, Measure;
    var n := |job.chunks|;
    var start := State(0, seq(n, i => None), seq(n, i => 0), seq(job.cap, i => 0), 0, 0, false, None, [Pull]);
    assert Init(job, start) by { StartsInit(job, start); }
    var run := RunsFinish(job, [start]);
  }

  lemma StartsInit(job: Job, s: State)
    requires var n := |job.chunks|; s == State(0, seq(n, i => None), seq(n, i => 0), seq(job.cap, i => 0), 0, 0, false, None, [Pull])
    ensures Init(job, s)
  {
  }

  ghost function RunOf(job: Job): (run: seq<State>)
    ensures Run(job, run) && Done(run[|run| - 1])
  {
    SomeRun(job);
    var run :| Run(job, run) && Done(run[|run| - 1]);
    run
  }

  /** There are such schedules. */
  lemma FinishingExists()
    ensures exists schedule :: Finishing(schedule)
  {
    hide Run, Done;
    assert Finishing((job: Job) => RunOf(job));
  }

  function Outputs(enc: D.Encoder, chunks: seq<D.Chunk>): (outs: seq<D.ChunkTokens>)
    ensures |outs| == |chunks| && forall i :: 0 <= i < |outs| ==> outs[i] == D.EncodeChunk(enc, chunks[i])
  {
    seq(|chunks|, i requires 0 <= i < |chunks| => D.EncodeChunk(enc, chunks[i]))
  }

  function Ids(outs: seq<D.ChunkTokens>): (ids: seq<seq<Id>>)
    ensures |ids| == |outs| && forall i :: 0 <= i < |ids| ==> ids[i] == outs[i].ids
  {
    seq(|outs|, i requires 0 <= i < |outs| => outs[i].ids)
  }

  /** `encode_chunks_gathered_with_cap`: a lone chunk directly, more through the workers, in any interleaving, with
      the reservation granted or refused, kept or overrun. */
  method EncodeChunksGathered(enc: D.Encoder, chunks: seq<D.Chunk>, cap: nat, granted: bool, schedule: Schedule)
    returns (ids: seq<Id>, counts: seq<nat>)
    requires D.Consecutive(chunks) && Finishing(schedule)
    ensures ids == Concat(D.Rows(enc, chunks)) && counts == D.Lengths(D.Rows(enc, chunks))
  {
    hide *;
    var outs := Outputs(enc, chunks);
    OutputsAre(enc, chunks);
    D.IdsAreRows(enc, chunks, Ids(outs));
    counts := D.RowCounts(outs, enc, chunks);
    if |chunks| <= 1 {
      FewIds(outs);
      return if chunks == [] then [] else outs[0].ids, counts;
    }
    var job := Job(Ids(outs), granted && cap > 0, cap);
    var run := schedule(job);
    FinishedInv(schedule, job);
    ids := Collect(job, run[|run| - 1]);
  }

  lemma OutputsAre(enc: D.Encoder, chunks: seq<D.Chunk>)
    ensures var outs := Outputs(enc, chunks);
      && |outs| == |Ids(outs)| == |chunks|
      && forall i :: 0 <= i < |chunks| ==> outs[i] == D.EncodeChunk(enc, chunks[i]) && Ids(outs)[i] == D.EncodeChunk(enc, chunks[i]).ids
  {
  }

  lemma FewIds(outs: seq<D.ChunkTokens>)
    requires |outs| <= 1
    ensures Concat(Ids(outs)) == if outs == [] then [] else outs[0].ids
  {
  }

  lemma FinishedInv(schedule: Schedule, job: Job)
    requires Finishing(schedule)
    ensures var run := schedule(job); |run| > 0 && Inv(job, run[|run| - 1]) && Done(run[|run| - 1])
  {
    var run := schedule(job);
    hide Done, Inv;
    RunInv(job, run, |run| - 1);
  }

  // ---------------------------------------------------------------------------
  // Documents
  // ---------------------------------------------------------------------------

  function ByteTotal(docs: seq<Bytes>): (total: nat)
    ensures total == |Concat(docs)|
  {
    if docs == [] then 0 else |docs[0]| + ByteTotal(docs[1..])
  }

  /** `encode_docs_ragged`: exactly what encoding one document after the other gives. */
  method EncodeDocsRagged(enc: D.Encoder, split: D.Splitter, docs: seq<Bytes>, threads: nat, lpt: bool, granted: bool, schedule: Schedule)
    returns (ids: seq<Id>, counts: seq<nat>)
    requires D.SplitOk(enc, split) && D.Positionless(enc) && Finishing(schedule) && threads > 0
    ensures (ids, counts) == Serial(enc, docs)
  {
    hide D.SplitOk, D.Positionless, D.Consecutive, D.Sources, D.Packed, D.AllCut, D.Rows, D.EncodeAll, D.Lengths, Finishing, Concat;
    var total := ByteTotal(docs);
    var chunks := D.BuildDocChunks(enc, split, docs, total, ChunkTarget(total, threads), lpt);
    ids, counts := EncodeChunksGathered(enc, chunks, total, granted, schedule);
  }

  /** `assemble_ragged`: the chunks' rows and ids, copied into one buffer once all are encoded. */
  method AssembleRagged(enc: D.Encoder, chunks: seq<D.Chunk>) returns (ids: seq<Id>, counts: seq<nat>)
    requires D.Consecutive(chunks)
    ensures ids == Concat(D.Rows(enc, chunks)) && counts == D.Lengths(D.Rows(enc, chunks))
  {
    hide *;
    var outs := Outputs(enc, chunks);
    OutputsAre(enc, chunks);
    D.IdsAreRows(enc, chunks, Ids(outs));
    counts := D.RowCounts(outs, enc, chunks);
    var flat := GatherFlat(Ids(outs));
    ids := flat[..];
  }

  /** `sp_encode_docs_ragged`, for models with and without the raw fast path. */
  method SpEncodeDocsRagged(m: SpModel.Model, sp: SpFinalize.SpeedPaths, enc: D.Encoder, texts: seq<Bytes>, threads: nat)
    returns (ids: seq<Id>, counts: seq<nat>)
    requires sp.rawPrepend.Some? ==> enc == SpChunks.RawEncoder(m, sp) && forall t :: t in texts ==> SpFragments.RawReady(m, sp, t)
    requires threads > 0
    ensures (ids, counts) == Serial(enc, texts)
  {
    hide D.Consecutive, D.Sources, D.Packed, D.Rows, D.EncodeAll, D.Lengths, SpFragments.RawReady, SpChunks.RawEncoder, Concat;
    var chunks := SpChunks.SpBuildChunks(m, sp, texts, ChunkTarget(ByteTotal(texts), threads), enc);
    ids, counts := AssembleRagged(enc, chunks);
  }

  // ---------------------------------------------------------------------------
  // Files cut into regions
  // ---------------------------------------------------------------------------

  /** How documents lie in a file: JSON lines, or text between separators, or all of it. */
  datatype DocFormat = Jsonl(parse: Parser) | Text(separator: Option<Bytes>)

  predicate Separated(format: DocFormat) {
    format.Text? && format.separator.Some? && format.separator.value != []
  }

  /** The documents of a byte region. */
  function DocsIn(format: DocFormat, bytes: Bytes): seq<Bytes> {
    if format.Jsonl? then Until(format.parse, Lines(bytes))
    else if Separated(format) then Docs(bytes, format.separator.value)
    else [bytes]
  }

  /** JSON lines up to the first that does not parse, the pieces between separators, or all of it: also for the empty
      separator, which separates nothing. */
  lemma DocsByFormat(bytes: Bytes)
    ensures forall parse: Parser :: DocsIn(Jsonl(parse), bytes) == Until(parse, Lines(bytes))
    ensures forall sep: Bytes :: DocsIn(Text(Some(sep)), bytes) == if sep == [] then [bytes] else Docs(bytes, sep)
    ensures DocsIn(Text(None), bytes) == [bytes]
  {
  }

  /** `for_each_doc`. */
  method ForEachDoc(format: DocFormat, bytes: Bytes) returns (docs: seq<Bytes>)
    ensures docs == DocsIn(format, bytes)
  {
    hide Docs, Until, Lines, DocumentIter.Remaining, JsonLinesSlice.Remaining;
    if format.Jsonl? {
      var lines := new JsonLinesSlice(bytes, format.parse);
      docs := lines.Collect();
    } else if Separated(format) {
      var iter := new DocumentIter.NewRange(bytes, format.separator.value, 0, |bytes|);
      assert bytes[0..|bytes|] == bytes;
      docs := iter.Collect();
    } else {
      docs := [bytes];
    }
  }

  function RangesIn(format: DocFormat, bytes: Bytes, target: nat): (rs: seq<Range>)
    ensures forall r :: r in rs ==> r.start <= r.end <= |bytes|
  {
    LineProper();
    if format.Jsonl? then Ranges(bytes, LineBoundary(), target)
    else if Separated(format) then Ranges(bytes, SeparatorBoundary(format.separator.value), target)
    else [Range(0, |bytes|)]
  }

  /** The documents of a file, region by region. */
  function ChunkedDocsIn(format: DocFormat, bytes: Bytes, target: nat): seq<Bytes> {
    DocsOf(bytes, RangesIn(format, bytes, target), (region: Bytes) => DocsIn(format, region))
  }

  function AllDocs(files: seq<Bytes>, docs: Bytes -> seq<Bytes>): seq<Bytes> {
    if files == [] then [] else AllDocs(files[..|files| - 1], docs) + docs(files[|files| - 1])
  }

  /** When a file's regions hold the file's documents. */
  ghost predicate ReadsSerially(format: DocFormat, bytes: Bytes, target: nat) {
    match format
    case Jsonl(parse) => FailsOut(parse, RegionLines(bytes, target))
    case Text(_) => Separated(format) ==> BorderFree(format.separator.value)
  }

  lemma {:induction false} SameDocsOf(bytes: Bytes, rs: seq<Range>, f: Bytes -> seq<Bytes>, g: Bytes -> seq<Bytes>)
    requires (forall r :: r in rs ==> r.start <= r.end <= |bytes|) && forall b :: f(b) == g(b)
    ensures DocsOf(bytes, rs, f) == DocsOf(bytes, rs, g)
  {
    if rs != [] {
      SameDocsOf(bytes, rs[1..], f, g);
    }
  }

  /** For JSON lines exactly when nothing parses in a region after one that fails; for text whenever the separator
      has no border. */
  lemma RegionsReadSerially(format: DocFormat, bytes: Bytes, target: nat)
    ensures ReadsSerially(format, bytes, target) ==> ChunkedDocsIn(format, bytes, target) == DocsIn(format, bytes)
    ensures format.Jsonl? && ChunkedDocsIn(format, bytes, target) == DocsIn(format, bytes) ==> ReadsSerially(format, bytes, target)
  {
    hide Docs, Until, Lines, Ranges, FailsOut, BorderFree;
    LineProper();
    var docs := (region: Bytes) => DocsIn(format, region);
    var rs := RangesIn(format, bytes, target);
    if format.Jsonl? {
      SameDocsOf(bytes, rs, docs, LineDocs(format.parse));
      ChunkedIsSerialIffFailsOut(bytes, format.parse, target);
    } else if Separated(format) {
      SameDocsOf(bytes, rs, docs, TextDocs(format.separator.value));
      ChunkedIsSerialIffBorderFree(format.separator.value, target);
      assert ChunkedDocs(bytes, format.separator.value, target) == ChunkedDocsIn(format, bytes, target);
    } else {
      DocsOfOne(bytes, Range(0, |bytes|), docs);
      assert bytes[0..|bytes|] == bytes;
    }
  }

  /** `chunk_ranges` of every file, and the documents of each region. */
  method RegionChunks(files: seq<Bytes>, format: DocFormat, target: nat) returns (chunks: seq<D.Chunk>)
    ensures D.Consecutive(chunks)
    ensures forall enc: D.Encoder :: D.Rows(enc, chunks) == D.EncodeAll(enc, AllDocs(files, (b: Bytes) => ChunkedDocsIn(format, b, target)))
  {
    hide *;
    ghost var docs := (b: Bytes) => ChunkedDocsIn(format, b, target);
    chunks := [];
    NoRegions(files, docs);
    for i := 0 to |files|
      invariant StandFor(chunks, AllDocs(files[..i], docs))
    {
      var bytes := files[i];
      ghost var seen := AllDocs(files[..i], docs);
      var rs := FileRanges(format, bytes, target);
      NoRanges(seen, bytes, rs, format);
      for k := 0 to |rs|
        invariant StandFor(chunks, seen + DocsOf(bytes, rs[..k], (region: Bytes) => DocsIn(format, region)))
      {
        assert rs[k] in rs;
        var found := ForEachDoc(format, bytes[rs[k].start..rs[k].end]);
        NextRange(seen, chunks, bytes, rs, k, format);
        chunks := chunks + [D.Docs(found)];
      }
      assert rs[..|rs|] == rs;
      NextFile(files, i, format, target);
    }
    assert files[..|files|] == files;
    Stands(chunks, AllDocs(files, docs));
  }

  ghost predicate StandFor(chunks: seq<D.Chunk>, docs: seq<Bytes>) {
    D.Consecutive(chunks) && forall enc: D.Encoder :: D.Rows(enc, chunks) == D.EncodeAll(enc, docs)
  }

  lemma Stands(chunks: seq<D.Chunk>, docs: seq<Bytes>)
    requires StandFor(chunks, docs)
    ensures D.Consecutive(chunks) && forall enc: D.Encoder :: D.Rows(enc, chunks) == D.EncodeAll(enc, docs)
  {
  }

  lemma NoRegions(files: seq<Bytes>, docs: Bytes -> seq<Bytes>)
    ensures StandFor([], AllDocs(files[..0], docs))
  {
  }

  lemma NoRanges(seen: seq<Bytes>, bytes: Bytes, rs: seq<Range>, format: DocFormat)
    ensures seen + DocsOf(bytes, rs[..0], (region: Bytes) => DocsIn(format, region)) == seen
  {
  }

  lemma {:induction false} DocsOfSnoc(bytes: Bytes, rs: seq<Range>, r: Range, docs: Bytes -> seq<Bytes>)
    requires r.start <= r.end <= |bytes| && forall q :: q in rs ==> q.start <= q.end <= |bytes|
    ensures DocsOf(bytes, rs + [r], docs) == DocsOf(bytes, rs, docs) + docs(bytes[r.start..r.end])
  {
    if rs == [] {
      assert rs + [r] == [r];
      DocsOfOne(bytes, r, docs);
    } else {
      assert (rs + [r])[1..] == rs[1..] + [r];
      DocsOfSnoc(bytes, rs[1..], r, docs);
    }
  }

  lemma DocsOfNext(bytes: Bytes, rs: seq<Range>, k: nat, docs: Bytes -> seq<Bytes>)
    requires k < |rs| && forall r :: r in rs ==> r.start <= r.end <= |bytes|
    ensures DocsOf(bytes, rs[..k + 1], docs) == DocsOf(bytes, rs[..k], docs) + docs(bytes[rs[k].start..rs[k].end])
  {
    hide *;
    DocsOfSnoc(bytes, rs[..k], rs[k], docs);
    assert rs[..k + 1] == rs[..k] + [rs[k]];
  }

  lemma NextRange(seen: seq<Bytes>, chunks: seq<D.Chunk>, bytes: Bytes, rs: seq<Range>, k: nat, format: DocFormat)
    requires k < |rs| && forall r :: r in rs ==> r.start <= r.end <= |bytes|
    requires StandFor(chunks, seen + DocsOf(bytes, rs[..k], (region: Bytes) => DocsIn(format, region)))
    ensures StandFor(chunks + [D.Docs(DocsIn(format, bytes[rs[k].start..rs[k].end]))],
                     seen + DocsOf(bytes, rs[..k + 1], (region: Bytes) => DocsIn(format, region)))
  {
    hide *;
    var docs := (region: Bytes) => DocsIn(format, region);
    var before, more := seen + DocsOf(bytes, rs[..k], docs), DocsIn(format, bytes[rs[k].start..rs[k].end]);
    DocsOfNext(bytes, rs, k, docs);
    assert seen + (DocsOf(bytes, rs[..k], docs) + more) == before + more;
    StandForMore(chunks, before, more);
  }

  lemma StandForMore(chunks: seq<D.Chunk>, docs: seq<Bytes>, more: seq<Bytes>)
    requires StandFor(chunks, docs)
    ensures StandFor(chunks + [D.Docs(more)], docs + more)
  {
    hide D.Rows, D.EncodeAll, D.Consecutive;
    D.ConsecutiveSnoc(chunks, D.Docs(more));
    forall enc: D.Encoder ensures D.Rows(enc, chunks + [D.Docs(more)]) == D.EncodeAll(enc, docs + more) {
      D.RowsSnoc(enc, chunks, D.Docs(more));
      D.EncodeAllPlus(enc, docs, more);
    }
  }

  lemma NextFile(files: seq<Bytes>, i: nat, format: DocFormat, target: nat)
    requires i < |files|
    ensures var docs := (b: Bytes) => ChunkedDocsIn(format, b, target);
      AllDocs(files[..i + 1], docs) ==
        AllDocs(files[..i], docs) + DocsOf(files[i], RangesIn(format, files[i], target), (region: Bytes) => DocsIn(format, region))
  {
    assert files[..i + 1][..i] == files[..i];
  }

  method FileRanges(format: DocFormat, bytes: Bytes, target: nat) returns (rs: seq<Range>)
    ensures rs == RangesIn(format, bytes, target) && forall r :: r in rs ==> r.start <= r.end <= |bytes|
  {
    hide Ranges;
    LineProper();
    if format.Jsonl? {
      rs := ChunkRanges(bytes, LineBoundary(), target);
    } else if Separated(format) {
      rs := ChunkRanges(bytes, SeparatorBoundary(format.separator.value), target);
    } else {
      rs := [Range(0, |bytes|)];
    }
  }

  lemma {:induction false} FilesReadSerially(files: seq<Bytes>, format: DocFormat, target: nat)
    requires forall b :: b in files ==> ReadsSerially(format, b, target)
    ensures AllDocs(files, (b: Bytes) => ChunkedDocsIn(format, b, target)) == AllDocs(files, (b: Bytes) => DocsIn(format, b))
  {
    hide ReadsSerially, ChunkedDocsIn, DocsIn;
    if files != [] {
      FilesReadSerially(files[..|files| - 1], format, target);
      RegionsReadSerially(format, files[|files| - 1], target);
    }
  }

  lemma {:induction false} WholeFiles(files: seq<Bytes>, format: DocFormat)
    requires format == Text(None)
    ensures AllDocs(files, (b: Bytes) => DocsIn(format, b)) == files
  {
    if files != [] {
      WholeFiles(files[..|files| - 1], format);
    }
  }

  /** `encode_files_docs`: what encoding the regions' documents one after the other gives, and so what the files' documents
      give wherever the regions hold these. */
  method EncodeFilesDocs(enc: D.Encoder, split: D.Splitter, files: seq<Bytes>, format: DocFormat, threads: nat, lpt: bool, granted: bool,
                         schedule: Schedule)
    returns (ids: seq<Id>, counts: seq<nat>)
    requires D.SplitOk(enc, split) && D.Positionless(enc) && Finishing(schedule) && threads > 0
    ensures format != Text(None) ==>
      (ids, counts) == Serial(enc, AllDocs(files, (b: Bytes) => ChunkedDocsIn(format, b, ChunkTarget(ByteTotal(files), threads))))
    ensures format == Text(None) || (forall b :: b in files ==> ReadsSerially(format, b, ChunkTarget(ByteTotal(files), threads))) ==>
      (ids, counts) == Serial(enc, AllDocs(files, (b: Bytes) => DocsIn(format, b)))
  {
    hide D.SplitOk, D.Positionless, D.Consecutive, D.Rows, D.EncodeAll, D.Lengths, Finishing, Concat, ReadsSerially, DocsIn, ChunkedDocsIn, AllDocs;
    if format == Text(None) {
      WholeFiles(files, format);
      ids, counts := EncodeDocsRagged(enc, split, files, threads, lpt, granted, schedule);
      return;
    }
    var total := ByteTotal(files);
    var chunks := RegionChunks(files, format, ChunkTarget(total, threads));
    if forall b :: b in files ==> ReadsSerially(format, b, ChunkTarget(total, threads)) {
      FilesReadSerially(files, format, ChunkTarget(total, threads));
    }
    ids, counts := EncodeChunksGathered(enc, chunks, total, granted, schedule);
  }

  /** `sp_encode_files_docs`. */
  method SpEncodeFilesDocs(m: SpModel.Model, sp: SpFinalize.SpeedPaths, enc: D.Encoder, files: seq<Bytes>, format: DocFormat, threads: nat)
    returns (ids: seq<Id>, counts: seq<nat>)
    requires format == Text(None) && sp.rawPrepend.Some? ==>
      enc == SpChunks.RawEncoder(m, sp) && forall t :: t in files ==> SpFragments.RawReady(m, sp, t)
    requires threads > 0
    ensures format != Text(None) ==>
      (ids, counts) == Serial(enc, AllDocs(files, (b: Bytes) => ChunkedDocsIn(format, b, ChunkTarget(ByteTotal(files), threads))))
    ensures format == Text(None) || (forall b :: b in files ==> ReadsSerially(format, b, ChunkTarget(ByteTotal(files), threads))) ==>
      (ids, counts) == Serial(enc, AllDocs(files, (b: Bytes) => DocsIn(format, b)))
  {
    hide D.Consecutive, D.Rows, D.EncodeAll, D.Lengths, SpFragments.RawReady, SpChunks.RawEncoder, Concat, ReadsSerially, DocsIn, ChunkedDocsIn, AllDocs;
    if format == Text(None) {
      WholeFiles(files, format);
      ids, counts := SpEncodeDocsRagged(m, sp, enc, files, threads);
      return;
    }
    var target := ChunkTarget(ByteTotal(files), threads);
    var chunks := RegionChunks(files, format, target);
    if forall b :: b in files ==> ReadsSerially(format, b, target) {
      FilesReadSerially(files, format, target);
    }
    ids, counts := AssembleRagged(enc, chunks);
  }
}
