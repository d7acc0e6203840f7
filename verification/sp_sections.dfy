/** What a section encodes to, read off the tables of the model: the raw fast path against the normalizer, pre-tokenizer
    and merge steps it stands for. */
module SpSections {
  import opened Common
  import opened Utf8
  import opened MergeSpec
  import opened SpModel
  import opened SpFinalize
  import opened SpEncodeSpec
  import opened AddedTokens
  import opened SpCache
  import opened SpFragments
  import opened SpRoundTrip

  // ---------------------------------------------------------------------------
  // Splitting at every mark, or not at all
  // ---------------------------------------------------------------------------

  /** Strictly increasing positions up to `n`. */
  ghost predicate Rising(cuts: seq<nat>, n: nat) {
    && (forall i, j :: 0 <= i < j < |cuts| ==> cuts[i] < cuts[j])
    && (forall i :: 0 <= i < |cuts| ==> cuts[i] <= n)
  }

  /** The text cut at every mark past its start, and nowhere else. */
  ghost predicate MarkCuts(s: Bytes, raw: bool, cuts: seq<nat>) {
    && |cuts| >= 2 && cuts[0] == 0 && cuts[|cuts| - 1] == |s|
    && Rising(cuts, |s|)
    && (forall p :: 0 < p < |s| ==> (IsMark(s, p, raw) <==> p in cuts))
  }

  /** Every part merged by itself. */
  function PartsMerged(m: Model, raw: bool, s: Bytes, cuts: seq<nat>): seq<Token>
    requires Rising(cuts, |s|)
  {
    if |cuts| < 2 then []
    else
      var k := |cuts| - 2;
      PartsMerged(m, raw, s, cuts[..k + 1]) + MergeAll(m.Rules(), InitSymbols(m, raw, s[cuts[k]..cuts[k + 1]]))
  }

  lemma {:induction false} PartsOfPrefix(m: Model, raw: bool, s: Bytes, p: nat, cuts: seq<nat>)
    requires p <= |s| && Rising(cuts, p)
    ensures PartsMerged(m, raw, s[..p], cuts) == PartsMerged(m, raw, s, cuts)
  {
    hide MergeAll, InitSymbols;
    if |cuts| >= 2 {
      var k := |cuts| - 2;
      PartsOfPrefix(m, raw, s, p, cuts[..k + 1]);
      assert s[..p][cuts[k]..cuts[k + 1]] == s[cuts[k]..cuts[k + 1]];
    }
  }

  lemma CutsOfPrefix(s: Bytes, raw: bool, cuts: seq<nat>)
    requires MarkCuts(s, raw, cuts) && |cuts| > 2
    ensures var k := |cuts| - 2;
      var p := cuts[k];
      && 0 < p < |s| && IsMark(s, p, raw) && (forall q :: p < q < |s| ==> !IsMark(s, q, raw))
      && MarkCuts(s[..p], raw, cuts[..k + 1])
  {
    var k := |cuts| - 2;
    var p, front := cuts[k], cuts[..k + 1];
    hide IsMark;
    assert p in cuts;
    forall q | p < q < |s| ensures !IsMark(s, q, raw) {
      NotBetween(cuts, |s|, q);
    }
    MarkIsBoundary(s, p, raw);
    forall q | 0 < q < p ensures IsMark(s[..p], q, raw) <==> q in front {
      MarkOfPrefix(s, p, q, raw);
      InFront(cuts, |s|, q);
    }
  }

  lemma NotBetween(cuts: seq<nat>, n: nat, q: nat)
    requires |cuts| > 2 && Rising(cuts, n) && cuts[|cuts| - 2] < q < cuts[|cuts| - 1]
    ensures q !in cuts
  {
    forall i | 0 <= i < |cuts| ensures cuts[i] != q {
      assert i < |cuts| - 2 ==> cuts[i] < cuts[|cuts| - 2];
    }
  }

  lemma InFront(cuts: seq<nat>, n: nat, q: nat)
    requires |cuts| > 2 && Rising(cuts, n) && q < cuts[|cuts| - 2]
    ensures q in cuts <==> q in cuts[..|cuts| - 1]
  {
    assert cuts == cuts[..|cuts| - 1] + [cuts[|cuts| - 1]];
    assert cuts[|cuts| - 2] < cuts[|cuts| - 1];
  }

  /** Where every mark splits, the parts between marks are merged one by one. */
  lemma {:induction false} EveryMarkParts(m: Model, raw: bool, s: Bytes, cuts: seq<nat>)
    requires MarkCuts(s, raw, cuts)
    ensures EncodeText(m, EveryMark, raw, s) == PartsMerged(m, raw, s, cuts)
    decreases |cuts|
  {
    hide IsMark, MergeAll, InitSymbols, SegmentStart, EncodeText;
    var k := |cuts| - 2;
    var p := cuts[k];
    if |cuts| == 2 {
      assert cuts[..1] == [0] && s[0..|s|] == s;
      NoInnerMark(s, raw, cuts);
    } else {
      CutsOfPrefix(s, raw, cuts);
      SegmentStartUnique(EveryMark, raw, s, p);
      EveryMarkParts(m, raw, s[..p], cuts[..k + 1]);
      PartsOfPrefix(m, raw, s, p, cuts[..k + 1]);
      assert s[p..|s|] == s[p..];
    }
    LastSegment(m, raw, s, p);
  }

  lemma LastSegment(m: Model, raw: bool, s: Bytes, p: nat)
    requires SegmentStart(EveryMark, raw, s) == p <= |s|
    ensures EncodeText(m, EveryMark, raw, s) ==
      (if p == 0 then [] else EncodeText(m, EveryMark, raw, s[..p])) + MergeAll(m.Rules(), InitSymbols(m, raw, s[p..]))
  {
    hide MergeAll, InitSymbols, SegmentStart;
    assert s[0..] == s;
  }

  /** Such cuts exist. */
  lemma {:induction false} SomeMarkCuts(s: Bytes, raw: bool) returns (cuts: seq<nat>)
    requires s != []
    ensures MarkCuts(s, raw, cuts)
    decreases |s|
  {
    hide IsMark;
    var p := SegmentStart(EveryMark, raw, s);
    if p == 0 {
      return [0, |s|];
    }
    MarkIsBoundary(s, p, raw);
    var front := SomeMarkCuts(s[..p], raw);
    cuts := front + [|s|];
    forall q | 0 < q < |s| ensures IsMark(s, q, raw) <==> q in cuts {
      if q < p {
        MarkOfPrefix(s, p, q, raw);
      }
      assert q in cuts <==> q in front;
      assert front[|front| - 1] == p;
    }
  }

  lemma NoInnerMark(s: Bytes, raw: bool, cuts: seq<nat>)
    requires MarkCuts(s, raw, cuts) && |cuts| == 2
    ensures SegmentStart(EveryMark, raw, s) == 0
  {
    var p := SegmentStart(EveryMark, raw, s);
    assert p > 0 ==> p in cuts;
  }

  /** A model whose pre-tokenizer splits at marks encodes a section part by part. */
  lemma SectionOfParts(m: Model, sp: SpeedPaths, chunk: Bytes, pos: SectionPos, cuts: seq<nat>)
    requires RawReady(m, sp, chunk) && chunk != []
    requires m.metaspace.Some? && m.metaspace.value.split && MarkCuts(SectionText(sp, chunk, pos), true, cuts)
    ensures EncodeSection(m, sp, chunk, pos) == PartsMerged(m, true, SectionText(sp, chunk, pos), cuts)
  {
    hide EncodeText, MarkCuts, PartsMerged, SectionText;
    EveryMarkParts(m, true, SectionText(sp, chunk, pos), cuts);
  }

  /** Any other model encodes it by one merge of its mark-mapped text, prefix and all. */
  lemma SectionOfOneMerge(m: Model, sp: SpeedPaths, chunk: Bytes, pos: SectionPos)
    requires RawReady(m, sp, chunk) && chunk != []
    requires !(m.metaspace.Some? && m.metaspace.value.split)
    ensures EncodeSection(m, sp, chunk, pos) == MergeAll(m.Rules(), InitSymbols(m, false, MarkSpaces(true, SectionText(sp, chunk, pos))))
  {
    hide MergeAll, InitSymbols, MarkSpaces, SectionText, Covered, Model.WellFormed;
    SectionCovered(m, sp, chunk, pos);
    RawChunkIsMappedChunk(m, SectionText(sp, chunk, pos));
  }

  // ---------------------------------------------------------------------------
  // The prefix, scheme by scheme
  // ---------------------------------------------------------------------------

  lemma PrefixedMaps(prefixed: bool, chunk: Bytes)
    ensures MarkSpaces(true, WithPrefix(prefixed, chunk)) == (if prefixed then MARK else []) + MarkSpaces(true, chunk)
  {
    if prefixed {
      MarkSpacesPlus(true, [SPACE], chunk);
      assert [SPACE][1..] == [];
    }
  }

  lemma SectionSpellsText(m: Model, sp: SpeedPaths, chunk: Bytes, pos: SectionPos)
    requires RawReady(m, sp, chunk) && chunk != []
    ensures Spell(m.Spelling(), EncodeSection(m, sp, chunk, pos))
         == (if VirtualPrefix(sp.rawPrepend.value, pos, chunk) then MARK else []) + MarkSpaces(true, chunk)
  {
    hide *;
    ReadyFacts(m, sp, chunk);
    SectionIs(m, sp, chunk, pos);
    SectionCovered(m, sp, chunk, pos);
    EncodeTextSpells(m, sp.wordSplit, true, SectionText(sp, chunk, pos));
    SectionTextIs(sp, chunk, pos);
    PrefixedMaps(VirtualPrefix(sp.rawPrepend.value, pos, chunk), chunk);
  }

  /** The normalizer puts a ▁ in front whatever follows. */
  predicate PrependsUnguarded(m: Model) {
    m.normOps == [Prepend(MARK), Replace([SPACE], MARK)]
  }

  /** What the tokens of a section spell, as the model's own tables say: the mark-mapped text, and in front of it a ▁ or
      nothing. */
  lemma SectionSpells(m: Model, sp: SpeedPaths, chunk: Bytes, pos: SectionPos)
    requires RawReady(m, sp, chunk) && chunk != []
    ensures var spelled, mapped, scheme := Spell(m.Spelling(), EncodeSection(m, sp, chunk, pos)), MarkSpaces(true, chunk), m.metaspace;
      var plain := chunk[0] != SPACE && !StartsWith(chunk, MARK);
      && (pos == Continuation ==> spelled == mapped)
      && (PrependsUnguarded(m) && pos != Continuation ==> spelled == MARK + mapped)
      && (!PrependsUnguarded(m) && !plain ==> spelled == mapped)
      && (!PrependsUnguarded(m) && (scheme.None? || scheme.value.prepend == PrependNever) ==> spelled == mapped)
      && (!PrependsUnguarded(m) && scheme.Some? && scheme.value.prepend == PrependAlways && plain && pos != Continuation ==> spelled == MARK + mapped)
      && (!PrependsUnguarded(m) && scheme.Some? && scheme.value.prepend == PrependFirst && plain ==>
            spelled == (if pos == First then MARK else []) + mapped)
  {
    hide Spell, EncodeSection, MarkSpaces, Covered, Valid, Model.WellFormed, IsMark;
    SectionSpellsText(m, sp, chunk, pos);
    MarkIs(chunk, 0, true);
    assert chunk[0..] == chunk;
    UnguardedIs(m, sp);
  }

  lemma UnguardedIs(m: Model, sp: SpeedPaths)
    requires Finalized(m, sp) && sp.rawPrepend.Some?
    ensures sp.rawPrepend == Some(Unguarded) <==> PrependsUnguarded(m)
    ensures sp.rawPrepend != Some(Unguarded) ==> sp.rawPrepend == Some(
      if m.metaspace.None? || m.metaspace.value.prepend == PrependNever then Never
      else if m.metaspace.value.prepend == PrependAlways then GuardedAlways
      else GuardedFirst)
  {
    if sp.rawPrepend == Some(Unguarded) {
      assert m.normOps == [m.normOps[0], m.normOps[1]];
    }
  }

  // ---------------------------------------------------------------------------
  // The normalizer and the pre-tokenizer, written out
  // ---------------------------------------------------------------------------

  /** `str::replace`: every leftmost, non-overlapping occurrence. */
  function Replaced(s: Bytes, pattern: Bytes, content: Bytes): Bytes
    requires pattern != []
    decreases |s|
  {
    if s == [] then []
    else if StartsWith(s, pattern) then content + Replaced(s[|pattern|..], pattern, content)
    else [s[0]] + Replaced(s[1..], pattern, content)
  }

  predicate Modelled(op: NormOp) {
    op.Prepend? || (op.Replace? && op.pattern != [])
  }

  function ApplyOp(op: NormOp, s: Bytes): Bytes
    requires Modelled(op)
  {
    match op
    case Prepend(prefix) => if s == [] then s else prefix + s
    case Replace(pattern, content) => Replaced(s, pattern, content)
  }

  /** `apply_norm_ops`. */
  function ApplyNormOps(ops: seq<NormOp>, s: Bytes): Bytes
    requires forall op :: op in ops ==> Modelled(op)
  {
    if ops == [] then s else ApplyNormOps(ops[1..], ApplyOp(ops[0], s))
  }

  /** `apply_metaspace`. */
  function ApplyMetaspace(metaspace: Option<Metaspace>, s: Bytes, first: bool): Bytes {
    match metaspace
    case None => s
    case Some(ms) =>
      var t := Replaced(s, [SPACE], MARK);
      var prepend := ms.prepend == PrependAlways || (ms.prepend == PrependFirst && first);
      if prepend && t != [] && !StartsWith(t, MARK) then MARK + t else t
  }

  /** `encode_normalized_cb`. */
  function EncodeNormalized(m: Model, sp: SpeedPaths, t: Bytes): seq<Token> {
    if t == [] then [] else EncodeText(m, sp.wordSplit, false, t)
  }

  lemma {:induction false} ReplacedIsMapped(s: Bytes)
    ensures Replaced(s, [SPACE], MARK) == MarkSpaces(true, s)
  {
    if s != [] {
      assert s[..1] == [s[0]];
      ReplacedIsMapped(s[1..]);
    }
  }

  /** Decoding's replacement of ▁ by a space is `str::replace` as well. */
  lemma {:induction false} ReplacedMarks(s: Bytes)
    ensures Replaced(s, MARK, [SPACE]) == ReplaceMarks(s)
    decreases |s|
  {
    if s != [] {
      if StartsWith(s, MARK) {
        ReplacedMarks(s[3..]);
      } else {
        ReplacedMarks(s[1..]);
      }
    }
  }

  lemma {:induction false} MappedTwice(s: Bytes)
    ensures MarkSpaces(true, MarkSpaces(true, s)) == MarkSpaces(true, s)
  {
    if s != [] {
      MappedTwice(s[1..]);
      var c := if s[0] == SPACE then MARK else [s[0]];
      MarkSpacesPlus(true, c, MarkSpaces(true, s[1..]));
      assert SPACE !in c;
      MarkSpacesNoSpace(true, c);
    }
  }

  /** The mapped text starts with ▁ just where the text starts with a mark. */
  lemma MappedStart(s: Bytes)
    requires Valid(s) && s != []
    ensures MarkSpaces(true, s) != []
    ensures StartsWith(MarkSpaces(true, s), MARK) <==> IsMark(s, 0, true)
  {
    hide CharLen, Valid, MarkSpaces;
    ValidTail(s);
    MappedHead(s);
    MarkIs(s, 0, true);
    assert s[0..] == s;
    var c, w, n := MarkChar(true, s[..CharLen(s)]), MarkSpaces(true, s), CharLen(s);
    CharOfMark(s);
    CharOfMark(w);
    assert s[..n][0] == s[0];
  }

  lemma CharOfMark(s: Bytes)
    requires CharLen(s) > 0
    ensures StartsWith(s, MARK) <==> s[..CharLen(s)] == MARK
    ensures s[0] == SPACE <==> s[..CharLen(s)] == [SPACE]
  {
    hide CharLen;
    if StartsWith(s, MARK) {
      assert s[..3][0] == s[0];
    }
    if s[..CharLen(s)] == MARK {
      assert s[..CharLen(s)][0] == s[0];
    }
    if CharLen(s) == 1 {
      assert s[..1] == [s[0]];
    }
  }

  lemma MappedPrefix(s: Bytes, q: nat)
    requires q <= |s|
    ensures MarkSpaces(true, s) == MarkSpaces(true, s[..q]) + MarkSpaces(true, s[q..])
  {
    hide MarkSpaces;
    MarkSpacesPlus(true, s[..q], s[q..]);
    assert s == s[..q] + s[q..];
  }

  /** A mark of the text is a ▁ of the mapped text. */
  lemma MarkIsMapped(s: Bytes, q: nat)
    requires Valid(s) && IsMark(s, q, true)
    ensures var at := |MarkSpaces(true, s[..q])|; IsMark(MarkSpaces(true, s), at, false) && (q > 0 ==> at > 0)
  {
    hide MarkSpaces, Valid, IsMark, Boundary;
    MarkIsBoundary(s, q, true);
    ValidSplit(s, q);
    MarkWithinText(s, q);
    MarkOfSuffix(s, q, q, true);
    MappedStart(s[q..]);
    MappedPrefix(s, q);
    var w, at := MarkSpaces(true, s), |MarkSpaces(true, s[..q])|;
    assert w[at..] == MarkSpaces(true, s[q..]);
    MarkIs(w, at, false);
    if q > 0 {
      ValidStartMapped(s[..q]);
    }
  }

  lemma MarkWithinText(s: Bytes, q: nat)
    requires IsMark(s, q, true)
    ensures q < |s|
  {
  }

  lemma ValidStartMapped(s: Bytes)
    requires s != []
    ensures MarkSpaces(true, s) != []
  {
  }

  /** And every ▁ of the mapped text is one. */
  lemma {:induction false} MappedIsMark(s: Bytes, at: nat) returns (q: nat)
    requires Valid(s) && IsMark(MarkSpaces(true, s), at, false)
    ensures IsMark(s, q, true) && |MarkSpaces(true, s[..q])| == at && (at > 0 ==> q > 0)
    decreases |s|
  {
    hide MarkSpaces, CharLen, IsMark, Valid;
    MappedLength(s);
    MarkWithinMapped(s, at);
    ValidTail(s);
    var n := CharLen(s);
    var c, rest, w := MarkChar(true, s[..n]), s[n..], MarkSpaces(true, s);
    MappedHead(s);
    if at == 0 {
      q := 0;
      MarkIs(w, 0, false);
      assert w[0..] == w;
      MappedStart(s);
      assert s[..0] == [];
      MappedLength(s[..0]);
    } else {
      NotInsideChar(w, at);
      assert w[CharLen(w)..] == MarkSpaces(true, rest);
      MarkOfSuffix(w, CharLen(w), at, false);
      q := MappedIsMark(rest, at - CharLen(w));
      MarkWithinText(rest, q);
      MarkOfSuffix(s, n, n + q, true);
      assert s[..n + q] == s[..n] + rest[..q];
      MarkSpacesPlus(true, s[..n], rest[..q]);
      MarkSpacesChar(true, s);
      assert |c| == CharLen(w);
      q := n + q;
    }
  }

  lemma MappedLength(s: Bytes)
    ensures s == [] ==> MarkSpaces(true, s) == []
  {
  }

  lemma MarkWithinMapped(s: Bytes, at: nat)
    requires IsMark(MarkSpaces(true, s), at, false)
    ensures s != [] && at < |MarkSpaces(true, s)|
  {
  }

  /** A mark does not start inside a character. */
  lemma NotInsideChar(w: Bytes, at: nat)
    requires CharLen(w) > 0 && IsMark(w, at, false) && at > 0
    ensures CharLen(w) <= at < |w|
  {
    hide CharLen;
    MarkIsBoundary(w, at, false);
  }

  /** The last segment of the text is the last segment of the mapped text. */
  lemma SegmentStartMapped(split: WordSplit, s: Bytes)
    requires Valid(s)
    ensures SegmentStart(split, false, MarkSpaces(true, s)) == |MarkSpaces(true, s[..SegmentStart(split, true, s)])|
  {
    hide MarkSpaces, IsMark, Valid;
    var p, w := SegmentStart(split, true, s), MarkSpaces(true, s);
    var g := SegmentStart(split, false, w);
    MappedLength(s[..0]);
    assert s[..0] == [];
    if split == EveryMark {
      if p > 0 {
        MarkIsMapped(s, p);
      }
      var at := |MarkSpaces(true, s[..p])|;
      if g > at {
        var q := MappedIsMark(s, g);
        MarkWithinText(s, q);
        MappedOrder(s, p, q);
      } else if g < at {
        MarkWithinMapped(s, at);
      }
    }
  }

  lemma MappedOrder(s: Bytes, p: nat, q: nat)
    requires p <= |s| && q <= |s| && |MarkSpaces(true, s[..p])| < |MarkSpaces(true, s[..q])|
    ensures p < q
  {
    if q <= p {
      assert s[..p][..q] == s[..q];
      MappedPrefix(s[..p], q);
    }
  }

  /** Raw encoding is normalized encoding of the mapped text. */
  lemma {:induction false} EncodeTextMapped(m: Model, split: WordSplit, s: Bytes)
    requires Valid(s)
    ensures EncodeText(m, split, true, s) == EncodeText(m, split, false, MarkSpaces(true, s))
    decreases |s|
  {
    hide Chunk, MarkSpaces, SegmentStart, IsMark, Valid, Boundary;
    var p, w := SegmentStart(split, true, s), MarkSpaces(true, s);
    SegmentStartMapped(split, s);
    if p == 0 {
      assert s[..0] == [];
      MappedLength(s[..0]);
      RawChunkIsMappedChunk(m, s);
    } else {
      MarkIsBoundary(s, p, true);
      ValidSplit(s, p);
      EncodeTextMapped(m, split, s[..p]);
      RawChunkIsMappedChunk(m, s[p..]);
      MappedPrefix(s, p);
      ValidStartMapped(s[..p]);
      var at := |MarkSpaces(true, s[..p])|;
      assert w[..at] == MarkSpaces(true, s[..p]) && w[at..] == MarkSpaces(true, s[p..]);
    }
  }

  // ---------------------------------------------------------------------------
  // The raw fast path is the materialized path
  // ---------------------------------------------------------------------------

  /** On the raw fast path every normalizer step is one written out above. */
  lemma StepsAreModelled(m: Model, split: WordSplit)
    requires ComputeRawPrepend(m, split).Some?
    ensures forall op :: op in m.normOps ==> Modelled(op)
  {
  }

  /** The text `encode_section_cb` would build and encode without the fast path. */
  function Materialized(m: Model, chunk: Bytes, first: bool): Bytes
    requires forall op :: op in m.normOps ==> Modelled(op)
  {
    ApplyMetaspace(m.metaspace, ApplyNormOps(m.normOps, chunk), first)
  }

  lemma OpsApplied(m: Model, split: WordSplit, chunk: Bytes)
    requires ComputeRawPrepend(m, split).Some? && forall op :: op in m.normOps ==> Modelled(op)
    ensures ApplyNormOps(m.normOps, chunk) ==
      if PrependsUnguarded(m) then (if chunk == [] then [] else MARK + MarkSpaces(true, chunk))
      else if m.normOps == [] then chunk
      else MarkSpaces(true, chunk)
    ensures m.normOps == [] ==> m.metaspace.Some?
  {
    hide MarkSpaces, Replaced;
    assert |m.normOps| == 2 ==> m.normOps == [m.normOps[0], m.normOps[1]];
    if PrependsUnguarded(m) {
      var t := if chunk == [] then [] else MARK + chunk;
      OpsOfTwo(m.normOps, chunk);
      assert ApplyOp(m.normOps[0], chunk) == t;
      ReplacedIsMapped(t);
      MappedLength(t);
      MarkSpacesPlus(true, MARK, chunk);
      assert SPACE !in MARK;
      MarkSpacesNoSpace(true, MARK);
    } else if |m.normOps| == 1 {
      ReplacedIsMapped(chunk);
      assert m.normOps[1..] == [];
    }
  }

  lemma OpsOfTwo(ops: seq<NormOp>, s: Bytes)
    requires |ops| == 2 && Modelled(ops[0]) && Modelled(ops[1]) && forall op :: op in ops ==> Modelled(op)
    ensures ApplyNormOps(ops, s) == ApplyOp(ops[1], ApplyOp(ops[0], s))
  {
    hide ApplyOp;
    var rest, t := ops[1..], ApplyOp(ops[0], s);
    assert rest == [ops[1]] && rest[1..] == [];
    assert ApplyNormOps(ops, s) == ApplyNormOps(rest, t);
    assert ApplyNormOps(rest, t) == ApplyNormOps(rest[1..], ApplyOp(rest[0], t));
  }

  lemma MaterializedIs(m: Model, sp: SpeedPaths, chunk: Bytes, pos: SectionPos)
    requires RawReady(m, sp, chunk) && pos != Continuation && chunk != []
    requires forall op :: op in m.normOps ==> Modelled(op)
    ensures Materialized(m, chunk, pos == First) == MarkSpaces(true, SectionText(sp, chunk, pos))
    ensures Materialized(m, chunk, pos == First) != []
  {
    hide MarkSpaces, Covered, Valid, Model.WellFormed, IsMark, Replaced, ApplyNormOps;
    var mapped := MarkSpaces(true, chunk);
    OpsApplied(m, sp.wordSplit, chunk);
    UnguardedIs(m, sp);
    PrefixedMaps(VirtualPrefix(sp.rawPrepend.value, pos, chunk), chunk);
    MappedStart(chunk);
    ReplacedIsMapped(ApplyNormOps(m.normOps, chunk));
    MappedTwice(chunk);
    assert StartsWith(MARK + mapped, MARK) by { assert (MARK + mapped)[..3] == MARK; }
    MarkSpacesPlus(true, MARK, mapped);
    assert SPACE !in MARK;
    MarkSpacesNoSpace(true, MARK);
  }

  /** What the raw fast path emits for a section is what normalizing it, pre-tokenizing it and encoding the result emits. */
  lemma RawIsMaterialized(m: Model, sp: SpeedPaths, chunk: Bytes, pos: SectionPos)
    requires RawReady(m, sp, chunk) && pos != Continuation
    ensures (forall op :: op in m.normOps ==> Modelled(op)) &&
      EncodeSection(m, sp, chunk, pos) == EncodeNormalized(m, sp, Materialized(m, chunk, pos == First))
  {
    hide *;
    ReadyFacts(m, sp, chunk);
    FinalizedScheme(m, sp);
    StepsAreModelled(m, sp.wordSplit);
    SectionIs(m, sp, chunk, pos);
    if chunk == [] {
      NothingMaterialized(m, sp, pos == First);
    } else {
      MaterializedIs(m, sp, chunk, pos);
      SectionCovered(m, sp, chunk, pos);
      EncodeTextMapped(m, sp.wordSplit, SectionText(sp, chunk, pos));
      NormalizedIs(m, sp, Materialized(m, chunk, pos == First));
    }
  }

  lemma FinalizedScheme(m: Model, sp: SpeedPaths)
    requires Finalized(m, sp)
    ensures sp.rawPrepend == ComputeRawPrepend(m, sp.wordSplit)
  {
  }

  lemma NormalizedIs(m: Model, sp: SpeedPaths, t: Bytes)
    requires t != []
    ensures EncodeNormalized(m, sp, t) == EncodeText(m, sp.wordSplit, false, t)
  {
  }

  lemma NothingMaterialized(m: Model, sp: SpeedPaths, first: bool)
    requires ComputeRawPrepend(m, sp.wordSplit).Some? && forall op :: op in m.normOps ==> Modelled(op)
    ensures EncodeNormalized(m, sp, Materialized(m, [], first)) == []
  {
    OpsApplied(m, sp.wordSplit, []);
    assert MarkSpaces(true, []) == [];
  }

  // ---------------------------------------------------------------------------
  // Sections and added tokens of a text
  // ---------------------------------------------------------------------------

  /** A section of the text, and the match behind it. */
  datatype Piece = Piece(start: nat, end: nat, x: Match)

  /** Where the section behind the `k`-th match starts. */
  function NextStart(pieces: seq<Piece>, last: nat, k: nat): nat
    requires k < |pieces|
  {
    if k + 1 < |pieces| then pieces[k + 1].start else last
  }

  /** No whitespace character ends, or starts, the text. */
  ghost predicate Trimmed(s: Bytes) {
    forall c :: IsWhitespace(c) ==> !EndsWith(s, c)
  }

  ghost predicate TrimmedStart(s: Bytes) {
    forall c :: IsWhitespace(c) ==> !StartsWith(s, c)
  }

  /** The section ends at the match and the next one starts behind it, but for the whitespace that the token strips: all of
      it, and nothing else. */
  ghost predicate PieceOk(m: Model, text: Bytes, p: Piece, next: nat) {
    && p.start <= p.end <= p.x.start && p.x.end <= next <= |text| && p.x.start <= |text| && p.x.token < |m.addedTokens|
    && (if m.addedTokens[p.x.token].lstrip then Trimmed(text[p.start..p.end]) && Blank(text[p.end..p.x.start]) else p.end == p.x.start)
    && (if m.addedTokens[p.x.token].rstrip then TrimmedStart(text[next..]) && Blank(text[p.x.end..next]) else next == p.x.end)
  }

  ghost predicate LaidOut(m: Model, text: Bytes, from: nat, pieces: seq<Piece>, last: nat) {
    && last <= |text| && (if pieces == [] then last == from else pieces[0].start == from)
    && forall k: nat :: k < |pieces| ==> PieceOk(m, text, pieces[k], NextStart(pieces, last, k))
  }

  /** The match is emitted, or lies in whitespace that the token before it strips. */
  ghost predicate Placed(x: Match, pieces: seq<Piece>, last: nat) {
    exists k: nat :: k < |pieces| && (pieces[k].x == x || pieces[k].x.end <= x.start < NextStart(pieces, last, k))
  }

  /** Only matches are emitted, and all but those that lie in stripped whitespace. */
  ghost predicate Accounted(xs: seq<Match>, from: nat, pieces: seq<Piece>, last: nat) {
    && (forall k: nat :: k < |pieces| ==> pieces[k].x in xs)
    && (forall x :: x in xs ==> x.start < from || Placed(x, pieces, last))
  }

  /** The tokens of the sections and the ids of the matches, in order. */
  function Emitted(m: Model, sp: SpeedPaths, text: Bytes, pieces: seq<Piece>, last: nat, pos: SectionPos): seq<Token>
    requires sp.rawPrepend.Some? && last <= |text|
    requires forall p :: p in pieces ==> p.start <= p.end <= |text| && p.x.token < |m.addedTokens|
  {
    if pieces == [] then EncodeSection(m, sp, text[last..], pos)
    else
      var p := pieces[0];
      EncodeSection(m, sp, text[p.start..p.end], pos) + [m.addedTokens[p.x.token].id] + Emitted(m, sp, text, pieces[1..], last, Middle)
  }

  /** Matches in order, without overlap. */
  ghost predicate InOrder(xs: seq<Match>) {
    forall i, j :: 0 <= i < j < |xs| ==> xs[i].end <= xs[j].start
  }

  lemma LaidOutFits(m: Model, text: Bytes, from: nat, pieces: seq<Piece>, last: nat)
    requires LaidOut(m, text, from, pieces, last)
    ensures forall p :: p in pieces ==> p.start <= p.end <= |text| && p.x.token < |m.addedTokens|
    ensures last <= |text|
  {
    forall p | p in pieces ensures p.start <= p.end <= |text| && p.x.token < |m.addedTokens| {
      var k: nat :| k < |pieces| && pieces[k] == p;
      assert PieceOk(m, text, pieces[k], NextStart(pieces, last, k));
    }
  }

  lemma LaidOutCons(m: Model, text: Bytes, p: Piece, next: nat, pieces: seq<Piece>, last: nat)
    requires LaidOut(m, text, next, pieces, last) && PieceOk(m, text, p, next)
    ensures LaidOut(m, text, p.start, [p] + pieces, last)
  {
    hide PieceOk;
    var all := [p] + pieces;
    forall k: nat | k < |all| ensures PieceOk(m, text, all[k], NextStart(all, last, k)) {
      if k > 0 {
        assert PieceOk(m, text, pieces[k - 1], NextStart(pieces, last, k - 1));
        assert NextStart(all, last, k) == NextStart(pieces, last, k - 1);
      }
    }
  }

  lemma AccountedCons(xs: seq<Match>, p: Piece, next: nat, pieces: seq<Piece>, last: nat)
    requires xs != [] && p.x == xs[0] && InOrder(xs) && Accounted(xs[1..], next, pieces, last)
    requires if pieces == [] then last == next else pieces[0].start == next
    ensures Accounted(xs, p.start, [p] + pieces, last)
  {
    var all := [p] + pieces;
    forall x | x in xs ensures Placed(x, all, last) {
      var j :| 0 <= j < |xs| && xs[j] == x;
      if j == 0 {
        assert all[0].x == x;
      } else {
        assert x == xs[1..][j - 1];
        if x.start < next {
          assert NextStart(all, last, 0) == next;
        } else {
          PlacedCons(x, p, pieces, last);
        }
      }
    }
  }

  lemma PlacedCons(x: Match, p: Piece, pieces: seq<Piece>, last: nat)
    requires Placed(x, pieces, last)
    ensures Placed(x, [p] + pieces, last)
  {
    var all := [p] + pieces;
    var k: nat :| k < |pieces| && (pieces[k].x == x || pieces[k].x.end <= x.start < NextStart(pieces, last, k));
    assert all[k + 1] == pieces[k] && NextStart(all, last, k + 1) == NextStart(pieces, last, k);
  }

  lemma EmittedCons(m: Model, sp: SpeedPaths, text: Bytes, p: Piece, pieces: seq<Piece>, last: nat, pos: SectionPos)
    requires sp.rawPrepend.Some? && last <= |text| && p.start <= p.end <= |text| && p.x.token < |m.addedTokens|
    requires forall q :: q in pieces ==> q.start <= q.end <= |text| && q.x.token < |m.addedTokens|
    ensures Emitted(m, sp, text, [p] + pieces, last, pos)
         == EncodeSection(m, sp, text[p.start..p.end], pos) + [m.addedTokens[p.x.token].id] + Emitted(m, sp, text, pieces, last, Middle)
  {
    hide EncodeSection;
    assert ([p] + pieces)[1..] == pieces;
  }

  lemma SliceTwice(s: Bytes, i: nat, j: nat, k: nat)
    requires i + k <= j <= |s|
    ensures s[i..j][..k] == s[i..i + k] && s[i..j][k..] == s[i + k..j]
    ensures j == |s| ==> s[i..j][k..] == s[i + k..]
  {
  }

  /** The section before a match, and what the token strips. */
  lemma PieceOfMatch(m: Model, text: Bytes, x: Match, from: nat) returns (p: Piece)
    requires from <= x.start <= x.end <= |text| && x.token < |m.addedTokens|
    ensures p == Piece(from, ChunkEnd(m, text, x, from), x) && PieceOk(m, text, p, ChunkRestart(m, text, x))
  {
    hide LeadingWs, TrimmedLen, IsWhitespace, Blank;
    p := Piece(from, ChunkEnd(m, text, x, from), x);
    var c, r := text[from..x.start], text[x.end..];
    TrimmedIsAll(c);
    LeadingWsIsAll(r);
    SliceTwice(text, from, x.start, TrimmedLen(c));
    SliceTwice(text, x.end, |text|, LeadingWs(r));
    assert text[x.end..|text|] == r;
  }

  lemma {:induction false} AroundLaidOut(m: Model, sp: SpeedPaths, text: Bytes, xs: seq<Match>, from: nat, pos: SectionPos)
    returns (pieces: seq<Piece>, last: nat)
    requires sp.rawPrepend.Some? && MatchesFit(m, text, xs) && InOrder(xs) && from <= |text|
    ensures LaidOut(m, text, from, pieces, last) && Accounted(xs, from, pieces, last) && last <= |text|
    ensures forall p :: p in pieces ==> p.start <= p.end <= |text| && p.x.token < |m.addedTokens|
    ensures EncodeAround(m, sp, text, xs, from, pos) == Emitted(m, sp, text, pieces, last, pos)
    decreases |xs|
  {
    hide EncodeSection, ChunkEnd, ChunkRestart, PieceOk;
    if xs == [] {
      return [], from;
    }
    var x := xs[0];
    assert x in xs && (forall y :: y in xs[1..] ==> y in xs) && InOrder(xs[1..]);
    if x.start < from {
      pieces, last := AroundLaidOut(m, sp, text, xs[1..], from, pos);
      SkippedAccounted(xs, from, pieces, last);
    } else {
      var p := PieceOfMatch(m, text, x, from);
      var next := ChunkRestart(m, text, x);
      var rest;
      rest, last := AroundLaidOut(m, sp, text, xs[1..], next, Middle);
      pieces := [p] + rest;
      LaidOutCons(m, text, p, next, rest, last);
      AccountedCons(xs, p, next, rest, last);
      LaidOutFits(m, text, from, pieces, last);
      assert p in pieces;
      EmittedCons(m, sp, text, p, rest, last, pos);
    }
  }

  lemma SkippedAccounted(xs: seq<Match>, from: nat, pieces: seq<Piece>, last: nat)
    requires xs != [] && xs[0].start < from && Accounted(xs[1..], from, pieces, last)
    ensures Accounted(xs, from, pieces, last)
  {
    hide Placed;
    assert forall x :: x in xs ==> x == xs[0] || x in xs[1..];
  }

  lemma MatchesInOrder(specs: seq<AddedToken>, text: Bytes, xs: seq<Match>)
    requires AllLeftmostLongest(specs, text, 0, xs)
    ensures InOrder(xs)
  {
    hide AllLeftmostLongest;
    forall i, j | 0 <= i < j < |xs| ensures xs[i].end <= xs[j].start {
      EndsBefore(specs, text, xs, i, j);
    }
  }

  lemma {:induction false} EndsBefore(specs: seq<AddedToken>, text: Bytes, xs: seq<Match>, i: nat, j: nat)
    requires AllLeftmostLongest(specs, text, 0, xs) && i < j < |xs|
    ensures xs[i].end <= xs[j].start
  {
    hide AllLeftmostLongest;
    StartsBehind(specs, text, xs, j);
    if i < j - 1 {
      EndsBefore(specs, text, xs, i, j - 1);
      StartsBehind(specs, text, xs, j - 1);
    }
  }

  lemma StartsBehind(specs: seq<AddedToken>, text: Bytes, xs: seq<Match>, k: nat)
    requires AllLeftmostLongest(specs, text, 0, xs) && k < |xs|
    ensures (k > 0 ==> xs[k - 1].end <= xs[k].start) && xs[k].start <= xs[k].end
  {
    hide NoTokenIn, TokenAt, Preferred;
    assert LeftmostLongest(specs, text, Resume(0, xs, k), xs[k]);
    LongestFits(specs, text, Resume(0, xs, k), xs[k]);
  }

  lemma LongestFits(specs: seq<AddedToken>, text: Bytes, at: nat, x: Match)
    requires LeftmostLongest(specs, text, at, x)
    ensures at <= x.start <= x.end
  {
  }

  /** A text is encoded section by section around its leftmost-longest matches: the first section stands where the text
      does, the others behind a match. */
  lemma RawIsLaidOut(m: Model, sp: SpeedPaths, text: Bytes, pos: SectionPos) returns (xs: seq<Match>, pieces: seq<Piece>, last: nat)
    requires sp.rawPrepend.Some?
    ensures AllLeftmostLongest(m.addedTokens, text, 0, xs)
    ensures LaidOut(m, text, 0, pieces, last) && Accounted(xs, 0, pieces, last) && last <= |text|
    ensures forall p :: p in pieces ==> p.start <= p.end <= |text| && p.x.token < |m.addedTokens|
    ensures EncodeRaw(m, sp, text, pos) == Emitted(m, sp, text, pieces, last, pos)
  {
    hide *;
    xs := Matches(m.addedTokens, text, 0);
    MatchesAreFit(m, text, 0);
    MatchesAreLeftmostLongest(m.addedTokens, text, 0, xs);
    MatchesInOrder(m.addedTokens, text, xs);
    pieces, last := AroundLaidOut(m, sp, text, xs, 0, pos);
    RawIs(m, sp, text, pos);
  }

  // ---------------------------------------------------------------------------
  // What an added token keeps a cut from
  // ---------------------------------------------------------------------------

  lemma {:induction false} BlankTrims(chars: seq<Bytes>)
    requires forall c :: c in chars ==> IsWhitespace(c)
    ensures TrimmedLen(Concat(chars)) == 0
  {
    hide IsWhitespace, LastStart;
    if chars != [] {
      var k := |chars| - 1;
      var front, c := chars[..k], chars[k];
      BlankTrims(front);
      assert chars == front + [c] && c in chars;
      ConcatSnoc(front, c);
      var s := Concat(chars);
      assert s[|s| - |c|..] == c && s[..|s| - |c|] == Concat(front);
      WhitespaceIsChar(c, s);
      WhitespaceSome(c);
    }
  }

  lemma {:induction false} BlankLeads(chars: seq<Bytes>, t: Bytes)
    requires forall c :: c in chars ==> IsWhitespace(c)
    ensures LeadingWs(Concat(chars) + t) >= |Concat(chars)|
  {
    hide IsWhitespace, CharLen, LeadingWs;
    if chars != [] {
      var c, rest := chars[0], Concat(chars[1..]) + t;
      BlankLeads(chars[1..], t);
      assert Concat(chars) + t == c + rest;
      LeadingWsCons(c, rest);
    }
  }

  lemma LeadingWsCons(c: Bytes, t: Bytes)
    requires IsWhitespace(c)
    ensures LeadingWs(c + t) == |c| + LeadingWs(t)
  {
    hide IsWhitespace, CharLen;
    var s := c + t;
    assert s[..|c|] == c && s[|c|..] == t;
    WhitespaceIsChar(c, s);
    WhitespaceSome(c);
  }

  lemma {:induction false} LeadsBlank(s: Bytes, k: nat)
    requires Valid(s) && Boundary(s, k) && LeadingWs(s) >= k
    ensures Blank(s[..k])
    decreases |s|
  {
    hide IsWhitespace, CharLen, Blank, Valid, Boundary;
    if k == 0 {
      BlankNone();
    } else {
      BoundaryPast(s, k);
      ValidTail(s);
      var n := CharLen(s);
      LeadsBlank(s[n..], k - n);
      BlankCons(s[..n], s[n..][..k - n]);
      assert s[..k] == s[..n] + s[n..][..k - n];
    }
  }

  lemma TrimsIffBlank(s: Bytes)
    ensures TrimmedLen(s) == 0 <==> Blank(s)
  {
    hide IsWhitespace, TrimmedLen;
    TrimmedIsAll(s);
    assert s[0..] == s;
    if Blank(s) {
      var chars: seq<Bytes> :| Concat(chars) == s && forall c :: c in chars ==> IsWhitespace(c);
      BlankTrims(chars);
    }
  }

  lemma LeadsIffBlank(s: Bytes, k: nat)
    requires Valid(s) && Boundary(s, k)
    ensures LeadingWs(s) >= k <==> Blank(s[..k])
  {
    hide IsWhitespace, LeadingWs, Valid;
    if LeadingWs(s) >= k {
      LeadsBlank(s, k);
    }
    if Blank(s[..k]) {
      var chars: seq<Bytes> :| Concat(chars) == s[..k] && forall c :: c in chars ==> IsWhitespace(c);
      BlankLeads(chars, s[k..]);
      assert s == s[..k] + s[k..];
    }
  }

  /** An occurrence keeps cuts from its inside; from whitespace that the token strips, up to the token or from its end on;
      and from its end where the next section would be prefixed whatever it starts with. */
  lemma BlocksWrittenOut(m: Model, sp: SpeedPaths, text: Bytes, i: nat, s: nat, p: nat)
    requires Valid(text) && TokensOk(m.addedTokens) && p <= |text| && Boundary(text, p) && TokenAt(m.addedTokens, text, i, s)
    ensures var t := m.addedTokens[i];
      var e := s + |t.content|;
      && s < e <= |text|
      && (Blocks(m, sp, text, i, s, p) <==>
            if p <= s then t.lstrip && Blank(text[p..s])
            else if p < e then true
            else if t.rstrip then Blank(text[e..p])
            else p == e && PrependsNoMatterWhat(sp))
  {
    hide Blank, TrimmedLen, LeadingWs, Valid, IsWhitespace, Boundary, OccursAt, CharLen;
    var t := m.addedTokens[i];
    var e := s + |t.content|;
    OccurrenceEnds(m, text, i, s);
    if p <= s {
      ValidSplit(text, s);
      StripsBack(text, s, p);
    } else if p >= e {
      ValidSplit(text, e);
      StripsOn(text, e, p);
    }
  }

  lemma OccurrenceEnds(m: Model, text: Bytes, i: nat, s: nat)
    requires Valid(text) && TokensOk(m.addedTokens) && TokenAt(m.addedTokens, text, i, s)
    ensures var e := s + |m.addedTokens[i].content|; s < e <= |text| && Boundary(text, s) && Boundary(text, e)
  {
    OccurrenceBoundaries(text, m.addedTokens[i].content, s);
  }

  predicate PrependsNoMatterWhat(sp: SpeedPaths) {
    sp.rawPrepend == Some(Unguarded)
  }

  lemma StripsBack(text: Bytes, s: nat, p: nat)
    requires p <= s <= |text| && Valid(text[..s]) && Boundary(text, p)
    ensures TrimmedLen(text[..s]) <= p <==> Blank(text[p..s])
  {
    hide Blank, TrimmedLen, Valid;
    var l := text[..s];
    assert p < s ==> l[p] == text[p];
    TrimmedSuffix(l, p);
    assert l[p..] == text[p..s];
    TrimsIffBlank(text[p..s]);
  }

  lemma StripsOn(text: Bytes, e: nat, p: nat)
    requires e <= p <= |text| && Valid(text[e..]) && Boundary(text, p)
    ensures LeadingWs(text[e..]) >= p - e <==> Blank(text[e..p])
  {
    hide Blank, LeadingWs, Valid;
    var r := text[e..];
    assert p < |text| ==> r[p - e] == text[p];
    LeadsIffBlank(r, p - e);
    assert r[..p - e] == text[e..p];
  }
}
