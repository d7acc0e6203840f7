/** The encode entry points of the raw fast path, whole and in fragments. */
module SpEncode {
  import opened Utf8
  import opened MergeSpec
  import opened SpModel
  import opened SpFinalize
  import opened AddedTokens
  import opened SpCache
  import opened SpUnits
  import opened SpFragments
  import opened SpFragmentRanges

  /** A state in raw mode for this model, with room for `n` more tokens in units of at most `unit`. */
  ghost predicate StateReady(state: EncodeState, m: Model, unit: nat, n: nat)
    reads state, state.frontKeys, state.frontVals
  {
    state.Valid() && state.m == m && state.raw && state.OffsetsFit(unit, n)
  }

  lemma RoomForSection(state: EncodeState, virtualPrefix: bool, chunk: Bytes, unit: nat, extra: nat)
    requires chunk != [] && state.OffsetsFit(unit, 6 * |chunk| + extra)
    ensures RoomFor(state, WithPrefix(virtualPrefix, chunk), 0, unit, extra)
  {
    WholeLength(virtualPrefix, chunk);
  }

  lemma RoomLeft(state: EncodeState, whole: Bytes, unit: nat, extra: nat)
    requires RoomFor(state, whole, |whole|, unit, extra)
    ensures state.OffsetsFit(unit, extra)
  {
  }

  method EncodeChunkRaw(m: Model, sp: SpeedPaths, state: EncodeState, chunk: Bytes, pos: SectionPos, ghost unit: nat, ghost extra: nat)
    returns (out: seq<Token>)
    requires RawReady(m, sp, chunk) && UnitsBelow(sp, true, chunk, unit) && StateReady(state, m, unit, 6 * |chunk| + extra)
    modifies state, state.frontKeys, state.frontVals
    ensures StateReady(state, m, unit, extra)
    ensures sp.rawPrepend.Some? && out == EncodeSection(m, sp, chunk, pos)
  {
    hide RawReady, EncodeSection, VirtualPrefix, RoomFor, Finalized, Model.WellFormed, Covered, EncodeState.Valid, PrefixGuarded, UnitsBelow;
    ReadyFacts(m, sp, chunk);
    SectionIs(m, sp, chunk, pos);
    if chunk == [] {
      return [];
    }
    var virtualPrefix := VirtualPrefix(sp.rawPrepend.value, pos, chunk);
    SectionCovered(m, sp, chunk, pos);
    RawPrefixGuarded(m, sp, chunk, pos);
    RoomForSection(state, virtualPrefix, chunk, unit, extra);
    out := EncodeUnits(m, sp, state, chunk, virtualPrefix, true, unit, extra);
    RoomLeft(state, WithPrefix(virtualPrefix, chunk), unit, extra);
  }

  /** What a match does to the running section, in bounds and on boundaries. */
  lemma MatchFacts(m: Model, sp: SpeedPaths, text: Bytes, x: Match, cs: nat)
    requires RawReady(m, sp, text) && Occurs(m, text, x) && cs <= |text| && Boundary(text, cs)
    ensures x.start <= x.end <= |text| && x.token < |m.addedTokens|
    ensures cs <= x.start ==> cs <= ChunkEnd(m, text, x, cs) <= |text| && RawReady(m, sp, text[cs..ChunkEnd(m, text, x, cs)])
    ensures cs <= x.start ==> Boundary(text, ChunkEnd(m, text, x, cs))
    ensures Boundary(text, ChunkRestart(m, text, x))
  {
    hide Model.WellFormed, Finalized, Covered, LeadingWs, TrimmedLen, Valid;
    var t := m.addedTokens[x.token];
    OccurrenceBoundaries(text, t.content, x.start);
    if cs <= x.start {
      ChunkEndBoundary(m, text, x, cs);
      SliceReady(m, sp, text, cs, ChunkEnd(m, text, x, cs));
    }
    if t.rstrip {
      ValidSplit(text, x.end);
      var r := text[x.end..];
      LeadingWsBoundary(r);
      assert LeadingWs(r) < |r| ==> r[LeadingWs(r)] == text[x.end + LeadingWs(r)];
    }
  }

  lemma ChunkEndBoundary(m: Model, text: Bytes, x: Match, cs: nat)
    requires Valid(text) && x.token < |m.addedTokens| && cs <= x.start <= |text|
    requires Boundary(text, cs) && Boundary(text, x.start)
    ensures Boundary(text, ChunkEnd(m, text, x, cs))
  {
    hide TrimmedLen, Valid;
    var c := text[cs..x.start];
    ValidSplit(text, x.start);
    var l := text[..x.start];
    assert cs < x.start ==> l[cs] == text[cs];
    ValidSplit(l, cs);
    assert l[cs..] == c;
    TrimmedBoundary(c);
    assert TrimmedLen(c) < |c| ==> c[TrimmedLen(c)] == text[cs + TrimmedLen(c)];
  }

  lemma LastChunkReady(m: Model, sp: SpeedPaths, text: Bytes, cs: nat)
    requires RawReady(m, sp, text) && cs <= |text| && Boundary(text, cs)
    ensures RawReady(m, sp, text[cs..])
  {
    EndIsBoundary(text);
    SliceReady(m, sp, text, cs, |text|);
    assert text[cs..|text|] == text[cs..];
  }

  lemma RoomSplits(state: EncodeState, m: Model, unit: nat, n: nat, k: nat)
    requires StateReady(state, m, unit, n) && k <= n
    ensures StateReady(state, m, unit, k)
  {
  }

  /** `encode_raw_from`: sections between matches through the cache, matched tokens in between. */
  method EncodeRawFrom(m: Model, sp: SpeedPaths, state: EncodeState, text: Bytes, start: SectionPos, ghost unit: nat) returns (out: seq<Token>)
    requires RawReady(m, sp, text) && UnitsBelow(sp, true, text, unit) && StateReady(state, m, unit, 6 * |text|)
    modifies state, state.frontKeys, state.frontVals
    ensures StateReady(state, m, unit, 0)
    ensures sp.rawPrepend.Some? && out == EncodeRaw(m, sp, text, start)
  {
    hide *;
    ReadyFacts(m, sp, text);
    ReadyStart(m, sp, text);
    RawIs(m, sp, text, start);
    MatchesOccur(m, text, 0);
    var xs := Matches(m.addedTokens, text, 0);
    var chunkStart, pos, i := 0, start, 0;
    out := [];
    assert xs[0..] == xs;
    while i < |xs|
      invariant 0 <= i <= |xs| && 0 <= chunkStart <= |text| && Boundary(text, chunkStart)
      invariant AllOccur(m, text, xs[i..]) && MatchesFit(m, text, xs[i..])
      invariant StateReady(state, m, unit, 6 * (|text| - chunkStart))
      invariant out + EncodeAround(m, sp, text, xs[i..], chunkStart, pos) == EncodeRaw(m, sp, text, start)
    {
      var x := xs[i];
      assert xs[i..][0] == x && xs[i..][1..] == xs[i + 1..];
      OccursFacts(m, text, xs[i..]);
      MatchFacts(m, sp, text, x, chunkStart);
      AroundStep(m, sp, text, xs[i..], chunkStart, pos);
      if x.start >= chunkStart {
        var end, restart := ChunkEnd(m, text, x, chunkStart), ChunkRestart(m, text, x);
        SliceUnitsBelow(sp, true, text, unit, chunkStart, end);
        RoomSplits(state, m, unit, 6 * (|text| - chunkStart), 6 * (end - chunkStart) + 6 * (|text| - restart));
        var tokens := EncodeChunkRaw(m, sp, state, text[chunkStart..end], pos, unit, 6 * (|text| - restart));
        out := out + tokens + [m.addedTokens[x.token].id];
        chunkStart, pos := restart, Middle;
      }
      i := i + 1;
    }
    assert xs[i..] == [];
    AroundDone(m, sp, text, chunkStart, pos);
    LastChunkReady(m, sp, text, chunkStart);
    EndIsBoundary(text);
    SliceUnitsBelow(sp, true, text, unit, chunkStart, |text|);
    assert text[chunkStart..|text|] == text[chunkStart..];
    var tokens := EncodeChunkRaw(m, sp, state, text[chunkStart..], pos, unit, 0);
    out := out + tokens;
  }

  lemma FewerStillFit(budget: nat, unit: nat, n: nat, k: nat)
    requires FitOffsets(budget, 0, 0, unit, n) && k <= n
    ensures FitOffsets(budget, 0, 0, unit, k)
  {
  }

  /** One fragment, with a cache of its own. */
  method EncodeFragment(m: Model, sp: SpeedPaths, text: Bytes, start: nat, end: nat, pos: SectionPos, budget: nat, frontSize: nat,
                        frontIndex: nat -> nat, ghost unit: nat)
    returns (out: seq<Token>)
    requires start <= end <= |text| && Boundary(text, start) && Boundary(text, end)
    requires RawReady(m, sp, text) && UnitsBelow(sp, true, text, unit) && FitOffsets(budget, 0, 0, unit, 6 * |text|)
    requires forall k :: frontIndex(k) < frontSize
    ensures sp.rawPrepend.Some? && out == EncodeRaw(m, sp, text[start..end], pos)
  {
    hide RawReady, EncodeRaw, EncodeState.Valid, UnitsBelow, FitOffsets;
    SliceReady(m, sp, text, start, end);
    SliceUnitsBelow(sp, true, text, unit, start, end);
    FewerStillFit(budget, unit, 6 * |text|, 6 * (end - start));
    var state := new EncodeState(m, true, budget, frontSize, frontIndex);
    out := EncodeRawFrom(m, sp, state, text[start..end], pos, unit);
  }

  /** A document encoded fragment by fragment, each with a cache of its own, and concatenated. Only its units are
      bounded, by the u32 spans of the cache. */
  method EncodeInFragments(m: Model, sp: SpeedPaths, text: Bytes, target: nat, budget: nat, frontSize: nat, frontIndex: nat -> nat, ghost unit: nat)
    returns (out: seq<Token>)
    requires RawReady(m, sp, text) && UnitsBelow(sp, true, text, unit) && FitOffsets(budget, 0, 0, unit, 6 * |text|)
    requires forall k :: frontIndex(k) < frontSize
    ensures sp.rawPrepend.Some? && out == EncodeRaw(m, sp, text, First)
  {
    hide RawReady, EncodeRaw, EncodeFragments, SafeCut, UnitsBelow, FitOffsets;
    var ranges, cuts := SafeFragmentRanges(m, sp, text, target);
    ReadyFacts(m, sp, text);
    if text == [] {
      assert text[0..0] == text;
      out := EncodeFragment(m, sp, text, 0, 0, First, budget, frontSize, frontIndex, unit);
      return;
    }
    FragmentsEncodeWhole(m, sp, text, cuts);
    out := [];
    assert cuts[..1] == [0];
    NoFragments(m, sp, text);
    for i := 0 to |ranges|
      invariant forall k :: 0 <= k <= i ==> cuts[..i + 1][k] == cuts[k]
      invariant out == EncodeFragments(m, sp, text, cuts[..i + 1])
    {
      var r := ranges[i];
      CutsBoundary(m, sp, text, cuts, i);
      CutsBoundary(m, sp, text, cuts, i + 1);
      var tokens := EncodeFragment(m, sp, text, r.start, r.end, if i == 0 then First else Continuation, budget, frontSize, frontIndex, unit);
      FragmentsStep(m, sp, text, cuts, i);
      out := out + tokens;
    }
    assert cuts[..|ranges| + 1] == cuts;
  }

  lemma NoFragments(m: Model, sp: SpeedPaths, text: Bytes)
    requires sp.rawPrepend.Some?
    ensures EncodeFragments(m, sp, text, [0]) == []
  {
  }

  lemma CutsBoundary(m: Model, sp: SpeedPaths, text: Bytes, cuts: seq<nat>, i: nat)
    requires RawReady(m, sp, text) && Fragments(m, sp, text, cuts) && i < |cuts|
    ensures cuts[i] <= |text| && Boundary(text, cuts[i])
  {
    hide RawReady;
    ReadyStart(m, sp, text);
    if 0 < i < |cuts| - 1 {
      MarkCutFacts(sp, text, cuts[i]);
    }
  }

  lemma FragmentsStep(m: Model, sp: SpeedPaths, text: Bytes, cuts: seq<nat>, i: nat)
    requires sp.rawPrepend.Some? && i + 1 < |cuts|
    requires forall k :: 0 <= k < |cuts| ==> cuts[k] <= |text|
    requires forall j, k :: 0 <= j < k < |cuts| ==> cuts[j] <= cuts[k]
    ensures EncodeFragments(m, sp, text, cuts[..i + 2]) == EncodeFragments(m, sp, text, cuts[..i + 1])
         + EncodeRaw(m, sp, text[cuts[i]..cuts[i + 1]], if i == 0 then First else Continuation)
  {
    hide EncodeRaw;
    assert cuts[..i + 2][..i + 1] == cuts[..i + 1];
  }
}
