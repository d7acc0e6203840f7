/** Choosing fragment cuts, and encoding a document in fragments. */
module SpFragmentRanges {
  import opened Common
  import opened Utf8
  import opened ByteSearch
  import opened SpModel
  import opened SpBoundaries
  import opened SpFinalize
  import opened AddedTokens
  import opened SpUnits
  import opened SpFragments

  /** A half-open interval of positions. */
  datatype Range = Range(start: nat, end: nat)

  predicate InRange(r: Range, p: nat) {
    r.start <= p < r.end
  }

  ghost predicate InSome(blocks: seq<Range>, p: nat) {
    exists r :: r in blocks && InRange(r, p)
  }

  // ---------------------------------------------------------------------------
  // Blocked intervals
  // ---------------------------------------------------------------------------

  /** Tokens that cannot block a mark are skipped without a scan. */
  predicate CanBlock(sp: SpeedPaths, t: AddedToken) {
    && t.content != []
    && (SPACE in t.content || 0xE2 in t.content || sp.rawPrepend == Some(Unguarded) || t.lstrip || t.rstrip)
  }

  lemma SkippedBlocksNoMark(m: Model, sp: SpeedPaths, text: Bytes, i: nat, s: nat, p: nat)
    requires i < |m.addedTokens| && !CanBlock(sp, m.addedTokens[i]) && IsMark(text, p, true)
    ensures !Blocks(m, sp, text, i, s, p)
  {
    var u := m.addedTokens[i].content;
    assert TokenAt(m.addedTokens, text, i, s) ==> !(s <= p < s + |u|);
  }

  /** Some occurrence blocks a cut at `p`. */
  ghost predicate Blocked(m: Model, sp: SpeedPaths, text: Bytes, p: nat) {
    exists i: nat, s: nat :: Blocks(m, sp, text, i, s, p)
  }

  /** An occurrence of token `i` that starts before `from` blocks a cut at `p`. */
  ghost predicate BlockedBy(m: Model, sp: SpeedPaths, text: Bytes, i: nat, from: nat, p: nat) {
    exists s: nat :: s < from && Blocks(m, sp, text, i, s, p)
  }

  /** The positions collected are those blocked by the occurrences of token `i` that start before `from`. */
  ghost predicate Collected(m: Model, sp: SpeedPaths, text: Bytes, i: nat, from: nat, out: seq<Range>) {
    forall p: nat :: InSome(out, p) <==> BlockedBy(m, sp, text, i, from, p)
  }

  /** Every occurrence of one token, overlapping ones included. */
  method TokenBlocks(m: Model, sp: SpeedPaths, text: Bytes, i: nat) returns (out: seq<Range>)
    requires i < |m.addedTokens| && m.addedTokens[i].content != []
    ensures forall p: nat :: InSome(out, p) <==> exists s: nat :: Blocks(m, sp, text, i, s, p)
    ensures forall r :: r in out ==> r.start < r.end
  {
    hide *;
    out := [];
    var from := 0;
    NoneCollected(m, sp, text, i);
    var content := m.addedTokens[i].content;
    while true
      invariant from <= |text| + 1
      invariant Collected(m, sp, text, i, from, out)
      invariant forall r :: r in out ==> r.start < r.end
      decreases |text| + 1 - from
    {
      var found := FindFrom(text, content, from);
      if found.None? {
        AllOccurrences(m, sp, text, i, from, out);
        return;
      }
      var s := found.value;
      OccurrenceFits(text, content, s);
      var lo, hi := BlockLo(m, text, i, s), BlockHi(m, sp, text, i, s);
      ghost var before := out;
      if lo <= hi {
        out := out + [Range(lo, hi + 1)];
      }
      CollectedStep(m, sp, text, i, from, s, before, out);
      from := s + 1;
    }
  }

  lemma OccurrenceFits(text: Bytes, u: Bytes, s: nat)
    requires OccursAt(text, u, s)
    ensures s + |u| <= |text|
  {
  }

  lemma NoneCollected(m: Model, sp: SpeedPaths, text: Bytes, i: nat)
    ensures Collected(m, sp, text, i, 0, [])
  {
  }

  /** Past the last occurrence nothing is missing. */
  lemma AllOccurrences(m: Model, sp: SpeedPaths, text: Bytes, i: nat, from: nat, out: seq<Range>)
    requires i < |m.addedTokens| && Collected(m, sp, text, i, from, out)
    requires forall p :: from <= p ==> !OccursAt(text, m.addedTokens[i].content, p)
    ensures forall p: nat :: InSome(out, p) <==> exists s: nat :: Blocks(m, sp, text, i, s, p)
  {
    hide InSome, BlockLo, BlockHi;
    forall p: nat, s: nat | Blocks(m, sp, text, i, s, p) ensures s < from {
    }
  }

  lemma InSomeSnoc(blocks: seq<Range>, r: Range, p: nat)
    ensures InSome(blocks + [r], p) <==> InSome(blocks, p) || InRange(r, p)
  {
    assert r in blocks + [r];
    assert forall x :: x in blocks + [r] <==> x in blocks || x == r;
  }

  lemma CollectedStep(m: Model, sp: SpeedPaths, text: Bytes, i: nat, from: nat, s: nat, before: seq<Range>, out: seq<Range>)
    requires i < |m.addedTokens| && m.addedTokens[i].content != [] && Collected(m, sp, text, i, from, before)
    requires from <= s && OccursAt(text, m.addedTokens[i].content, s)
    requires forall p :: from <= p < s ==> !OccursAt(text, m.addedTokens[i].content, p)
    requires var lo, hi := BlockLo(m, text, i, s), BlockHi(m, sp, text, i, s);
      out == if lo <= hi then before + [Range(lo, hi + 1)] else before
    ensures Collected(m, sp, text, i, s + 1, out)
  {
    hide BlockLo, BlockHi, InSome;
    var lo, hi := BlockLo(m, text, i, s), BlockHi(m, sp, text, i, s);
    forall p: nat ensures InSome(out, p) <==> BlockedBy(m, sp, text, i, s + 1, p) {
      InSomeSnoc(before, Range(lo, if lo <= hi then hi + 1 else lo), p);
      assert Blocks(m, sp, text, i, s, p) <==> lo <= p <= hi;
      assert forall t: nat :: from <= t < s ==> !Blocks(m, sp, text, i, t, p);
    }
  }

  /** Tokens before `n` block the positions collected, and no others among the marks. */
  ghost predicate AllCollected(m: Model, sp: SpeedPaths, text: Bytes, n: nat, out: seq<Range>) {
    && (forall p: nat :: InSome(out, p) ==> Blocked(m, sp, text, p))
    && (forall i: nat, s: nat, p: nat :: i < n && IsMark(text, p, true) && Blocks(m, sp, text, i, s, p) ==> InSome(out, p))
  }

  method CollectBlocks(m: Model, sp: SpeedPaths, text: Bytes) returns (out: seq<Range>)
    ensures AllCollected(m, sp, text, |m.addedTokens|, out)
    ensures forall r :: r in out ==> r.start < r.end
  {
    out := [];
    for i := 0 to |m.addedTokens|
      invariant AllCollected(m, sp, text, i, out)
      invariant forall r :: r in out ==> r.start < r.end
    {
      hide Blocks, IsMark, InSome;
      var more: seq<Range> := [];
      if CanBlock(sp, m.addedTokens[i]) {
        more := TokenBlocks(m, sp, text, i);
      }
      CollectedToken(m, sp, text, i, out, more);
      out := out + more;
    }
  }

  lemma InSomePlus(a: seq<Range>, b: seq<Range>, p: nat)
    ensures InSome(a + b, p) <==> InSome(a, p) || InSome(b, p)
  {
    assert forall x :: x in a + b <==> x in a || x in b;
  }

  lemma CollectedToken(m: Model, sp: SpeedPaths, text: Bytes, i: nat, out: seq<Range>, more: seq<Range>)
    requires i < |m.addedTokens| && AllCollected(m, sp, text, i, out)
    requires if CanBlock(sp, m.addedTokens[i]) then forall p: nat :: InSome(more, p) <==> exists s: nat :: Blocks(m, sp, text, i, s, p)
             else more == []
    ensures AllCollected(m, sp, text, i + 1, out + more)
  {
    hide IsMark, Blocks, CanBlock, InSome;
    forall p: nat ensures InSome(out + more, p) <==> InSome(out, p) || InSome(more, p) {
      InSomePlus(out, more, p);
    }
    forall k: nat, s: nat, p: nat | k < i + 1 && IsMark(text, p, true) && Blocks(m, sp, text, k, s, p)
      ensures InSome(out + more, p)
    {
      if k == i && !CanBlock(sp, m.addedTokens[i]) {
        SkippedBlocksNoMark(m, sp, text, i, s, p);
      }
    }
    forall p: nat | InSome(more, p) ensures Blocked(m, sp, text, p) {
      NotEmptyCollected(more, p);
      var s: nat :| Blocks(m, sp, text, i, s, p);
    }
  }

  lemma NotEmptyCollected(blocks: seq<Range>, p: nat)
    requires InSome(blocks, p)
    ensures blocks != []
  {
  }

  ghost predicate SortedByStart(blocks: seq<Range>) {
    forall i, j :: 0 <= i < j < |blocks| ==> blocks[i].start <= blocks[j].start
  }

  /** Sorted, and apart: no two intervals touch. */
  ghost predicate Apart(blocks: seq<Range>) {
    && (forall i :: 0 <= i < |blocks| ==> blocks[i].start < blocks[i].end)
    && (forall i, j :: 0 <= i < j < |blocks| ==> blocks[i].end < blocks[j].start)
  }

  method SortByStart(blocks: seq<Range>) returns (out: seq<Range>)
    ensures SortedByStart(out) && forall r :: r in out <==> r in blocks
  {
    out := [];
    for i := 0 to |blocks|
      invariant SortedByStart(out) && forall r :: r in out <==> r in blocks[..i]
    {
      var k: nat := |out|;
      while k > 0 && out[k - 1].start > blocks[i].start
        invariant 0 <= k <= |out| && forall j :: k <= j < |out| ==> out[j].start > blocks[i].start
      {
        k := k - 1;
      }
      InsertSorted(out, k, blocks[i]);
      assert blocks[..i + 1] == blocks[..i] + [blocks[i]];
      out := out[..k] + [blocks[i]] + out[k..];
    }
    assert blocks[..|blocks|] == blocks;
  }

  lemma InsertSorted(out: seq<Range>, k: nat, r: Range)
    requires SortedByStart(out) && k <= |out|
    requires k > 0 ==> out[k - 1].start <= r.start
    requires forall j :: k <= j < |out| ==> out[j].start > r.start
    ensures SortedByStart(out[..k] + [r] + out[k..])
    ensures forall x :: x in out[..k] + [r] + out[k..] <==> x == r || x in out
  {
    var t := out[..k] + [r] + out[k..];
    forall i, j | 0 <= i < j < |t| ensures t[i].start <= t[j].start {
      assert t[i] == if i < k then out[i] else if i == k then r else out[i - 1];
      assert t[j] == if j < k then out[j] else if j == k then r else out[j - 1];
      assert i < k - 1 ==> out[i].start <= out[k - 1].start;
    }
  }

  /** Merging sorted intervals that overlap or touch: the same positions, in intervals apart. */
  method MergeBlocks(blocks: seq<Range>) returns (out: seq<Range>)
    requires SortedByStart(blocks) && forall r :: r in blocks ==> r.start < r.end
    ensures Apart(out) && forall p: nat :: InSome(out, p) <==> InSome(blocks, p)
  {
    hide InSome;
    out := [];
    assert blocks[..0] == [];
    for i := 0 to |blocks|
      invariant Apart(out) && forall p: nat :: InSome(out, p) <==> InSome(blocks[..i], p)
      invariant out != [] && i < |blocks| ==> out[|out| - 1].start <= blocks[i].start
    {
      assert blocks[i] in blocks;
      ghost var before := out;
      if out != [] && blocks[i].start <= out[|out| - 1].end {
        var last := out[|out| - 1];
        out := out[..|out| - 1] + [Range(last.start, if last.end < blocks[i].end then blocks[i].end else last.end)];
      } else {
        out := out + [blocks[i]];
      }
      forall p: nat ensures InSome(out, p) <==> InSome(blocks[..i + 1], p) {
        MergeKeeps(blocks[i], before, out, p);
        assert blocks[..i + 1] == blocks[..i] + [blocks[i]];
        InSomeSnoc(blocks[..i], blocks[i], p);
      }
    }
    assert blocks[..|blocks|] == blocks;
  }

  lemma MergeKeeps(block: Range, before: seq<Range>, out: seq<Range>, p: nat)
    requires block.start < block.end && (before != [] ==> before[|before| - 1].start <= block.start)
    requires
      var k := |before| - 1;
      if before != [] && block.start <= before[k].end
      then out == before[..k] + [Range(before[k].start, if before[k].end < block.end then block.end else before[k].end)]
      else out == before + [block]
    ensures InSome(out, p) <==> InSome(before, p) || InRange(block, p)
  {
    hide InSome;
    if before != [] && block.start <= before[|before| - 1].end {
      var k := |before| - 1;
      assert before == before[..k] + [before[k]];
      InSomeSnoc(before[..k], before[k], p);
      InSomeSnoc(before[..k], out[k], p);
    } else {
      InSomeSnoc(before, block, p);
    }
  }

  /** `added_token_cut_blocks`: sorted, disjoint intervals holding exactly the marks a cut may not take, and no position
      that nothing blocks. */
  method AddedTokenCutBlocks(m: Model, sp: SpeedPaths, text: Bytes) returns (blocks: seq<Range>)
    ensures Apart(blocks)
    ensures forall p: nat :: IsMark(text, p, true) ==> (InSome(blocks, p) <==> Blocked(m, sp, text, p))
    ensures forall p: nat :: InSome(blocks, p) ==> Blocked(m, sp, text, p)
  {
    hide Blocks, IsMark, InSome;
    var collected := CollectBlocks(m, sp, text);
    var sorted := SortByStart(collected);
    SameMembers(collected, sorted);
    blocks := MergeBlocks(sorted);
    forall i: nat, s: nat, p: nat | IsMark(text, p, true) && Blocks(m, sp, text, i, s, p) ensures InSome(blocks, p) {
      BlockToken(m, sp, text, i, s, p);
    }
  }

  lemma SameMembers(a: seq<Range>, b: seq<Range>)
    requires forall r :: r in b <==> r in a
    ensures forall p: nat :: InSome(a, p) <==> InSome(b, p)
  {
  }

  lemma BlockToken(m: Model, sp: SpeedPaths, text: Bytes, i: nat, s: nat, p: nat)
    requires Blocks(m, sp, text, i, s, p)
    ensures i < |m.addedTokens|
  {
  }

  // ---------------------------------------------------------------------------
  // Cuts
  // ---------------------------------------------------------------------------

  /** Intervals before index `bi` are behind `probe`; the next one starts after it. */
  lemma ClearOfBlocks(blocks: seq<Range>, bi: nat, probe: nat)
    requires Apart(blocks) && bi <= |blocks|
    requires forall k :: 0 <= k < bi ==> blocks[k].end <= probe
    requires bi < |blocks| ==> blocks[bi].end > probe && blocks[bi].start > probe
    ensures !InSome(blocks, probe)
  {
  }

  /** `probe` sits on a mark that starts a unit. */
  predicate ProbeOk(sp: SpeedPaths, text: Bytes, probe: nat)
    requires 0 < probe < |text|
  {
    && IsMark(text, probe, true)
    && !(sp.wordSplit != EveryMark && EndsInMark(text[..probe], true))
    && !PieceSpansBoundary(sp, text, probe, MarkWidth(text, probe, true))
  }

  /** The probe's own test is the whole test of the mark. */
  lemma ProbeIsMarkCut(m: Model, sp: SpeedPaths, text: Bytes, probe: nat)
    requires Finalized(m, sp) && sp.wordSplit != NoSplit && 0 < probe < |text|
    ensures ProbeOk(sp, text, probe) <==> MarkCut(sp, text, probe)
  {
    hide Finalized, PieceSpansBoundary, EndsInMark, PieceSpans;
    if IsMark(text, probe, true) {
      SpansIffSeen(m, sp, text, probe, MarkWidth(text, probe, true));
    }
  }

  lemma SafeIsUnblocked(m: Model, sp: SpeedPaths, text: Bytes, p: nat)
    ensures SafeCut(m, sp, text, p) <==> MarkCut(sp, text, p) && !Blocked(m, sp, text, p)
    ensures MarkCut(sp, text, p) ==> IsMark(text, p, true)
  {
    hide Blocks;
  }

  ghost predicate NoSafeCut(m: Model, sp: SpeedPaths, text: Bytes, from: nat, to: nat) {
    forall p: nat :: from <= p < to ==> !SafeCut(m, sp, text, p)
  }

  /** No cut is safe inside an interval. */
  lemma HopsNoCut(m: Model, sp: SpeedPaths, text: Bytes, blocks: seq<Range>, bi: nat, from: nat, probe: nat)
    requires bi < |blocks| && blocks[bi].start <= probe && NoSafeCut(m, sp, text, from, probe)
    requires forall p: nat :: IsMark(text, p, true) ==> (InSome(blocks, p) <==> Blocked(m, sp, text, p))
    ensures NoSafeCut(m, sp, text, from, blocks[bi].end)
  {
    hide Blocked, SafeCut, IsMark;
    forall p: nat | probe <= p < blocks[bi].end ensures !SafeCut(m, sp, text, p) {
      assert InRange(blocks[bi], p);
      SafeIsUnblocked(m, sp, text, p);
    }
  }

  lemma NoSafeCutMore(m: Model, sp: SpeedPaths, text: Bytes, from: nat, probe: nat)
    requires NoSafeCut(m, sp, text, from, probe) && !SafeCut(m, sp, text, probe)
    ensures NoSafeCut(m, sp, text, from, probe + 1)
  {
  }

  lemma NoSafeCutNone(m: Model, sp: SpeedPaths, text: Bytes, from: nat)
    ensures NoSafeCut(m, sp, text, from, from)
  {
  }

  lemma NoSafeCutLess(m: Model, sp: SpeedPaths, text: Bytes, from: nat, to: nat, end: nat)
    requires NoSafeCut(m, sp, text, from, to) && end <= to
    ensures NoSafeCut(m, sp, text, from, end)
  {
  }

  /** The first safe cut at or after `probe0`, or None if there is none; `bi` only moves forward. */
  method NextCut(m: Model, sp: SpeedPaths, text: Bytes, blocks: seq<Range>, bi0: nat, probe0: nat)
    returns (cut: Option<nat>, bi: nat)
    requires RawReady(m, sp, text) && 0 < probe0
    requires Apart(blocks) && bi0 <= |blocks| && forall k :: 0 <= k < bi0 ==> blocks[k].end <= probe0
    requires forall p: nat :: IsMark(text, p, true) ==> (InSome(blocks, p) <==> Blocked(m, sp, text, p))
    ensures cut.Some? ==> probe0 <= cut.value < |text| && SafeCut(m, sp, text, cut.value)
    ensures NoSafeCut(m, sp, text, probe0, if cut.Some? then cut.value else |text|)
    ensures cut.Some? ==> bi <= |blocks| && forall k :: 0 <= k < bi ==> blocks[k].end <= cut.value
  {
    hide *;
    var probe := probe0;
    bi := bi0;
    ReadyFacts(m, sp, text);
    NoSafeCutNone(m, sp, text, probe0);
    while probe < |text|
      invariant probe0 <= probe && bi <= |blocks| && forall k :: 0 <= k < bi ==> blocks[k].end <= probe
      invariant NoSafeCut(m, sp, text, probe0, probe)
      decreases |text| - probe
    {
      ProbeIsMarkCut(m, sp, text, probe);
      SafeIsUnblocked(m, sp, text, probe);
      if !ProbeOk(sp, text, probe) {
        NoSafeCutMore(m, sp, text, probe0, probe);
        probe := probe + 1;
        continue;
      }
      while bi < |blocks| && blocks[bi].end <= probe
        invariant bi <= |blocks| && forall k :: 0 <= k < bi ==> blocks[k].end <= probe
      {
        bi := bi + 1;
      }
      if bi < |blocks| && blocks[bi].start <= probe {
        HopsNoCut(m, sp, text, blocks, bi, probe0, probe);
        probe := blocks[bi].end;
        continue;
      }
      ClearOfBlocks(blocks, bi, probe);
      return Some(probe), bi;
    }
    NoSafeCutLess(m, sp, text, probe0, probe, |text|);
    cut := None;
  }

  ghost predicate RangesOf(ranges: seq<Range>, cuts: seq<nat>) {
    |cuts| == |ranges| + 1 && forall i :: 0 <= i < |ranges| ==> ranges[i] == Range(cuts[i], cuts[i + 1])
  }

  ghost predicate FirstSafe(m: Model, sp: SpeedPaths, text: Bytes, from: nat, cut: nat) {
    from <= cut && SafeCut(m, sp, text, cut) && NoSafeCut(m, sp, text, from, cut)
  }

  /** Every cut inside the text is the first safe one `step` bytes or more behind the cut before, and behind the last of
      them none was left: this determines the cuts. */
  ghost predicate Spaced(m: Model, sp: SpeedPaths, text: Bytes, cuts: seq<nat>, step: nat) {
    && |cuts| >= 2 && (forall i :: 0 < i < |cuts| - 1 ==> FirstSafe(m, sp, text, cuts[i - 1] + step, cuts[i]))
    && NoSafeCut(m, sp, text, cuts[|cuts| - 2] + step, |text|)
  }

  /** `safe_fragment_ranges`: ranges whose joints are safe cuts, each the first at least `target` bytes on. */
  method SafeFragmentRanges(m: Model, sp: SpeedPaths, text: Bytes, target: nat) returns (ranges: seq<Range>, ghost cuts: seq<nat>)
    requires RawReady(m, sp, text)
    ensures RangesOf(ranges, cuts)
    ensures if text == [] then ranges == [Range(0, 0)] && cuts == [0, 0] else Fragments(m, sp, text, cuts)
    ensures text != [] ==> Spaced(m, sp, text, cuts, if target == 0 then 1 else target)
  {
    if text == [] {
      return [Range(0, 0)], [0, 0];
    }
    hide *;
    var blocks := AddedTokenCutBlocks(m, sp, text);
    var bi: nat := 0;
    var step := if target == 0 then 1 else target;
    ranges, cuts := [], [0];
    var start: nat := 0;
    CuttingNone(m, sp, text, step);
    while true
      invariant start < |text| && Cutting(m, sp, text, ranges, cuts, start, step)
      invariant bi <= |blocks| && forall k :: 0 <= k < bi ==> blocks[k].end <= start
      decreases |text| - start
    {
      var cut, next := NextCut(m, sp, text, blocks, bi, start + step);
      if cut.None? {
        CuttingEnd(m, sp, text, ranges, cuts, start, step);
        ranges, cuts := ranges + [Range(start, |text|)], cuts + [|text|];
        return;
      }
      FirstSafeIs(m, sp, text, start + step, cut.value);
      CuttingStep(m, sp, text, ranges, cuts, start, step, cut.value);
      ranges, cuts := ranges + [Range(start, cut.value)], cuts + [cut.value];
      start, bi := cut.value, next;
    }
  }

  /** Safe cuts so far, the last one at `start`. */
  ghost predicate Cutting(m: Model, sp: SpeedPaths, text: Bytes, ranges: seq<Range>, cuts: seq<nat>, start: nat, step: nat) {
    && RangesOf(ranges, cuts) && cuts[|cuts| - 1] == start && cuts[0] == 0
    && (forall i, j :: 0 <= i < j < |cuts| ==> cuts[i] < cuts[j])
    && (forall i :: 0 < i < |cuts| ==> FirstSafe(m, sp, text, cuts[i - 1] + step, cuts[i]))
  }

  lemma FirstSafeIs(m: Model, sp: SpeedPaths, text: Bytes, from: nat, cut: nat)
    ensures FirstSafe(m, sp, text, from, cut) <==> from <= cut && SafeCut(m, sp, text, cut) && NoSafeCut(m, sp, text, from, cut)
  {
  }

  lemma CuttingNone(m: Model, sp: SpeedPaths, text: Bytes, step: nat)
    ensures Cutting(m, sp, text, [], [0], 0, step)
  {
  }

  lemma CuttingStep(m: Model, sp: SpeedPaths, text: Bytes, ranges: seq<Range>, cuts: seq<nat>, start: nat, step: nat, cut: nat)
    requires Cutting(m, sp, text, ranges, cuts, start, step) && start < cut && FirstSafe(m, sp, text, start + step, cut)
    ensures Cutting(m, sp, text, ranges + [Range(start, cut)], cuts + [cut], cut, step)
  {
    hide FirstSafe;
  }

  lemma CuttingEnd(m: Model, sp: SpeedPaths, text: Bytes, ranges: seq<Range>, cuts: seq<nat>, start: nat, step: nat)
    requires Cutting(m, sp, text, ranges, cuts, start, step) && start < |text| && NoSafeCut(m, sp, text, start + step, |text|)
    ensures var cuts' := cuts + [|text|];
      RangesOf(ranges + [Range(start, |text|)], cuts') && Fragments(m, sp, text, cuts') && Spaced(m, sp, text, cuts', step)
  {
    hide SafeCut, NoSafeCut;
    forall i | 0 < i < |cuts| ensures SafeCut(m, sp, text, cuts[i]) {
      assert FirstSafe(m, sp, text, cuts[i - 1] + step, cuts[i]);
    }
  }
}
