/** Splitting a section into units and encoding each through the cache, against one global merge. */
module SpUnits {
  import opened Utf8
  import opened MergeSpec
  import opened SpModel
  import opened SpBoundaries
  import opened SpFinalize
  import opened SpEncodeSpec
  import opened SpCache

  const NO_MARK: int := -1

  /** `piece_spans_boundary`, with its one-load rejection on the previous byte. */
  predicate PieceSpansBoundary(sp: SpeedPaths, s: Bytes, p: nat, width: nat)
    requires 0 < p && p + width <= |s|
  {
    s[p - 1] in sp.crossPrev && PieceSpans(sp.cross, s[..p], s[p + width..])
  }

  /** A spanning piece is seen in the scanned text alone, whatever spaces precede it. */
  lemma SpanSeen(sp: SpeedPaths, prefix: Bytes, s: Bytes, p: nat, width: nat, x: CrossPiece)
    requires 0 < p && p + width <= |s| && (forall b :: b in prefix ==> b == SPACE)
    requires x in sp.cross && x.pre != [] && Clean(x.pre) && x.pre[|x.pre| - 1] in sp.crossPrev
    requires EndsWith(prefix + s[..p], x.pre) && StartsWith(s[p + width..], x.post)
    ensures PieceSpansBoundary(sp, s, p, width)
  {
    EndsInScanned(prefix, s[..p], x.pre);
    assert s[p - 1] == s[..p][|s[..p]| - |x.pre|..][|x.pre| - 1];
  }

  lemma NoSpanInWhole(m: Model, sp: SpeedPaths, prefix: Bytes, s: Bytes, p: nat, width: nat)
    requires Finalized(m, sp) && sp.wordSplit == SpaceRuns
    requires 0 < p && p + width <= |s| && !PieceSpansBoundary(sp, s, p, width)
    requires forall b :: b in prefix ==> b == SPACE
    ensures !PieceSpans(sp.cross, prefix + s[..p], s[p + width..])
  {
    var left := prefix + s[..p];
    if PieceSpans(sp.cross, left, s[p + width..]) {
      var x :| x in sp.cross && EndsWith(left, x.pre) && StartsWith(s[p + width..], x.post);
      SpanSeen(sp, prefix, s, p, width, x);
    }
  }

  lemma EndsBeyond(prefix: Bytes, s: Bytes, u: Bytes)
    requires EndsWith(prefix + s, u) && |u| > |s|
    ensures u[0] in prefix
  {
    var t := prefix + s;
    var k := |t| - |u|;
    assert u[0] == t[k..][0] == prefix[k];
  }

  lemma EndsInScanned(prefix: Bytes, s: Bytes, u: Bytes)
    requires (forall b :: b in prefix ==> b == SPACE) && SPACE !in u
    requires EndsWith(prefix + s, u)
    ensures EndsWith(s, u)
  {
    var t := prefix + s;
    if |u| > |s| {
      EndsBeyond(prefix, s, u);
      assert false;
    }
    assert s[|s| - |u|..] == t[|t| - |u|..];
  }

  /** A mark that ends exactly at `p` is the last one seen when the scan reaches `p`. */
  ghost predicate LastMarkSeen(s: Bytes, raw: bool, pos: nat, lastMarkEnd: int) {
    forall q: nat :: q < pos && IsMark(s, q, raw) && q + MarkWidth(s, q, raw) >= pos ==> lastMarkEnd == q + MarkWidth(s, q, raw)
  }

  lemma LastMarkAt(s: Bytes, raw: bool, pos: nat)
    requires IsMark(s, pos, raw)
    ensures LastMarkSeen(s, raw, pos + 1, pos + MarkWidth(s, pos, raw))
  {
    MarkIsBoundary(s, pos, raw);
    forall q: nat | q < pos && IsMark(s, q, raw) ensures q + MarkWidth(s, q, raw) <= pos {
      assert MarkWidth(s, q, raw) == 3 ==> IsCont(s[q..q + 3][1]) && IsCont(s[q..q + 3][2]);
    }
  }

  lemma MarkBytesAreMark(s: Bytes, p: nat, raw: bool)
    requires p + 3 <= |s|
    ensures s[p..p + 3] == MARK ==> IsMark(s, p, raw) && MarkWidth(s, p, raw) == 3
  {
    var t := s[p..p + 3];
    assert t[0] == s[p] && t[1] == s[p + 1] && t[2] == s[p + 2];
  }

  lemma SpaceIsMark(s: Bytes, p: nat, raw: bool)
    requires p < |s|
    ensures raw && s[p] == SPACE ==> IsMark(s, p, raw) && MarkWidth(s, p, raw) == 1
  {
  }

  /** A mark that extends no run follows no mark. */
  lemma NotAfterMark(s: Bytes, raw: bool, pos: nat, lastMarkEnd: int)
    requires 0 < pos <= |s| && LastMarkSeen(s, raw, pos, lastMarkEnd) && lastMarkEnd != pos
    ensures !EndsInMark(s[..pos], raw)
  {
    SpaceIsMark(s, pos - 1, raw);
    if pos >= 3 {
      MarkBytesAreMark(s, pos - 3, raw);
      assert s[..pos][pos - 3..] == s[pos - 3..pos];
    }
  }

  lemma EndsInMarkPrefixed(prefix: Bytes, s: Bytes, raw: bool)
    requires |prefix| <= 1 && (forall b :: b in prefix ==> b == SPACE) && s != []
    ensures EndsInMark(prefix + s, raw) <==> EndsInMark(s, raw)
  {
    EndsWithPrefixed(prefix, s, [SPACE]);
    if |s| >= 3 {
      EndsWithPrefixed(prefix, s, MARK);
    } else if EndsWith(prefix + s, MARK) {
      EndsBeyond(prefix, s, MARK);
    }
  }

  lemma EndsWithPrefixed(prefix: Bytes, s: Bytes, u: Bytes)
    requires |u| <= |s|
    ensures EndsWith(prefix + s, u) <==> EndsWith(s, u)
  {
    var t := prefix + s;
    assert t[|t| - |u|..] == s[|s| - |u|..];
  }

  lemma MarkMaps(s: Bytes, p: nat, raw: bool)
    requires IsMark(s, p, raw)
    ensures p + MarkWidth(s, p, raw) <= |s|
    ensures MarkSpaces(raw, s[p..p + MarkWidth(s, p, raw)]) == MARK
  {
    if raw && s[p] == SPACE {
      assert s[p..p + 1] == [SPACE] && s[p..p + 1][1..] == [];
    } else {
      assert SPACE !in MARK;
      MarkSpacesNoSpace(raw, MARK);
    }
  }

  // ---------------------------------------------------------------------------
  // The two kinds of boundary
  // ---------------------------------------------------------------------------

  lemma MarkStartsUnit(m: Model, sp: SpeedPaths, raw: bool, prefix: Bytes, s: Bytes, p: nat, lastMarkEnd: int)
    requires m.WellFormed() && Finalized(m, sp) && sp.wordSplit != NoSplit
    requires |prefix| <= 1 && forall b :: b in prefix ==> b == SPACE
    requires 0 < p && IsMark(s, p, raw) && LastMarkSeen(s, raw, p, lastMarkEnd)
    requires sp.wordSplit == EveryMark || lastMarkEnd != p
    requires !PieceSpansBoundary(sp, s, p, MarkWidth(s, p, raw))
    ensures UnitStart(m, sp.wordSplit, raw, prefix + s, |prefix| + p)
  {
    hide *;
    if sp.wordSplit == EveryMark {
      EveryMarkStartsUnit(m, raw, prefix, s, p);
    } else {
      SpaceRunStartsUnit(m, sp, raw, prefix, s, p, lastMarkEnd);
    }
  }

  lemma EveryMarkStartsUnit(m: Model, raw: bool, prefix: Bytes, s: Bytes, p: nat)
    requires IsMark(s, p, raw)
    ensures p < |s| && UnitStart(m, EveryMark, raw, prefix + s, |prefix| + p)
  {
    hide *;
    MarkInside(s, p, raw);
    assert (prefix + s)[|prefix|..] == s;
    MarkOfSuffix(prefix + s, |prefix|, |prefix| + p, raw);
    MarkIsUnitStart(m, raw, prefix + s, |prefix| + p);
  }

  lemma MarkIsUnitStart(m: Model, raw: bool, s: Bytes, p: nat)
    requires p <= |s| && IsMark(s, p, raw)
    ensures UnitStart(m, EveryMark, raw, s, p)
  {
    hide IsMark, UncrossedAt;
  }

  lemma SpaceRunStartsUnit(m: Model, sp: SpeedPaths, raw: bool, prefix: Bytes, s: Bytes, p: nat, lastMarkEnd: int)
    requires m.WellFormed() && Finalized(m, sp) && sp.wordSplit == SpaceRuns
    requires |prefix| <= 1 && forall b :: b in prefix ==> b == SPACE
    requires 0 < p && IsMark(s, p, raw) && LastMarkSeen(s, raw, p, lastMarkEnd) && lastMarkEnd != p
    requires !PieceSpansBoundary(sp, s, p, MarkWidth(s, p, raw))
    ensures UnitStart(m, SpaceRuns, raw, prefix + s, |prefix| + p)
  {
    hide *;
    MarkInside(s, p, raw);
    FinalizedCross(m, sp);
    var w := MarkWidth(s, p, raw);
    MarkMaps(s, p, raw);
    NoSpanInWhole(m, sp, prefix, s, p, w);
    NotAfterMark(s, raw, p, lastMarkEnd);
    EndsInMarkPrefixed(prefix, s[..p], raw);
    MarkCutSafe(m, sp.cross, raw, prefix + s[..p], s[p..p + w], s[p + w..]);
    CutStartsUnit(m, SpaceRuns, raw, prefix, s, p, w);
  }

  lemma MarkInside(s: Bytes, p: nat, raw: bool)
    requires IsMark(s, p, raw)
    ensures p < |s|
  {
  }

  lemma FinalizedCross(m: Model, sp: SpeedPaths)
    requires Finalized(m, sp) && sp.wordSplit == SpaceRuns
    ensures CrossListed(m.vocab, sp.cross) && forall x :: x in sp.cross ==> Clean(x.pre)
  {
  }

  lemma CutStartsUnit(m: Model, split: WordSplit, raw: bool, prefix: Bytes, s: Bytes, p: nat, w: nat)
    requires p + w <= |s|
    requires Uncrossed(m.Rules(), m.Spelling(), MarkSpaces(raw, prefix + s[..p]), MarkSpaces(raw, s[p..p + w] + s[p + w..]))
    ensures UnitStart(m, split, raw, prefix + s, |prefix| + p)
  {
    hide MarkSpaces, Uncrossed, IsMark;
    var whole := prefix + s;
    assert whole[..|prefix| + p] == prefix + s[..p];
    assert whole[|prefix| + p..] == s[p..p + w] + s[p + w..];
  }

  lemma SplitByteIsPunctuation(m: Model, sp: SpeedPaths, before: byte, b: byte)
    requires Finalized(m, sp) && before in SafeBefore(sp, b)
    ensures b in PUNCTUATION && !IsCont(b) && !Adjacent(m.vocab, before, b)
  {
    hide SafeBefore;
  }

  lemma PunctStartsUnit(m: Model, sp: SpeedPaths, raw: bool, prefix: Bytes, s: Bytes, p: nat)
    requires m.WellFormed() && Finalized(m, sp)
    requires 0 < p < |s| && LastByte(raw, s[..p]) in SafeBefore(sp, s[p])
    ensures UnitStart(m, sp.wordSplit, raw, prefix + s, |prefix| + p) && Boundary(s, p)
  {
    SplitByteIsPunctuation(m, sp, LastByte(raw, s[..p]), s[p]);
    hide Finalized, SafeBefore, IsMark, Adjacent;
    var whole := prefix + s;
    assert whole[..|prefix| + p] == prefix + s[..p];
    assert whole[|prefix| + p..] == s[p..];
    assert LastByte(raw, prefix + s[..p]) == LastByte(raw, s[..p]);
    assert SPACE !in PUNCTUATION;
    PunctCutSafe(m, raw, prefix + s[..p], s[p..]);
  }

  // ---------------------------------------------------------------------------
  // The scan
  // ---------------------------------------------------------------------------

  /** Where the unit that starts at `unitStart` of the text starts once the virtual prefix is counted. */
  function WholeStart(unitStart: nat, prefix: nat): nat {
    if unitStart == 0 then 0 else unitStart + prefix
  }

  /** The scan of `s` at `pos`: what has been emitted encodes the whole text up to the open unit. */
  ghost predicate Scan(m: Model, sp: SpeedPaths, raw: bool, virtualPrefix: bool, s: Bytes,
                       pos: nat, unitStart: nat, lastMarkEnd: int, out: seq<Token>) {
    var whole := WithPrefix(virtualPrefix, s);
    var prefix := |whole| - |s|;
    var ws := WholeStart(unitStart, prefix);
    && unitStart <= pos <= |s| && (unitStart < pos || pos == 0)
    && UnitStart(m, sp.wordSplit, raw, whole, ws) && Boundary(whole, ws)
    && (sp.wordSplit == EveryMark ==> forall k :: ws < k < pos + prefix ==> !IsMark(whole, k, raw))
    && LastMarkSeen(s, raw, pos, lastMarkEnd)
    && out == EncodeText(m, sp.wordSplit, raw, whole[..ws])
  }

  /** Under EveryMark a prefix is only put where no mark follows. */
  predicate PrefixGuarded(split: WordSplit, virtualPrefix: bool, s: Bytes, raw: bool) {
    split == EveryMark && virtualPrefix ==> !IsMark(s, 0, raw)
  }

  lemma ScanStart(m: Model, sp: SpeedPaths, raw: bool, virtualPrefix: bool, s: Bytes)
    requires Valid(s) && PrefixGuarded(sp.wordSplit, virtualPrefix, s, raw)
    ensures Scan(m, sp, raw, virtualPrefix, s, 0, 0, NO_MARK, [])
  {
    var whole := WithPrefix(virtualPrefix, s);
    assert whole[..0] == [];
    if s != [] {
      ValidStart(s);
    }
  }

  lemma WholeMark(virtualPrefix: bool, s: Bytes, pos: nat, raw: bool)
    requires pos < |s|
    ensures var whole := WithPrefix(virtualPrefix, s); IsMark(whole, pos + |whole| - |s|, raw) <==> IsMark(s, pos, raw)
  {
    var whole := WithPrefix(virtualPrefix, s);
    assert whole[|whole| - |s|..] == s;
    MarkOfSuffix(whole, |whole| - |s|, pos + |whole| - |s|, raw);
  }

  /** A position that opens no unit. */
  lemma ScanSkip(m: Model, sp: SpeedPaths, raw: bool, virtualPrefix: bool, s: Bytes,
                 pos: nat, unitStart: nat, lastMarkEnd: int, lastMarkEnd': int, out: seq<Token>)
    requires Scan(m, sp, raw, virtualPrefix, s, pos, unitStart, lastMarkEnd, out) && pos < |s|
    requires PrefixGuarded(sp.wordSplit, virtualPrefix, s, raw)
    requires sp.wordSplit == EveryMark && IsMark(s, pos, raw) ==> pos == unitStart
    requires LastMarkSeen(s, raw, pos + 1, lastMarkEnd')
    ensures Scan(m, sp, raw, virtualPrefix, s, pos + 1, unitStart, lastMarkEnd', out)
  {
    hide LastMarkSeen, UnitStart, EncodeText, Boundary, IsMark;
    WholeMark(virtualPrefix, s, pos, raw);
  }

  lemma UnitSlice(virtualPrefix: bool, s: Bytes, unitStart: nat, end: nat)
    requires unitStart < end <= |s|
    ensures var whole := WithPrefix(virtualPrefix, s);
      var prefix := |whole| - |s|;
      WithPrefix(virtualPrefix && unitStart == 0, s[unitStart..end]) == whole[WholeStart(unitStart, prefix)..end + prefix]
  {
    var whole := WithPrefix(virtualPrefix, s);
    if virtualPrefix && unitStart == 0 {
      assert whole[0..end + 1] == [SPACE] + s[0..end];
    }
  }

  lemma WholeBoundary(virtualPrefix: bool, s: Bytes, p: nat)
    requires 0 < p <= |s| && Boundary(s, p)
    ensures var whole := WithPrefix(virtualPrefix, s); Boundary(whole, p + |whole| - |s|)
  {
    assert p < |s| ==> WithPrefix(virtualPrefix, s)[p + |WithPrefix(virtualPrefix, s)| - |s|] == s[p];
  }

  lemma ScanFacts(m: Model, sp: SpeedPaths, raw: bool, virtualPrefix: bool, s: Bytes,
                  pos: nat, unitStart: nat, lastMarkEnd: int, out: seq<Token>)
    requires Scan(m, sp, raw, virtualPrefix, s, pos, unitStart, lastMarkEnd, out)
    ensures var whole := WithPrefix(virtualPrefix, s);
      var prefix := |whole| - |s|;
      var ws := WholeStart(unitStart, prefix);
      && 0 <= prefix && unitStart <= pos <= |s| && (unitStart < pos ==> ws < pos + prefix)
      && UnitStart(m, sp.wordSplit, raw, whole, ws) && Boundary(whole, ws)
      && (sp.wordSplit == EveryMark ==> forall k :: ws < k < pos + prefix ==> !IsMark(whole, k, raw))
      && out == EncodeText(m, sp.wordSplit, raw, whole[..ws])
    ensures LastMarkSeen(s, raw, pos, lastMarkEnd)
  {
    hide LastMarkSeen, UnitStart, Boundary, IsMark, EncodeText;
  }

  /** Closing the open unit at `end` emits its own merge. */
  lemma ScanClose(m: Model, sp: SpeedPaths, raw: bool, virtualPrefix: bool, s: Bytes,
                  end: nat, unitStart: nat, lastMarkEnd: int, out: seq<Token>)
    requires m.WellFormed() && Valid(WithPrefix(virtualPrefix, s)) && Covered(m, raw, WithPrefix(virtualPrefix, s))
    requires Scan(m, sp, raw, virtualPrefix, s, end, unitStart, lastMarkEnd, out)
    requires unitStart < end && Boundary(s, end)
    ensures var whole := WithPrefix(virtualPrefix, s);
      out + Chunk(m, raw, WithPrefix(virtualPrefix && unitStart == 0, s[unitStart..end]))
        == EncodeText(m, sp.wordSplit, raw, whole[..end + |whole| - |s|])
  {
    var whole := WithPrefix(virtualPrefix, s);
    hide *;
    ScanFacts(m, sp, raw, virtualPrefix, s, end, unitStart, lastMarkEnd, out);
    UnitSlice(virtualPrefix, s, unitStart, end);
    WholeBoundary(virtualPrefix, s, end);
    UnitCloses(m, sp.wordSplit, raw, whole, WholeStart(unitStart, |whole| - |s|), end + |whole| - |s|);
  }

  lemma ScanOpen(m: Model, sp: SpeedPaths, raw: bool, virtualPrefix: bool, s: Bytes, pos: nat, lastMarkEnd: int, out: seq<Token>)
    requires 0 < pos < |s| && Boundary(s, pos) && LastMarkSeen(s, raw, pos + 1, lastMarkEnd)
    requires var whole := WithPrefix(virtualPrefix, s);
      && UnitStart(m, sp.wordSplit, raw, whole, pos + |whole| - |s|)
      && out == EncodeText(m, sp.wordSplit, raw, whole[..pos + |whole| - |s|])
    ensures Scan(m, sp, raw, virtualPrefix, s, pos + 1, pos, lastMarkEnd, out)
  {
    WholeBoundary(virtualPrefix, s, pos);
    hide LastMarkSeen, UnitStart, Boundary, IsMark, EncodeText;
  }

  /** Candidate bytes: mark leads, raw spaces, split punctuation. */
  predicate Candidate(sp: SpeedPaths, raw: bool, b: byte) {
    b == 0xE2 || (raw && b == SPACE) || b in sp.splitBytes
  }

  /** Whether the scan closes a unit at `pos`. */
  predicate ClosesAt(sp: SpeedPaths, raw: bool, s: Bytes, pos: nat, unitStart: nat, lastMarkEnd: int)
    requires pos < |s|
  {
    if s[pos] == 0xE2 || (raw && s[pos] == SPACE) then
      && IsMark(s, pos, raw)
      && (sp.wordSplit == EveryMark || pos != lastMarkEnd)
      && pos != unitStart && 0 < pos
      && !PieceSpansBoundary(sp, s, pos, MarkWidth(s, pos, raw))
    else
      s[pos] in sp.splitBytes && pos != unitStart && 0 < pos && LastByte(raw, s[..pos]) in SafeBefore(sp, s[pos])
  }

  function NextLastMark(raw: bool, s: Bytes, pos: nat, lastMarkEnd: int): int
    requires pos < |s|
  {
    if IsMark(s, pos, raw) then pos + MarkWidth(s, pos, raw) else lastMarkEnd
  }

  lemma NextLastMarkSeen(raw: bool, s: Bytes, pos: nat, lastMarkEnd: int)
    requires pos < |s| && LastMarkSeen(s, raw, pos, lastMarkEnd)
    ensures LastMarkSeen(s, raw, pos + 1, NextLastMark(raw, s, pos, lastMarkEnd))
  {
    if IsMark(s, pos, raw) {
      LastMarkAt(s, raw, pos);
    }
  }

  /** Where the scan closes a unit, a unit may start. */
  lemma ClosesAtUnitStart(m: Model, sp: SpeedPaths, raw: bool, virtualPrefix: bool, s: Bytes, pos: nat, unitStart: nat, lastMarkEnd: int)
    requires m.WellFormed() && Finalized(m, sp) && sp.wordSplit != NoSplit
    requires pos < |s| && LastMarkSeen(s, raw, pos, lastMarkEnd) && ClosesAt(sp, raw, s, pos, unitStart, lastMarkEnd)
    ensures var whole := WithPrefix(virtualPrefix, s); UnitStart(m, sp.wordSplit, raw, whole, pos + |whole| - |s|)
    ensures 0 < pos && Boundary(s, pos)
  {
    hide *;
    hide Model.WellFormed;
    PrefixIsSpaces(virtualPrefix, s);
    var prefix := if virtualPrefix then [SPACE] else [];
    ClosesAtCases(sp, raw, s, pos, unitStart, lastMarkEnd);
    if s[pos] == 0xE2 || (raw && s[pos] == SPACE) {
      MarkIsBoundary(s, pos, raw);
      MarkStartsUnit(m, sp, raw, prefix, s, pos, lastMarkEnd);
    } else {
      PunctStartsUnit(m, sp, raw, prefix, s, pos);
    }
  }

  lemma PrefixIsSpaces(virtualPrefix: bool, s: Bytes)
    ensures var prefix := if virtualPrefix then [SPACE] else []; WithPrefix(virtualPrefix, s) == prefix + s
  {
  }

  lemma ClosesAtCases(sp: SpeedPaths, raw: bool, s: Bytes, pos: nat, unitStart: nat, lastMarkEnd: int)
    requires pos < |s| && ClosesAt(sp, raw, s, pos, unitStart, lastMarkEnd)
    ensures 0 < pos
    ensures s[pos] == 0xE2 || (raw && s[pos] == SPACE) ==>
              IsMark(s, pos, raw) && (sp.wordSplit == EveryMark || pos != lastMarkEnd)
              && !PieceSpansBoundary(sp, s, pos, MarkWidth(s, pos, raw))
    ensures !(s[pos] == 0xE2 || (raw && s[pos] == SPACE)) ==>
              LastByte(raw, s[..pos]) in SafeBefore(sp, s[pos])
  {
  }

  /** Under EveryMark every mark past the unit's start closes a unit. */
  lemma EveryMarkCloses(m: Model, sp: SpeedPaths, raw: bool, s: Bytes, pos: nat, unitStart: nat, lastMarkEnd: int)
    requires Finalized(m, sp) && sp.wordSplit == EveryMark
    requires IsMark(s, pos, raw) && unitStart <= pos && !ClosesAt(sp, raw, s, pos, unitStart, lastMarkEnd)
    ensures pos == unitStart
  {
  }

  // ---------------------------------------------------------------------------
  // Units
  // ---------------------------------------------------------------------------

  /** The end of the last mark that starts before `pos`. */
  function LastMarkEnd(raw: bool, s: Bytes, pos: nat): int
    requires pos <= |s|
  {
    if pos == 0 then NO_MARK else NextLastMark(raw, s, pos - 1, LastMarkEnd(raw, s, pos - 1))
  }

  /** Whether the scan of `s` closes a unit at `pos`. */
  predicate CutAt(sp: SpeedPaths, raw: bool, s: Bytes, pos: nat)
    requires pos < |s|
  {
    0 < pos && Candidate(sp, raw, s[pos]) && ClosesAt(sp, raw, s, pos, 0, LastMarkEnd(raw, s, pos))
  }

  lemma {:induction false} LastMarkEndsSomewhere(raw: bool, s: Bytes, pos: nat) returns (q: nat)
    requires pos <= |s| && LastMarkEnd(raw, s, pos) != NO_MARK
    ensures q < pos && IsMark(s, q, raw) && LastMarkEnd(raw, s, pos) == q + MarkWidth(s, q, raw)
  {
    hide IsMark, MarkWidth;
    if IsMark(s, pos - 1, raw) {
      q := pos - 1;
    } else {
      q := LastMarkEndsSomewhere(raw, s, pos - 1);
    }
  }

  lemma {:induction false} LastMarkIsSeen(raw: bool, s: Bytes, pos: nat)
    requires pos <= |s|
    ensures LastMarkSeen(s, raw, pos, LastMarkEnd(raw, s, pos))
  {
    hide IsMark, MarkWidth, NextLastMark;
    if pos > 0 {
      LastMarkIsSeen(raw, s, pos - 1);
      NextLastMarkSeen(raw, s, pos - 1, LastMarkEnd(raw, s, pos - 1));
    }
  }

  /** The last mark ends at `pos` exactly where the text before does. */
  lemma LastMarkEndsHere(raw: bool, s: Bytes, pos: nat)
    requires 0 < pos <= |s|
    ensures LastMarkEnd(raw, s, pos) == pos <==> EndsInMark(s[..pos], raw)
  {
    hide LastMarkSeen, LastMarkEnd;
    LastMarkIsSeen(raw, s, pos);
    if LastMarkEnd(raw, s, pos) != pos {
      NotAfterMark(s, raw, pos, LastMarkEnd(raw, s, pos));
    } else {
      var q := LastMarkEndsSomewhere(raw, s, pos);
      assert s[..pos][q..] == s[q..pos];
    }
  }

  /** Units are cut at marks that extend no run, or at every mark, wherever no crossing piece spans the mark; and before
      punctuation behind a byte that no piece holds before it. */
  lemma CutsWrittenOut(m: Model, sp: SpeedPaths, raw: bool, s: Bytes, pos: nat)
    requires Finalized(m, sp) && sp.wordSplit != NoSplit && pos < |s|
    ensures CutAt(sp, raw, s, pos) <==>
      && 0 < pos
      && (if IsMark(s, pos, raw) then
            sp.wordSplit == EveryMark || (!EndsInMark(s[..pos], raw) && !PieceSpans(sp.cross, s[..pos], s[pos + MarkWidth(s, pos, raw)..]))
          else
            s[pos] in sp.splitBytes && LastByte(raw, s[..pos]) in SafeBefore(sp, s[pos]))
  {
    hide PieceSpans, EndsInMark, LastByte, LastMarkEnd, PieceSpansBoundary;
    if 0 < pos {
      LastMarkEndsHere(raw, s, pos);
      if IsMark(s, pos, raw) {
        MarkMaps(s, pos, raw);
        SpansIffSeen(m, sp, s, pos, MarkWidth(s, pos, raw));
      }
    }
  }

  /** The test on the byte before rejects nothing that spans; where every mark splits there is nothing to span. */
  lemma SpansIffSeen(m: Model, sp: SpeedPaths, s: Bytes, p: nat, width: nat)
    requires Finalized(m, sp) && sp.wordSplit != NoSplit && 0 < p && p + width <= |s|
    ensures PieceSpansBoundary(sp, s, p, width) <==> sp.wordSplit != EveryMark && PieceSpans(sp.cross, s[..p], s[p + width..])
  {
    if sp.wordSplit == EveryMark {
      assert sp.cross == [];
    } else if !PieceSpansBoundary(sp, s, p, width) {
      hide Finalized, PieceSpansBoundary, PieceSpans;
      NoSpanInWhole(m, sp, [], s, p, width);
      assert [] + s[..p] == s[..p];
    }
  }

  ghost predicate Uncut(sp: SpeedPaths, raw: bool, s: Bytes, i: nat, j: nat)
    requires j <= |s|
  {
    forall p: nat :: i < p < j ==> !CutAt(sp, raw, s, p)
  }

  /** No unit of `s`, nor any part of one, encodes to more than `unit` tokens, at three tokens a byte. */
  ghost predicate UnitsBelow(sp: SpeedPaths, raw: bool, s: Bytes, unit: nat) {
    forall i: nat, j: nat :: i <= j <= |s| && Uncut(sp, raw, s, i, j) ==> 3 * (j - i + 1) <= unit
  }

  lemma UnitBelow(sp: SpeedPaths, raw: bool, s: Bytes, unit: nat, virtualPrefix: bool, i: nat, j: nat)
    requires UnitsBelow(sp, raw, s, unit) && i < j <= |s| && Uncut(sp, raw, s, i, j)
    ensures 3 * |WithPrefix(virtualPrefix, s[i..j])| <= unit
  {
  }

  /** The scan closes a unit just where `CutAt` says. */
  lemma ClosesIsCut(sp: SpeedPaths, raw: bool, s: Bytes, pos: nat, unitStart: nat)
    requires unitStart <= pos < |s| && (unitStart < pos || pos == 0)
    ensures CutAt(sp, raw, s, pos) <==> Candidate(sp, raw, s[pos]) && ClosesAt(sp, raw, s, pos, unitStart, LastMarkEnd(raw, s, pos))
  {
  }

  lemma UncutMore(sp: SpeedPaths, raw: bool, s: Bytes, i: nat, pos: nat)
    requires pos < |s| && Uncut(sp, raw, s, i, pos) && !CutAt(sp, raw, s, pos)
    ensures Uncut(sp, raw, s, i, pos + 1)
  {
  }

  lemma UncutNone(sp: SpeedPaths, raw: bool, s: Bytes, pos: nat)
    requires pos < |s|
    ensures Uncut(sp, raw, s, pos, pos) && Uncut(sp, raw, s, pos, pos + 1) && Uncut(sp, raw, s, 0, 0)
  {
  }

  lemma SliceMark(s: Bytes, raw: bool, i: nat, e: nat, p: nat)
    requires i <= i + p < e <= |s| && Boundary(s, e)
    ensures IsMark(s[i..e], p, raw) <==> IsMark(s, i + p, raw)
    ensures IsMark(s, i + p, raw) ==> MarkWidth(s[i..e], p, raw) == MarkWidth(s, i + p, raw)
  {
    MarkOfPrefix(s, e, i + p, raw);
    assert s[..e][i..] == s[i..e];
    MarkOfSuffix(s[..e], i, i + p, raw);
    assert s[i..e][p] == s[i + p];
  }

  lemma {:induction false} SliceLastMark(s: Bytes, raw: bool, i: nat, e: nat, p: nat)
    requires i <= i + p <= e <= |s| && Boundary(s, e)
    ensures var last := LastMarkEnd(raw, s[i..e], p); last == NO_MARK || LastMarkEnd(raw, s, i + p) == i + last
  {
    hide IsMark, MarkWidth, Boundary;
    if p > 0 {
      SliceLastMark(s, raw, i, e, p - 1);
      SliceMark(s, raw, i, e, p - 1);
    }
  }

  lemma SlicePieceSpans(sp: SpeedPaths, s: Bytes, i: nat, e: nat, p: nat, w: nat)
    requires 0 < p && i + p + w <= e <= |s|
    ensures PieceSpansBoundary(sp, s[i..e], p, w) ==> PieceSpansBoundary(sp, s, i + p, w)
  {
    var t := s[i..e];
    if PieceSpansBoundary(sp, t, p, w) {
      var x :| x in sp.cross && EndsWith(t[..p], x.pre) && StartsWith(t[p + w..], x.post);
      assert s[..i + p] == s[..i] + t[..p];
      EndsWithPrefixed(s[..i], t[..p], x.pre);
      assert t[p + w..][..|x.post|] == s[i + p + w..][..|x.post|];
    }
  }

  /** Where the scan of a text closes a unit, so does the scan of a slice that holds it. */
  lemma SliceCut(sp: SpeedPaths, raw: bool, s: Bytes, i: nat, e: nat, p: nat)
    requires 0 < p && i + p < e <= |s| && Boundary(s, e) && CutAt(sp, raw, s, i + p)
    ensures CutAt(sp, raw, s[i..e], p)
  {
    hide IsMark, MarkWidth, Boundary, PieceSpansBoundary, NextLastMark, LastMarkEnd;
    var t := s[i..e];
    assert t[p] == s[i + p] && t[p - 1] == s[i + p - 1];
    SliceMark(s, raw, i, e, p);
    SliceLastMark(s, raw, i, e, p);
    if IsMark(t, p, raw) {
      MarkFits(t, p, raw);
      SlicePieceSpans(sp, s, i, e, p, MarkWidth(t, p, raw));
    }
  }

  lemma MarkFits(s: Bytes, p: nat, raw: bool)
    requires IsMark(s, p, raw)
    ensures p + MarkWidth(s, p, raw) <= |s|
  {
  }

  /** Slices have no longer units. */
  lemma SliceUnitsBelow(sp: SpeedPaths, raw: bool, s: Bytes, unit: nat, i: nat, e: nat)
    requires UnitsBelow(sp, raw, s, unit) && i <= e <= |s| && Boundary(s, e)
    ensures UnitsBelow(sp, raw, s[i..e], unit)
  {
    hide CutAt, Boundary;
    var t := s[i..e];
    forall a: nat, b: nat | a <= b <= |t| && Uncut(sp, raw, t, a, b)
      ensures 3 * (b - a + 1) <= unit
    {
      forall q: nat | i + a < q < i + b ensures !CutAt(sp, raw, s, q) {
        if CutAt(sp, raw, s, q) {
          SliceCut(sp, raw, s, i, e, q - i);
        }
      }
      assert Uncut(sp, raw, s, i + a, i + b);
    }
  }

  // ---------------------------------------------------------------------------
  // Encoding the units
  // ---------------------------------------------------------------------------

  /** Room in the arena for the tokens of the bytes still to come, and for `extra` more. */
  ghost predicate RoomFor(state: EncodeState, whole: Bytes, ws: nat, unit: nat, extra: nat)
    reads state
  {
    ws <= |whole| && state.OffsetsFit(unit, 3 * (|whole| - ws) + extra)
  }

  /** The open unit ends at `end`: encode it through the cache. */
  method CloseUnit(m: Model, state: EncodeState, s: Bytes, virtualPrefix: bool, raw: bool, unitStart: nat, end: nat,
                   ghost unit: nat, ghost extra: nat)
    returns (tokens: seq<Token>)
    requires state.Valid() && state.m == m && state.raw == raw && m.WellFormed()
    requires unitStart < end <= |s| && 3 * |WithPrefix(virtualPrefix && unitStart == 0, s[unitStart..end])| <= unit
    requires var whole := WithPrefix(virtualPrefix, s); RoomFor(state, whole, WholeStart(unitStart, |whole| - |s|), unit, extra)
    modifies state, state.frontKeys, state.frontVals
    ensures state.Valid()
    ensures tokens == Chunk(m, raw, WithPrefix(virtualPrefix && unitStart == 0, s[unitStart..end]))
    ensures var whole := WithPrefix(virtualPrefix, s); RoomFor(state, whole, end + |whole| - |s|, unit, extra)
  {
    hide EncodeState.Valid, Chunk, Model.WellFormed, WithPrefix, FitOffsets;
    var firstUnit := unitStart == 0;
    ghost var whole := WithPrefix(virtualPrefix, s);
    var key := WithPrefix(virtualPrefix && firstUnit, s[unitStart..end]);
    UnitSlice(virtualPrefix, s, unitStart, end);
    WholeLength(virtualPrefix, s);
    FreshLength(m, raw, key);
    ghost var room := 3 * (|whole| - (end + |whole| - |s|)) + extra;
    ghost var maxEncoding, arenaLen := state.maxEncoding, |state.arena|;
    FewerFit(state, |Chunk(m, raw, key)|, unit, 3 * |key| + room);
    tokens := state.EncodeUnit(m, raw, s[unitStart..end], virtualPrefix && firstUnit);
    OffsetsStillFit(state.budget, maxEncoding, arenaLen, state.maxEncoding, |state.arena|, |tokens|, unit, 3 * |key|, room);
  }

  lemma WholeLength(virtualPrefix: bool, s: Bytes)
    ensures |s| <= |WithPrefix(virtualPrefix, s)| <= |s| + 1
  {
  }

  lemma FewerFit(state: EncodeState, n: nat, unit: nat, all: nat)
    requires state.OffsetsFit(unit, all) && n <= unit && n <= all
    ensures state.OffsetsFit(n, n)
  {
  }

  /** `encode_units`: the tokens of the units are those of the section's own encoding. */
  method EncodeUnits(m: Model, sp: SpeedPaths, state: EncodeState, s: Bytes, virtualPrefix: bool, raw: bool,
                     ghost unit: nat, ghost extra: nat)
    returns (out: seq<Token>)
    requires m.WellFormed() && Finalized(m, sp) && sp.wordSplit != NoSplit
    requires state.Valid() && state.m == m && state.raw == raw
    requires Valid(s) && Covered(m, raw, WithPrefix(virtualPrefix, s))
    requires virtualPrefix ==> raw
    requires PrefixGuarded(sp.wordSplit, virtualPrefix, s, raw)
    requires UnitsBelow(sp, raw, s, unit) && RoomFor(state, WithPrefix(virtualPrefix, s), 0, unit, extra)
    modifies state, state.frontKeys, state.frontVals
    ensures state.Valid()
    ensures out == if s == [] then [] else EncodeText(m, sp.wordSplit, raw, WithPrefix(virtualPrefix, s))
    ensures s != [] ==> RoomFor(state, WithPrefix(virtualPrefix, s), |WithPrefix(virtualPrefix, s)|, unit, extra)
  {
    hide *;
    WholeValid(virtualPrefix, s);
    ScanStart(m, sp, raw, virtualPrefix, s);
    ghost var whole := WithPrefix(virtualPrefix, s);
    ghost var prefix := |whole| - |s|;
    var unitStart, lastMarkEnd, pos := 0, NO_MARK, 0;
    out := [];
    WholeStartIs(unitStart, prefix);
    LastMarkEndIs(raw, s, 0);
    if s != [] {
      UncutNone(sp, raw, s, 0);
    }
    while pos < |s|
      invariant 0 <= unitStart <= pos <= |s| && (if pos > 0 then unitStart < pos else out == [])
      invariant Scan(m, sp, raw, virtualPrefix, s, pos, unitStart, lastMarkEnd, out)
      invariant state.Valid() && RoomFor(state, whole, WholeStart(unitStart, prefix), unit, extra)
      invariant lastMarkEnd == LastMarkEnd(raw, s, pos) && (s != [] ==> Uncut(sp, raw, s, unitStart, pos))
    {
      ClosesIsCut(sp, raw, s, pos, unitStart);
      LastMarkEndIs(raw, s, pos + 1);
      ScanFacts(m, sp, raw, virtualPrefix, s, pos, unitStart, lastMarkEnd, out);
      NextLastMarkSeen(raw, s, pos, lastMarkEnd);
      if Candidate(sp, raw, s[pos]) && ClosesAt(sp, raw, s, pos, unitStart, lastMarkEnd) {
        ClosesAtUnitStart(m, sp, raw, virtualPrefix, s, pos, unitStart, lastMarkEnd);
        ScanClose(m, sp, raw, virtualPrefix, s, pos, unitStart, lastMarkEnd, out);
        UnitBelow(sp, raw, s, unit, virtualPrefix && unitStart == 0, unitStart, pos);
        var tokens := CloseUnit(m, state, s, virtualPrefix, raw, unitStart, pos, unit, extra);
        UncutNone(sp, raw, s, pos);
        out := out + tokens;
        unitStart := pos;
        WholeStartIs(unitStart, prefix);
        lastMarkEnd := NextLastMark(raw, s, pos, lastMarkEnd);
        ScanOpen(m, sp, raw, virtualPrefix, s, pos, lastMarkEnd, out);
      } else {
        SkipAllowed(m, sp, raw, s, pos, unitStart, lastMarkEnd);
        UncutMore(sp, raw, s, unitStart, pos);
        ScanSkip(m, sp, raw, virtualPrefix, s, pos, unitStart, lastMarkEnd, NextLastMark(raw, s, pos, lastMarkEnd), out);
        if Candidate(sp, raw, s[pos]) {
          lastMarkEnd := NextLastMark(raw, s, pos, lastMarkEnd);
        }
      }
      pos := pos + 1;
    }
    if unitStart < |s| {
      EndIsBoundary(s);
      ScanClose(m, sp, raw, virtualPrefix, s, |s|, unitStart, lastMarkEnd, out);
      UnitBelow(sp, raw, s, unit, virtualPrefix && unitStart == 0, unitStart, |s|);
      var tokens := CloseUnit(m, state, s, virtualPrefix, raw, unitStart, |s|, unit, extra);
      out := out + tokens;
      assert whole[..|s| + |whole| - |s|] == whole;
    }
  }

  lemma WholeStartIs(unitStart: nat, prefix: nat)
    ensures WholeStart(unitStart, prefix) == if unitStart == 0 then 0 else unitStart + prefix
  {
  }

  lemma LastMarkEndIs(raw: bool, s: Bytes, pos: nat)
    requires pos <= |s|
    ensures LastMarkEnd(raw, s, pos) == if pos == 0 then NO_MARK else NextLastMark(raw, s, pos - 1, LastMarkEnd(raw, s, pos - 1))
  {
  }

  lemma EndIsBoundary(s: Bytes)
    ensures Boundary(s, |s|)
  {
  }

  lemma WholeValid(virtualPrefix: bool, s: Bytes)
    requires Valid(s)
    ensures Valid(WithPrefix(virtualPrefix, s)) && |s| <= |WithPrefix(virtualPrefix, s)| <= |s| + 1
  {
    if virtualPrefix {
      assert CharLen([SPACE]) == 1;
      ValidCons([SPACE], s);
    }
  }

  /** A position the scan passes over changes nothing it must know. */
  lemma SkipAllowed(m: Model, sp: SpeedPaths, raw: bool, s: Bytes, pos: nat, unitStart: nat, lastMarkEnd: int)
    requires Finalized(m, sp) && unitStart <= pos < |s|
    requires !(Candidate(sp, raw, s[pos]) && ClosesAt(sp, raw, s, pos, unitStart, lastMarkEnd))
    ensures sp.wordSplit == EveryMark && IsMark(s, pos, raw) ==> pos == unitStart
    ensures !Candidate(sp, raw, s[pos]) ==> NextLastMark(raw, s, pos, lastMarkEnd) == lastMarkEnd
  {
    hide Finalized, PieceSpansBoundary;
    if IsMark(s, pos, raw) { MarkIsCandidate(sp, raw, s, pos); }
    if sp.wordSplit == EveryMark && IsMark(s, pos, raw) {
      EveryMarkCloses(m, sp, raw, s, pos, unitStart, lastMarkEnd);
    }
  }

  lemma MarkIsCandidate(sp: SpeedPaths, raw: bool, s: Bytes, pos: nat)
    requires pos < |s| && IsMark(s, pos, raw)
    ensures Candidate(sp, raw, s[pos])
  {
  }
}
