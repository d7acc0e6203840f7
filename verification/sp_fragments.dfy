/** Encoding raw text around added tokens, and cutting it into fragments that encode independently. */
module SpFragments {
  import opened Common
  import opened Utf8
  import opened MergeSpec
  import opened SpModel
  import opened SpBoundaries
  import opened SpFinalize
  import opened SpEncodeSpec
  import opened AddedTokens
  import opened SpCache
  import opened SpUnits

  /** Where a section stands in its document. */
  datatype SectionPos = First | Middle | Continuation

  /** Whether the section's first unit gets the dummy-prefix ▁. */
  predicate VirtualPrefix(prepend: RawPrepend, pos: SectionPos, chunk: Bytes) {
    pos != Continuation &&
    match prepend
    case Unguarded => true
    case GuardedAlways => !IsMark(chunk, 0, true)
    case GuardedFirst => pos == First && !IsMark(chunk, 0, true)
    case Never => false
  }

  function SectionText(sp: SpeedPaths, chunk: Bytes, pos: SectionPos): Bytes
    requires sp.rawPrepend.Some?
  {
    WithPrefix(VirtualPrefix(sp.rawPrepend.value, pos, chunk), chunk)
  }

  /** `encode_chunk_raw`. */
  function EncodeSection(m: Model, sp: SpeedPaths, chunk: Bytes, pos: SectionPos): seq<Token>
    requires sp.rawPrepend.Some?
  {
    if chunk == [] then [] else EncodeText(m, sp.wordSplit, true, SectionText(sp, chunk, pos))
  }

  ghost predicate MatchesFit(m: Model, text: Bytes, xs: seq<Match>) {
    forall x :: x in xs ==> x.start <= x.end <= |text| && x.token < |m.addedTokens|
  }

  /** Where the text before a match stops being encoded. */
  function ChunkEnd(m: Model, text: Bytes, x: Match, chunkStart: nat): (e: nat)
    requires chunkStart <= x.start <= |text| && x.token < |m.addedTokens|
    ensures chunkStart <= e <= x.start
  {
    if m.addedTokens[x.token].lstrip then chunkStart + TrimmedLen(text[chunkStart..x.start]) else x.start
  }

  /** Where the text after a match starts being encoded. */
  function ChunkRestart(m: Model, text: Bytes, x: Match): (s: nat)
    requires x.end <= |text| && x.token < |m.addedTokens|
    ensures x.end <= s <= |text|
  {
    if m.addedTokens[x.token].rstrip then x.end + LeadingWs(text[x.end..]) else x.end
  }

  /** The sections between matches, and the matched tokens; a match inside stripped whitespace is dropped. */
  function EncodeAround(m: Model, sp: SpeedPaths, text: Bytes, xs: seq<Match>, chunkStart: nat, pos: SectionPos): seq<Token>
    requires sp.rawPrepend.Some? && MatchesFit(m, text, xs) && chunkStart <= |text|
    decreases |xs|
  {
    if xs == [] then EncodeSection(m, sp, text[chunkStart..], pos)
    else
      var x := xs[0];
      assert x in xs && forall y :: y in xs[1..] ==> y in xs;
      if x.start < chunkStart then EncodeAround(m, sp, text, xs[1..], chunkStart, pos)
      else
        EncodeSection(m, sp, text[chunkStart..ChunkEnd(m, text, x, chunkStart)], pos)
        + [m.addedTokens[x.token].id]
        + EncodeAround(m, sp, text, xs[1..], ChunkRestart(m, text, x), Middle)
  }

  lemma {:induction false} MatchesAreFit(m: Model, text: Bytes, at: nat)
    requires at <= |text|
    ensures MatchesFit(m, text, Matches(m.addedTokens, text, at))
    decreases |text| - at
  {
    hide NextMatch;
    match NextMatch(m.addedTokens, text, at)
    case None =>
    case Some(x) => MatchesAreFit(m, text, x.end);
  }

  /** The encoding of raw text whose leading section stands at `pos`. */
  function EncodeRaw(m: Model, sp: SpeedPaths, text: Bytes, pos: SectionPos): seq<Token>
    requires sp.rawPrepend.Some?
  {
    MatchesAreFit(m, text, 0);
    EncodeAround(m, sp, text, Matches(m.addedTokens, text, 0), 0, pos)
  }

  // ---------------------------------------------------------------------------
  // Safe cuts
  // ---------------------------------------------------------------------------

  /** First position a cut may not take, for an occurrence of token `i` at `s`. */
  function BlockLo(m: Model, text: Bytes, i: nat, s: nat): nat
    requires i < |m.addedTokens| && s <= |text|
  {
    if m.addedTokens[i].lstrip then TrimmedLen(text[..s]) else s + 1
  }

  /** Last position a cut may not take; below `BlockLo` when it may take any. */
  function BlockHi(m: Model, sp: SpeedPaths, text: Bytes, i: nat, s: nat): int
    requires i < |m.addedTokens| && s + |m.addedTokens[i].content| <= |text|
  {
    var e := s + |m.addedTokens[i].content|;
    if m.addedTokens[i].rstrip then e + LeadingWs(text[e..])
    else if sp.rawPrepend == Some(Unguarded) then e
    else e - 1
  }

  ghost predicate Blocks(m: Model, sp: SpeedPaths, text: Bytes, i: nat, s: nat, p: nat) {
    TokenAt(m.addedTokens, text, i, s) && BlockLo(m, text, i, s) <= p <= BlockHi(m, sp, text, i, s)
  }

  /** The cut sits on a mark that starts a unit, on its own merits. */
  ghost predicate MarkCut(sp: SpeedPaths, text: Bytes, p: nat) {
    && 0 < p && IsMark(text, p, true)
    && (sp.wordSplit != EveryMark ==>
          && !EndsInMark(text[..p], true)
          && !PieceSpans(sp.cross, text[..p], text[p + MarkWidth(text, p, true)..]))
  }

  ghost predicate SafeCut(m: Model, sp: SpeedPaths, text: Bytes, p: nat) {
    && MarkCut(sp, text, p)
    && forall i: nat, s: nat :: !Blocks(m, sp, text, i, s, p)
  }

  /** The model, the configuration and the text are such that the raw fast path applies. */
  ghost predicate RawReady(m: Model, sp: SpeedPaths, text: Bytes) {
    && m.WellFormed() && Finalized(m, sp) && sp.rawPrepend.Some? && sp.wordSplit != NoSplit
    && TokensOk(m.addedTokens)
    && Valid(text) && Covered(m, true, text) && HasTokens(m, MARK)
  }

  /** The prefix is never put under EveryMark where a mark follows. */
  lemma RawPrefixGuarded(m: Model, sp: SpeedPaths, chunk: Bytes, pos: SectionPos)
    requires Finalized(m, sp) && sp.rawPrepend.Some?
    ensures PrefixGuarded(sp.wordSplit, VirtualPrefix(sp.rawPrepend.value, pos, chunk), chunk, true)
  {
  }

  lemma SectionCovered(m: Model, sp: SpeedPaths, chunk: Bytes, pos: SectionPos)
    requires sp.rawPrepend.Some? && Valid(chunk) && Covered(m, true, chunk) && HasTokens(m, MARK)
    ensures Valid(SectionText(sp, chunk, pos)) && Covered(m, true, SectionText(sp, chunk, pos))
  {
    if VirtualPrefix(sp.rawPrepend.value, pos, chunk) {
      CoveredPlus(m, true, [SPACE], chunk);
      ValidConcat([SPACE], chunk);
    }
  }

  lemma PieceSpansWhole(cross: seq<CrossPiece>, l: Bytes, r: Bytes, l': Bytes, r': Bytes)
    requires PieceSpans(cross, l', r') && EndsWith(l, l') && StartsWith(r, r')
    ensures PieceSpans(cross, l, r)
  {
    var x :| x in cross && EndsWith(l', x.pre) && StartsWith(r', x.post);
    assert l[|l| - |x.pre|..] == l'[|l'| - |x.pre|..];
    assert r[..|x.post|] == r'[..|x.post|];
  }

  lemma EndsInMarkWhole(l: Bytes, l': Bytes)
    requires EndsInMark(l', true) && EndsWith(l, l')
    ensures EndsInMark(l, true)
  {
    assert EndsWith(l', [SPACE]) ==> l[|l| - 1..] == l'[|l'| - 1..];
    assert EndsWith(l', MARK) ==> l[|l| - 3..] == l'[|l'| - 3..];
  }

  /** A mark cut of the text is a mark cut of the part of the text between boundaries around it. */
  lemma MarkCutOfSlice(sp: SpeedPaths, text: Bytes, i: nat, p: nat, e: nat)
    requires MarkCut(sp, text, p) && i < p < e <= |text| && Boundary(text, e)
    ensures MarkCut(sp, text[i..e], p - i)
  {
    hide IsMark, MarkWidth, EndsInMark, PieceSpans, Boundary;
    MarkOfSlice(text, i, p, e);
    if sp.wordSplit != EveryMark {
      NoSpanInSlice(sp.cross, text, i, p, e, MarkWidth(text, p, true));
    }
  }

  lemma MarkOfSlice(text: Bytes, i: nat, p: nat, e: nat)
    requires IsMark(text, p, true) && i < p < e <= |text| && Boundary(text, e)
    ensures IsMark(text[i..e], p - i, true) && MarkWidth(text[i..e], p - i, true) == MarkWidth(text, p, true)
  {
    hide IsMark, Boundary;
    MarkOfPrefix(text, e, p, true);
    MarkOfSuffix(text[..e], i, p, true);
    assert text[i..e] == text[..e][i..];
    SameMarkWidth(text, text[i..e], p, i);
  }

  lemma NoSpanInSlice(cross: seq<CrossPiece>, text: Bytes, i: nat, p: nat, e: nat, w: nat)
    requires i < p && p + w <= e <= |text| && !EndsInMark(text[..p], true) && !PieceSpans(cross, text[..p], text[p + w..])
    ensures var t := text[i..e]; !EndsInMark(t[..p - i], true) && !PieceSpans(cross, t[..p - i], t[p - i + w..])
  {
    hide EndsInMark, PieceSpans;
    var t := text[i..e];
    if EndsInMark(t[..p - i], true) { EndsInMarkWhole(text[..p], t[..p - i]); }
    if PieceSpans(cross, t[..p - i], t[p - i + w..]) {
      PieceSpansWhole(cross, text[..p], text[p + w..], t[..p - i], t[p - i + w..]);
    }
  }

  lemma SameMarkWidth(text: Bytes, t: Bytes, p: nat, i: nat)
    requires i <= p && p - i < |t| && IsMark(text, p, true) && IsMark(t, p - i, true)
    requires text[p] == t[p - i]
    ensures MarkWidth(text, p, true) == MarkWidth(t, p - i, true)
  {
  }

  // ---------------------------------------------------------------------------
  // Cutting one section
  // ---------------------------------------------------------------------------

  lemma NoSpanPrefixed(cross: seq<CrossPiece>, prefix: Bytes, left: Bytes, after: Bytes)
    requires forall x :: x in cross ==> Clean(x.pre)
    requires (forall b :: b in prefix ==> b == SPACE) && !PieceSpans(cross, left, after)
    ensures !PieceSpans(cross, prefix + left, after)
  {
    forall x | x in cross && EndsWith(prefix + left, x.pre) && StartsWith(after, x.post) ensures false {
      EndsInScanned(prefix, left, x.pre);
    }
  }

  /** A mark cut of a section is a cut of its encoding, prefix and all. */
  lemma MarkCutDivides(m: Model, sp: SpeedPaths, prefix: Bytes, t: Bytes, p: nat)
    requires m.WellFormed() && Finalized(m, sp) && sp.wordSplit != NoSplit
    requires |prefix| <= 1 && (forall b :: b in prefix ==> b == SPACE)
    requires MarkCut(sp, t, p) && p < |t|
    ensures var w := prefix + t;
      if sp.wordSplit == EveryMark then IsMark(w, |prefix| + p, true) else UncrossedAt(m, true, w, |prefix| + p)
  {
    if sp.wordSplit == EveryMark {
      assert (prefix + t)[|prefix|..] == t;
      MarkOfSuffix(prefix + t, |prefix|, |prefix| + p, true);
    } else {
      MarkCutUncrossed(m, sp, prefix, t, p);
    }
  }

  lemma MarkCutUncrossed(m: Model, sp: SpeedPaths, prefix: Bytes, t: Bytes, p: nat)
    requires m.WellFormed() && Finalized(m, sp) && sp.wordSplit == SpaceRuns
    requires |prefix| <= 1 && (forall b :: b in prefix ==> b == SPACE)
    requires MarkCut(sp, t, p) && p < |t|
    ensures UncrossedAt(m, true, prefix + t, |prefix| + p)
  {
    hide Finalized, Model.WellFormed, MarkSpaces, Uncrossed, EndsInMark, PieceSpans, IsMark, MarkWidth, CrossListed, Clean;
    var whole := prefix + t;
    var w := MarkWidth(t, p, true);
    FinalizedCross(m, sp);
    MarkMaps(t, p, true);
    NoSpanPrefixed(sp.cross, prefix, t[..p], t[p + w..]);
    EndsInMarkPrefixed(prefix, t[..p], true);
    MarkCutSafe(m, sp.cross, true, prefix + t[..p], t[p..p + w], t[p + w..]);
    assert whole[..|prefix| + p] == prefix + t[..p];
    assert whole[|prefix| + p..] == t[p..p + w] + t[p + w..];
  }

  /** The prefix decision of a section is that of its first part, and the second part is never prefixed. */
  lemma SectionTextCut(m: Model, sp: SpeedPaths, t: Bytes, p: nat, pos: SectionPos)
    requires sp.rawPrepend.Some? && MarkCut(sp, t, p)
    ensures var w := SectionText(sp, t, pos);
      var k := |w| - |t|;
      && 0 <= k <= 1 && w == (if k == 1 then [SPACE] else []) + t
      && SectionText(sp, t[..p], pos) == w[..k + p] && SectionText(sp, t[p..], Continuation) == w[k + p..]
      && Boundary(w, k + p)
  {
    hide *;
    MarkCutFacts(sp, t, p);
    SectionTextIs(sp, t, pos);
    SectionTextIs(sp, t[..p], pos);
    SectionTextIs(sp, t[p..], Continuation);
    PrefixOfPart(sp.rawPrepend.value, t, p, pos);
    PrefixedParts(VirtualPrefix(sp.rawPrepend.value, pos, t), t, p);
  }

  lemma SectionTextIs(sp: SpeedPaths, chunk: Bytes, pos: SectionPos)
    requires sp.rawPrepend.Some?
    ensures SectionText(sp, chunk, pos) == WithPrefix(VirtualPrefix(sp.rawPrepend.value, pos, chunk), chunk)
  {
  }

  lemma PrefixOfPart(rule: RawPrepend, t: Bytes, p: nat, pos: SectionPos)
    requires 0 < p < |t| && IsMark(t, p, true) && Boundary(t, p)
    ensures VirtualPrefix(rule, pos, t[..p]) == VirtualPrefix(rule, pos, t)
    ensures !VirtualPrefix(rule, Continuation, t[p..])
  {
    hide IsMark, Boundary;
    MarkOfPrefix(t, p, 0, true);
  }

  lemma PrefixedParts(prefixed: bool, t: Bytes, p: nat)
    requires p < |t| && Boundary(t, p)
    ensures var w := WithPrefix(prefixed, t);
      var k := |w| - |t|;
      && 0 <= k <= 1 && w == (if k == 1 then [SPACE] else []) + t
      && WithPrefix(prefixed, t[..p]) == w[..k + p] && WithPrefix(false, t[p..]) == w[k + p..]
      && Boundary(w, k + p)
  {
    var w := WithPrefix(prefixed, t);
    var k := |w| - |t|;
    assert w[k + p] == t[p];
    assert w[..k + p] == (if k == 1 then [SPACE] else []) + t[..p];
  }

  lemma SectionCut(m: Model, sp: SpeedPaths, t: Bytes, p: nat, pos: SectionPos)
    requires RawReady(m, sp, t) && MarkCut(sp, t, p)
    ensures EncodeSection(m, sp, t, pos) == EncodeSection(m, sp, t[..p], pos) + EncodeSection(m, sp, t[p..], Continuation)
  {
    hide *;
    ReadyFacts(m, sp, t);
    MarkCutFacts(sp, t, p);
    SectionTextCut(m, sp, t, p, pos);
    SectionCovered(m, sp, t, pos);
    var w := SectionText(sp, t, pos);
    var k := |w| - |t|;
    MarkCutDivides(m, sp, if k == 1 then [SPACE] else [], t, p);
    EncodeTextCut(m, sp.wordSplit, true, w, k + p);
    SectionIs(m, sp, t, pos);
    SectionIs(m, sp, t[..p], pos);
    SectionIs(m, sp, t[p..], Continuation);
  }

  lemma ReadyFacts(m: Model, sp: SpeedPaths, t: Bytes)
    requires RawReady(m, sp, t)
    ensures m.WellFormed() && Finalized(m, sp) && sp.rawPrepend.Some? && sp.wordSplit != NoSplit
    ensures TokensOk(m.addedTokens) && Valid(t) && Covered(m, true, t) && HasTokens(m, MARK)
  {
  }

  lemma MarkCutFacts(sp: SpeedPaths, t: Bytes, p: nat)
    requires MarkCut(sp, t, p)
    ensures 0 < p < |t| && IsMark(t, p, true) && Boundary(t, p)
  {
    MarkIsBoundary(t, p, true);
  }

  lemma SectionIs(m: Model, sp: SpeedPaths, t: Bytes, pos: SectionPos)
    requires sp.rawPrepend.Some?
    ensures EncodeSection(m, sp, t, pos) == if t == [] then [] else EncodeText(m, sp.wordSplit, true, SectionText(sp, t, pos))
  {
  }

  /** A section that opens on a mark is not prefixed again, so resuming it there changes nothing. */
  lemma ResumeOnMark(m: Model, sp: SpeedPaths, t: Bytes)
    requires sp.rawPrepend.Some? && sp.rawPrepend != Some(Unguarded) && (t != [] ==> IsMark(t, 0, true))
    ensures EncodeSection(m, sp, t, Middle) == EncodeSection(m, sp, t, Continuation)
  {
  }

  /** A running section may be cut at `p`: something of it lies before, or it starts there unprefixed. */
  predicate Resumable(sp: SpeedPaths, chunkStart: nat, p: nat, pos: SectionPos) {
    chunkStart < p || (chunkStart == p && sp.rawPrepend != Some(Unguarded) && pos == Middle)
  }

  lemma SectionJoin(m: Model, sp: SpeedPaths, text: Bytes, i: nat, p: nat, e: nat, pos: SectionPos)
    requires RawReady(m, sp, text) && MarkCut(sp, text, p) && Resumable(sp, i, p, pos)
    requires i <= p <= e <= |text| && Boundary(text, i) && Boundary(text, e)
    ensures EncodeSection(m, sp, text[i..e], pos) == EncodeSection(m, sp, text[i..p], pos) + EncodeSection(m, sp, text[p..e], Continuation)
  {
    hide RawReady, MarkCut, EncodeText, SectionText, Boundary, IsMark;
    ReadyFacts(m, sp, text);
    MarkCutFacts(sp, text, p);
    if i == p {
      assert text[i..p] == [];
      if e > p {
        SliceStartsOnMark(text, p, e);
      }
      ResumeOnMark(m, sp, text[p..e]);
    } else if e == p {
      assert text[p..e] == [];
    } else {
      var t := text[i..e];
      MarkCutOfSlice(sp, text, i, p, e);
      SliceReady(m, sp, text, i, e);
      SectionCut(m, sp, t, p - i, pos);
      SliceCut(text, i, p, e);
    }
  }

  lemma SliceCut(text: Bytes, i: nat, p: nat, e: nat)
    requires i <= p <= e <= |text|
    ensures text[i..e][..p - i] == text[i..p] && text[i..e][p - i..] == text[p..e]
  {
  }

  lemma SliceReady(m: Model, sp: SpeedPaths, text: Bytes, i: nat, e: nat)
    requires RawReady(m, sp, text) && i <= e <= |text| && Boundary(text, i) && Boundary(text, e)
    ensures RawReady(m, sp, text[i..e])
  {
    hide Finalized, Model.WellFormed, Covered, Valid;
    PartOk(m, true, text, i, e);
  }

  lemma SliceStartsOnMark(text: Bytes, p: nat, e: nat)
    requires IsMark(text, p, true) && p < e <= |text| && Boundary(text, e)
    ensures IsMark(text[p..e], 0, true)
  {
    MarkOfPrefix(text, e, p, true);
    MarkOfSuffix(text[..e], p, p, true);
    assert text[..e][p..] == text[p..e];
  }

  // ---------------------------------------------------------------------------
  // Occurrences and boundaries
  // ---------------------------------------------------------------------------

  lemma {:induction false} ValidSuffix(c: Bytes, r: Bytes)
    requires Valid(c) && Valid(c + r)
    ensures Valid(r)
    decreases |c|
  {
    hide CharLen;
    if c == [] {
      assert c + r == r;
    } else {
      var n := CharLen(c);
      CharLenPrefix(c, r);
      assert (c + r)[n..] == c[n..] + r;
      ValidSuffix(c[n..], r);
    }
  }

  /** A text needle occurs only at character boundaries. */
  lemma OccurrenceBoundaries(text: Bytes, u: Bytes, s: nat)
    requires Valid(text) && Valid(u) && u != [] && OccursAt(text, u, s)
    ensures Boundary(text, s) && Boundary(text, s + |u|)
  {
    ValidStart(u);
    assert text[s..s + |u|][0] == text[s];
    ValidSplit(text, s);
    var r := text[s + |u|..];
    assert text[s..] == u + r;
    ValidSuffix(u, r);
    if r != [] {
      ValidStart(r);
    }
  }

  lemma {:induction false} LeadingWsBoundary(s: Bytes)
    requires Valid(s)
    ensures Boundary(s, LeadingWs(s))
    decreases |s|
  {
    hide CharLen, IsWhitespace;
    if s != [] {
      var n := CharLen(s);
      LeadingWsBoundary(s[n..]);
      ValidStart(s);
      if LeadingWs(s) > 0 && LeadingWs(s) < |s| {
        assert s[n..][LeadingWs(s[n..])] == s[n + LeadingWs(s[n..])];
      }
    }
  }

  lemma {:induction false} TrimmedBoundary(s: Bytes)
    requires Valid(s)
    ensures Boundary(s, TrimmedLen(s))
    decreases |s|
  {
    hide CharLen, IsWhitespace, LastStart;
    if s != [] {
      var p := LastStart(s);
      if IsWhitespace(s[p..]) {
        ValidSplit(s, p);
        TrimmedBoundary(s[..p]);
        if TrimmedLen(s[..p]) < p {
          assert s[..p][TrimmedLen(s[..p])] == s[TrimmedLen(s[..p])];
        }
      }
    }
  }

  // ---------------------------------------------------------------------------
  // Cutting the matches
  // ---------------------------------------------------------------------------

  ghost predicate Occurs(m: Model, text: Bytes, x: Match) {
    && x.token < |m.addedTokens| && TokenAt(m.addedTokens, text, x.token, x.start)
    && x.end == x.start + |m.addedTokens[x.token].content|
  }

  ghost predicate AllOccur(m: Model, text: Bytes, xs: seq<Match>) {
    forall x :: x in xs ==> Occurs(m, text, x)
  }

  lemma OccurringFit(m: Model, text: Bytes, xs: seq<Match>)
    requires AllOccur(m, text, xs)
    ensures MatchesFit(m, text, xs)
  {
    forall x | x in xs ensures x.start <= x.end <= |text| && x.token < |m.addedTokens| {
      assert Occurs(m, text, x);
    }
  }

  lemma {:induction false} MatchesOccur(m: Model, text: Bytes, at: nat)
    requires at <= |text|
    ensures AllOccur(m, text, Matches(m.addedTokens, text, at))
    decreases |text| - at
  {
    hide NextMatch;
    match NextMatch(m.addedTokens, text, at)
    case None =>
    case Some(x) => MatchesOccur(m, text, x.end);
  }

  lemma {:induction false} ShiftedFit(m: Model, text: Bytes, p: nat, xs: seq<Match>)
    requires p <= |text| && MatchesFit(m, text[p..], xs)
    ensures MatchesFit(m, text, ShiftAll(xs, p)) && |ShiftAll(xs, p)| == |xs|
  {
    if xs != [] {
      ShiftedFit(m, text, p, xs[1..]);
      assert xs[0] in xs;
    }
  }

  lemma ShiftedChunk(m: Model, text: Bytes, p: nat, x: Match, cs: nat)
    requires p <= |text| && cs <= x.start <= x.end <= |text| - p && x.token < |m.addedTokens|
    ensures ChunkEnd(m, text, Shift(x, p), cs + p) == ChunkEnd(m, text[p..], x, cs) + p
    ensures ChunkRestart(m, text, Shift(x, p)) == ChunkRestart(m, text[p..], x) + p
  {
    assert text[p..][cs..x.start] == text[cs + p..x.start + p];
    assert text[p..][x.end..] == text[x.end + p..];
  }

  lemma AroundStep(m: Model, sp: SpeedPaths, text: Bytes, xs: seq<Match>, cs: nat, pos: SectionPos)
    requires sp.rawPrepend.Some? && MatchesFit(m, text, xs) && cs <= |text| && xs != []
    ensures MatchesFit(m, text, xs[1..]) && xs[0] in xs
    ensures EncodeAround(m, sp, text, xs, cs, pos) ==
      var x := xs[0];
      if x.start < cs then EncodeAround(m, sp, text, xs[1..], cs, pos)
      else
        EncodeSection(m, sp, text[cs..ChunkEnd(m, text, x, cs)], pos)
        + [m.addedTokens[x.token].id]
        + EncodeAround(m, sp, text, xs[1..], ChunkRestart(m, text, x), Middle)
  {
    hide EncodeSection, ChunkEnd, ChunkRestart;
  }

  /** Encoding around shifted matches is encoding the suffix. */
  lemma {:induction false} AroundSuffix(m: Model, sp: SpeedPaths, text: Bytes, p: nat, xs: seq<Match>, cs: nat, pos: SectionPos)
    requires sp.rawPrepend.Some? && p <= |text| && cs <= |text| - p && MatchesFit(m, text[p..], xs)
    ensures MatchesFit(m, text, ShiftAll(xs, p))
    ensures EncodeAround(m, sp, text, ShiftAll(xs, p), cs + p, pos) == EncodeAround(m, sp, text[p..], xs, cs, pos)
    decreases |xs|
  {
    hide EncodeSection, ChunkEnd, ChunkRestart, MatchesFit, EncodeAround;
    ShiftedFit(m, text, p, xs);
    if xs == [] {
      AroundDone(m, sp, text, cs + p, pos);
      AroundDone(m, sp, text[p..], cs, pos);
      assert text[p..][cs..] == text[cs + p..];
    } else {
      var x := xs[0];
      AroundStep(m, sp, text[p..], xs, cs, pos);
      AroundStep(m, sp, text, ShiftAll(xs, p), cs + p, pos);
      assert ShiftAll(xs, p)[0] == Shift(x, p) && ShiftAll(xs, p)[1..] == ShiftAll(xs[1..], p);
      if x.start < cs {
        AroundSuffix(m, sp, text, p, xs[1..], cs, pos);
      } else {
        ShiftedChunk(m, text, p, x, cs);
        var e := ChunkEnd(m, text[p..], x, cs);
        assert text[p..][cs..e] == text[cs + p..e + p];
        AroundSuffix(m, sp, text, p, xs[1..], ChunkRestart(m, text[p..], x), Middle);
      }
    }
  }

  lemma AroundDone(m: Model, sp: SpeedPaths, text: Bytes, cs: nat, pos: SectionPos)
    requires sp.rawPrepend.Some? && cs <= |text|
    ensures MatchesFit(m, text, [])
    ensures EncodeAround(m, sp, text, [], cs, pos) == EncodeSection(m, sp, text[cs..], pos)
  {
  }

  // ---------------------------------------------------------------------------
  // Matches before and after the cut
  // ---------------------------------------------------------------------------

  /** An occurrence that ends at or before a safe cut, strips and all. */
  lemma MatchBeforeCut(m: Model, sp: SpeedPaths, text: Bytes, p: nat, x: Match)
    requires RawReady(m, sp, text) && SafeCut(m, sp, text, p) && Occurs(m, text, x) && x.end <= p < |text|
    ensures x.end <= |text[..p]| && ChunkRestart(m, text[..p], x) == ChunkRestart(m, text, x)
    ensures Resumable(sp, ChunkRestart(m, text, x), p, Middle) && Boundary(text, ChunkRestart(m, text, x))
  {
    hide Model.WellFormed, Finalized, Covered, MarkCut, LeadingWs, TrimmedLen, Valid;
    var t := m.addedTokens[x.token];
    MarkCutFacts(sp, text, p);
    OccurrenceBoundaries(text, t.content, x.start);
    assert !Blocks(m, sp, text, x.token, x.start, p);
    assert text[..p][x.end..] == text[x.end..p] == text[x.end..][..p - x.end];
    if t.rstrip {
      ValidSplit(text, x.end);
      var r := text[x.end..];
      assert p - x.end < |r| ==> r[p - x.end] == text[p];
      LeadingWsPrefix(r, p - x.end);
      LeadingWsBoundary(r);
      assert LeadingWs(r) < |r| ==> r[LeadingWs(r)] == text[x.end + LeadingWs(r)];
    }
  }

  /** The chunk before an occurrence at or after a safe cut reaches the cut, and ends the same on both sides. */
  lemma MatchAfterCut(m: Model, sp: SpeedPaths, text: Bytes, p: nat, y: Match, cs: nat)
    requires RawReady(m, sp, text) && SafeCut(m, sp, text, p) && p < |text|
    requires Occurs(m, text[p..], y) && cs <= p && Boundary(text, cs)
    ensures cs <= y.start + p <= |text| && y.start <= |text[p..]|
    ensures var e := ChunkEnd(m, text, Shift(y, p), cs);
      e == ChunkEnd(m, text[p..], y, 0) + p && p <= e && Boundary(text, e)
  {
    hide Model.WellFormed, Finalized, Covered, MarkCut, LeadingWs, TrimmedLen, Valid;
    var t := m.addedTokens[y.token];
    var s := y.start + p;
    MarkCutFacts(sp, text, p);
    OccursInSuffix(text, t.content, p, y.start);
    OccurrenceBoundaries(text, t.content, s);
    assert !Blocks(m, sp, text, y.token, s, p);
    if t.lstrip {
      var l := text[..s];
      ValidSplit(text, s);
      assert cs < s ==> l[cs] == text[cs];
      assert p < s ==> l[p] == text[p];
      TrimmedSuffix(l, cs);
      TrimmedSuffix(l, p);
      TrimmedBoundary(l);
      assert l[cs..] == text[cs..s] && l[p..] == text[p..][0..y.start];
      assert TrimmedLen(l) > p;
      assert TrimmedLen(l) < s ==> l[TrimmedLen(l)] == text[TrimmedLen(l)];
    }
  }

  /** No match before the cut: the open section is cut, the rest is the suffix's own encoding. */
  lemma AroundCutHere(m: Model, sp: SpeedPaths, text: Bytes, p: nat, ys: seq<Match>, cs: nat, pos: SectionPos)
    requires RawReady(m, sp, text) && SafeCut(m, sp, text, p) && p < |text|
    requires AllOccur(m, text[p..], ys) && Resumable(sp, cs, p, pos) && Boundary(text, cs)
    ensures MatchesFit(m, text, ShiftAll(ys, p)) && MatchesFit(m, text[p..], ys)
    ensures EncodeAround(m, sp, text, ShiftAll(ys, p), cs, pos)
         == EncodeSection(m, sp, text[cs..p], pos) + EncodeAround(m, sp, text[p..], ys, 0, Continuation)
  {
    hide *;
    ReadyFacts(m, sp, text);
    CutFacts(m, sp, text, p, cs, pos);
    OccurringFit(m, text[p..], ys);
    ShiftedFit(m, text, p, ys);
    if ys == [] {
      AroundDone(m, sp, text, cs, pos);
      AroundDone(m, sp, text[p..], 0, Continuation);
      EndIsBoundary(text);
      SectionJoin(m, sp, text, cs, p, |text|, pos);
      assert text[cs..|text|] == text[cs..] && text[p..|text|] == text[p..][0..];
    } else {
      var y := ys[0];
      OccursFacts(m, text[p..], ys);
      ShiftFirst(ys, p);
      MatchAfterCut(m, sp, text, p, y, cs);
      AroundStep(m, sp, text, ShiftAll(ys, p), cs, pos);
      AroundStep(m, sp, text[p..], ys, 0, Continuation);
      var e := ChunkEnd(m, text, Shift(y, p), cs);
      SectionJoin(m, sp, text, cs, p, e, pos);
      assert text[p..][0..e - p] == text[p..e];
      ShiftedChunk(m, text, p, y, 0);
      AroundSuffix(m, sp, text, p, ys[1..], ChunkRestart(m, text[p..], y), Middle);
    }
  }

  lemma CutFacts(m: Model, sp: SpeedPaths, text: Bytes, p: nat, cs: nat, pos: SectionPos)
    requires SafeCut(m, sp, text, p) && Resumable(sp, cs, p, pos)
    ensures MarkCut(sp, text, p) && 0 < p && cs <= p <= |text| && IsMark(text, p, true)
  {
  }

  lemma ShiftFirst(ys: seq<Match>, p: nat)
    requires ys != []
    ensures ShiftAll(ys, p) != [] && ShiftAll(ys, p)[0] == Shift(ys[0], p) && ShiftAll(ys, p)[1..] == ShiftAll(ys[1..], p)
    ensures Shift(ys[0], p).start == ys[0].start + p && Shift(ys[0], p).token == ys[0].token
  {
  }

  lemma OccursFacts(m: Model, text: Bytes, ys: seq<Match>)
    requires AllOccur(m, text, ys) && ys != []
    ensures Occurs(m, text, ys[0]) && ys[0] in ys && AllOccur(m, text, ys[1..])
  {
  }

  ghost predicate EndBy(xs: seq<Match>, p: nat) {
    forall x :: x in xs ==> x.end <= p
  }

  lemma BeforeFacts(m: Model, text: Bytes, p: nat, xs: seq<Match>, ys: seq<Match>)
    requires AllOccur(m, text, xs) && EndBy(xs, p) && p <= |text| && AllOccur(m, text[p..], ys)
    ensures MatchesFit(m, text[..p], xs) && MatchesFit(m, text, xs + ShiftAll(ys, p)) && MatchesFit(m, text[p..], ys)
    ensures xs != [] ==> Occurs(m, text, xs[0]) && xs[0].end <= p && AllOccur(m, text, xs[1..]) && EndBy(xs[1..], p)
    ensures xs != [] ==> xs[0].start <= xs[0].end && xs[0].token < |m.addedTokens|
  {
    OccurringFit(m, text, xs);
    OccurringFit(m, text[p..], ys);
    ShiftedFit(m, text, p, ys);
    forall x | x in xs ensures Occurs(m, text, x) && x.start <= x.end <= p {}
    if xs != [] {
      assert xs[0] in xs;
    }
  }

  /** A safe cut divides the encoding around the matches before it and those after it. */
  lemma {:induction false} AroundCut(m: Model, sp: SpeedPaths, text: Bytes, p: nat, xs: seq<Match>, ys: seq<Match>, cs: nat, pos: SectionPos)
    requires RawReady(m, sp, text) && SafeCut(m, sp, text, p) && p < |text|
    requires AllOccur(m, text, xs) && EndBy(xs, p) && AllOccur(m, text[p..], ys)
    requires Resumable(sp, cs, p, pos) && Boundary(text, cs)
    ensures MatchesFit(m, text[..p], xs) && MatchesFit(m, text, xs + ShiftAll(ys, p)) && MatchesFit(m, text[p..], ys)
    ensures cs <= p && sp.rawPrepend.Some?
    ensures EncodeAround(m, sp, text, xs + ShiftAll(ys, p), cs, pos)
         == EncodeAround(m, sp, text[..p], xs, cs, pos) + EncodeAround(m, sp, text[p..], ys, 0, Continuation)
    decreases |xs|
  {
    hide *;
    ReadyFacts(m, sp, text);
    CutFacts(m, sp, text, p, cs, pos);
    BeforeFacts(m, text, p, xs, ys);
    var all := xs + ShiftAll(ys, p);
    if xs == [] {
      assert all == ShiftAll(ys, p);
      AroundCutHere(m, sp, text, p, ys, cs, pos);
      AroundDone(m, sp, text[..p], cs, pos);
      assert text[..p][cs..] == text[cs..p];
    } else {
      var x := xs[0];
      assert all[0] == x && all[1..] == xs[1..] + ShiftAll(ys, p);
      AroundStep(m, sp, text, all, cs, pos);
      AroundStep(m, sp, text[..p], xs, cs, pos);
      if x.start < cs {
        AroundCut(m, sp, text, p, xs[1..], ys, cs, pos);
      } else {
        MatchBeforeCut(m, sp, text, p, x);
        SameChunk(m, text, p, x, cs);
        var r := ChunkRestart(m, text, x);
        AroundCut(m, sp, text, p, xs[1..], ys, r, Middle);
      }
    }
  }

  lemma SameChunk(m: Model, text: Bytes, p: nat, x: Match, cs: nat)
    requires cs <= x.start <= x.end <= p <= |text| && x.token < |m.addedTokens|
    ensures ChunkEnd(m, text[..p], x, cs) == ChunkEnd(m, text, x, cs)
    ensures text[..p][cs..ChunkEnd(m, text, x, cs)] == text[cs..ChunkEnd(m, text, x, cs)]
  {
    assert text[..p][cs..x.start] == text[cs..x.start];
  }

  /** No added-token occurrence straddles a safe cut. */
  lemma SafeCutUnstraddled(m: Model, sp: SpeedPaths, text: Bytes, p: nat)
    requires SafeCut(m, sp, text, p)
    ensures Unstraddled(m.addedTokens, text, p)
  {
    forall i: nat, s: nat | TokenAt(m.addedTokens, text, i, s)
      ensures !(s < p < s + |m.addedTokens[i].content|)
    {
      assert !Blocks(m, sp, text, i, s, p);
    }
  }

  lemma PrefixMatchesEnd(m: Model, text: Bytes, p: nat)
    requires p <= |text|
    ensures AllOccur(m, text, Matches(m.addedTokens, text[..p], 0)) && EndBy(Matches(m.addedTokens, text[..p], 0), p)
  {
    var xs := Matches(m.addedTokens, text[..p], 0);
    MatchesOccur(m, text[..p], 0);
    forall x | x in xs ensures Occurs(m, text, x) && x.end <= p {
      assert Occurs(m, text[..p], x);
      OccursInPrefix(text, m.addedTokens[x.token].content, p, x.start);
    }
  }

  /** A safe cut divides the encoding of raw text: the second part continues the section the cut is in. */
  lemma EncodeRawCut(m: Model, sp: SpeedPaths, text: Bytes, p: nat, pos: SectionPos)
    requires RawReady(m, sp, text) && SafeCut(m, sp, text, p)
    ensures p < |text|
    ensures EncodeRaw(m, sp, text, pos) == EncodeRaw(m, sp, text[..p], pos) + EncodeRaw(m, sp, text[p..], Continuation)
  {
    hide *;
    ReadyFacts(m, sp, text);
    StartResumable(m, sp, text, p, pos);
    SafeCutUnstraddled(m, sp, text, p);
    MatchesCut(m.addedTokens, text, p, 0);
    PrefixMatchesEnd(m, text, p);
    MatchesOccur(m, text[p..], 0);
    AroundCut(m, sp, text, p, Matches(m.addedTokens, text[..p], 0), Matches(m.addedTokens, text[p..], 0), 0, pos);
    RawIs(m, sp, text, pos);
    RawIs(m, sp, text[..p], pos);
    RawIs(m, sp, text[p..], Continuation);
  }

  lemma StartResumable(m: Model, sp: SpeedPaths, text: Bytes, p: nat, pos: SectionPos)
    requires RawReady(m, sp, text) && SafeCut(m, sp, text, p)
    ensures 0 < p < |text| && Resumable(sp, 0, p, pos) && Boundary(text, 0)
  {
    ValidStart(text);
  }

  lemma RawIs(m: Model, sp: SpeedPaths, text: Bytes, pos: SectionPos)
    requires sp.rawPrepend.Some?
    ensures MatchesFit(m, text, Matches(m.addedTokens, text, 0))
    ensures EncodeRaw(m, sp, text, pos) == EncodeAround(m, sp, text, Matches(m.addedTokens, text, 0), 0, pos)
  {
    MatchesAreFit(m, text, 0);
  }

  // ---------------------------------------------------------------------------
  // Many cuts
  // ---------------------------------------------------------------------------

  /** Fragment boundaries: increasing, from 0 to the end, every one between a safe cut. */
  ghost predicate Fragments(m: Model, sp: SpeedPaths, text: Bytes, cuts: seq<nat>) {
    && |cuts| >= 2 && cuts[0] == 0 && cuts[|cuts| - 1] == |text|
    && (forall i, j :: 0 <= i < j < |cuts| ==> cuts[i] < cuts[j])
    && (forall i :: 0 < i < |cuts| - 1 ==> SafeCut(m, sp, text, cuts[i]))
  }

  /** The fragments encoded one by one, the first as the document's start and the rest as continuations. */
  function EncodeFragments(m: Model, sp: SpeedPaths, text: Bytes, cuts: seq<nat>): seq<Token>
    requires sp.rawPrepend.Some? && |cuts| >= 1
    requires forall i :: 0 <= i < |cuts| ==> cuts[i] <= |text|
    requires forall i, j :: 0 <= i < j < |cuts| ==> cuts[i] <= cuts[j]
  {
    var k := |cuts| - 1;
    if k == 0 then []
    else
      (EncodeFragments(m, sp, text, cuts[..k])
       + EncodeRaw(m, sp, text[cuts[k - 1]..cuts[k]], if k == 1 then First else Continuation))
  }

  /** A safe cut of the text is a safe cut of any longer prefix. */
  lemma SafeCutOfPrefix(m: Model, sp: SpeedPaths, text: Bytes, p: nat, e: nat)
    requires RawReady(m, sp, text) && SafeCut(m, sp, text, p) && p < e <= |text| && Boundary(text, e)
    ensures SafeCut(m, sp, text[..e], p)
  {
    hide Model.WellFormed, Finalized, Covered, MarkCut;
    MarkCutFacts(sp, text, p);
    MarkCutOfSlice(sp, text, 0, p, e);
    assert text[0..e] == text[..e];
    forall i: nat, s: nat ensures !Blocks(m, sp, text[..e], i, s, p) {
      if TokenAt(m.addedTokens, text[..e], i, s) {
        BlockOfPrefix(m, sp, text, e, i, s);
        assert !Blocks(m, sp, text, i, s, p);
      }
    }
  }

  lemma BlockOfPrefix(m: Model, sp: SpeedPaths, text: Bytes, e: nat, i: nat, s: nat)
    requires Valid(text) && TokensOk(m.addedTokens) && e <= |text| && Boundary(text, e)
    requires TokenAt(m.addedTokens, text[..e], i, s)
    ensures TokenAt(m.addedTokens, text, i, s)
    ensures BlockLo(m, text[..e], i, s) == BlockLo(m, text, i, s)
    ensures BlockHi(m, sp, text[..e], i, s) <= BlockHi(m, sp, text, i, s)
  {
    hide LeadingWs, TrimmedLen, Valid;
    var t := m.addedTokens[i];
    OccursInPrefix(text, t.content, e, s);
    assert text[..e][..s] == text[..s];
    OccurrenceBoundaries(text, t.content, s);
    var q := s + |t.content|;
    ValidSplit(text, q);
    assert text[..e][q..] == text[q..][..e - q];
    assert e < |text| ==> text[q..][e - q] == text[e];
    LeadingWsPrefix(text[q..], e - q);
  }

  lemma FragmentsPrefix(m: Model, sp: SpeedPaths, text: Bytes, cuts: seq<nat>)
    requires RawReady(m, sp, text) && Fragments(m, sp, text, cuts) && |cuts| > 2
    ensures var k := |cuts| - 2;
      var e := cuts[k];
      && 0 < e < |text| && SafeCut(m, sp, text, e)
      && RawReady(m, sp, text[..e]) && Fragments(m, sp, text[..e], cuts[..k + 1])
  {
    hide Model.WellFormed, Finalized, Covered, MarkCut, Valid, IsMark;
    var k := |cuts| - 2;
    var e := cuts[k];
    assert SafeCut(m, sp, text, e);
    MarkCutFacts(sp, text, e);
    ReadyStart(m, sp, text);
    SliceReady(m, sp, text, 0, e);
    assert text[0..e] == text[..e];
    forall i | 0 < i < k ensures SafeCut(m, sp, text[..e], cuts[i]) {
      SafeCutOfPrefix(m, sp, text, cuts[i], e);
    }
  }

  lemma ReadyStart(m: Model, sp: SpeedPaths, text: Bytes)
    requires RawReady(m, sp, text)
    ensures Boundary(text, 0)
  {
    if text != [] { ValidStart(text); }
  }

  /** Encoding the fragments and concatenating is encoding the text: the whole fragment theorem. */
  lemma {:induction false} FragmentsEncodeWhole(m: Model, sp: SpeedPaths, text: Bytes, cuts: seq<nat>)
    requires RawReady(m, sp, text) && Fragments(m, sp, text, cuts)
    ensures sp.rawPrepend.Some? && forall i :: 0 <= i < |cuts| ==> cuts[i] <= |text|
    ensures EncodeFragments(m, sp, text, cuts) == EncodeRaw(m, sp, text, First)
    decreases |cuts|
  {
    hide RawReady, SafeCut, EncodeRaw, EncodeFragments;
    var k := |cuts| - 1;
    ReadyFacts(m, sp, text);
    if k == 1 {
      FragmentsOfOne(m, sp, text, cuts);
    } else {
      var e := cuts[k - 1];
      FragmentsPrefix(m, sp, text, cuts);
      FragmentsEncodeWhole(m, sp, text[..e], cuts[..k]);
      FragmentsOfPrefix(m, sp, text, e, cuts[..k]);
      FragmentsUnfold(m, sp, text, cuts);
      assert text[e..|text|] == text[e..];
      EncodeRawCut(m, sp, text, e, First);
    }
  }

  lemma FragmentsUnfold(m: Model, sp: SpeedPaths, text: Bytes, cuts: seq<nat>)
    requires sp.rawPrepend.Some? && |cuts| > 2
    requires forall i :: 0 <= i < |cuts| ==> cuts[i] <= |text|
    requires forall i, j :: 0 <= i < j < |cuts| ==> cuts[i] <= cuts[j]
    ensures var k := |cuts| - 1;
      EncodeFragments(m, sp, text, cuts) == EncodeFragments(m, sp, text, cuts[..k]) + EncodeRaw(m, sp, text[cuts[k - 1]..cuts[k]], Continuation)
  {
  }

  lemma FragmentsOfOne(m: Model, sp: SpeedPaths, text: Bytes, cuts: seq<nat>)
    requires sp.rawPrepend.Some? && |cuts| == 2 && cuts[0] == 0 && cuts[1] == |text|
    ensures EncodeFragments(m, sp, text, cuts) == EncodeRaw(m, sp, text, First)
  {
    hide EncodeRaw;
    assert text[0..|text|] == text;
    assert EncodeFragments(m, sp, text, cuts[..1]) == [];
  }

  lemma {:induction false} FragmentsOfPrefix(m: Model, sp: SpeedPaths, text: Bytes, e: nat, cuts: seq<nat>)
    requires sp.rawPrepend.Some? && e <= |text| && |cuts| >= 1
    requires forall i :: 0 <= i < |cuts| ==> cuts[i] <= e
    requires forall i, j :: 0 <= i < j < |cuts| ==> cuts[i] <= cuts[j]
    ensures EncodeFragments(m, sp, text[..e], cuts) == EncodeFragments(m, sp, text, cuts)
    decreases |cuts|
  {
    hide EncodeRaw;
    var k := |cuts| - 1;
    if k > 0 {
      FragmentsOfPrefix(m, sp, text, e, cuts[..k]);
      assert text[..e][cuts[k - 1]..cuts[k]] == text[cuts[k - 1]..cuts[k]];
    }
  }
}
