/** What encoding a section means, with no units: one global merge of the mark-mapped text, or, when
    the pre-tokenizer splits at every mark, one merge per marked segment. */
module SpEncodeSpec {
  import opened Utf8
  import opened MergeSpec
  import opened SpModel

  /** `bpe_chunk`: the whole text, merged at once. */
  function Chunk(m: Model, raw: bool, s: Bytes): seq<Token> {
    MergeAll(m.Rules(), InitSymbols(m, raw, s))
  }

  /** Start of the last segment of `s[..k]`: the last mark after position 0, or 0. */
  function LastMark(s: Bytes, raw: bool, k: nat): (p: nat)
    requires k <= |s|
    ensures p == 0 || (0 < p < k && IsMark(s, p, raw))
    ensures forall q :: p < q < k ==> !IsMark(s, q, raw)
  {
    if k <= 1 then 0
    else if IsMark(s, k - 1, raw) then k - 1
    else LastMark(s, raw, k - 1)
  }

  function SegmentStart(split: WordSplit, raw: bool, s: Bytes): (p: nat)
    ensures p == 0 || (p < |s| && split == EveryMark && IsMark(s, p, raw))
  {
    if split == EveryMark then LastMark(s, raw, |s|) else 0
  }

  /** The encoding of a section. */
  function EncodeText(m: Model, split: WordSplit, raw: bool, s: Bytes): seq<Token>
    decreases |s|
  {
    var p := SegmentStart(split, raw, s);
    if p == 0 then Chunk(m, raw, s)
    else EncodeText(m, split, raw, s[..p]) + Chunk(m, raw, s[p..])
  }

  /** Without mandatory splits, raw mode is one merge of the text with its spaces mapped to ▁. */
  lemma RawChunkIsMappedChunk(m: Model, s: Bytes)
    requires Valid(s)
    ensures Chunk(m, true, s) == Chunk(m, false, MarkSpaces(true, s))
  {
    InitRawIsInitMapped(m, s);
  }

  /** A chunk's tokens spell its mark-mapped text. */
  lemma ChunkSpells(m: Model, raw: bool, s: Bytes)
    requires m.WellFormed() && Valid(s) && Covered(m, raw, s)
    ensures Spell(m.Spelling(), Chunk(m, raw, s)) == MarkSpaces(raw, s)
  {
    WellFormedConsistent(m);
    MergeAllSpell(m.Rules(), m.Spelling(), InitSymbols(m, raw, s));
    InitSpells(m, raw, s);
  }

  lemma {:induction false} MarkSpacesLength(s: Bytes)
    ensures |MarkSpaces(true, s)| >= |s|
    ensures |MarkSpaces(true, s)| == |s| <==> SPACE !in s
  {
    if s != [] {
      MarkSpacesLength(s[1..]);
      assert s == [s[0]] + s[1..];
    }
  }

  /** Raw mode and normalized mode encode the same bytes alike exactly when there is no raw space among
      them: a cache keyed by bytes alone must not serve both modes. */
  lemma ModesAgreeIffNoSpace(m: Model, s: Bytes)
    requires m.WellFormed() && Valid(s) && Covered(m, true, s) && Covered(m, false, s)
    ensures Chunk(m, true, s) == Chunk(m, false, s) <==> SPACE !in s
  {
    hide InitSymbols, Covered, Valid;
    ChunkSpells(m, true, s);
    ChunkSpells(m, false, s);
    MarkSpacesId(s);
    MarkSpacesLength(s);
    if SPACE !in s {
      MarkSpacesNoSpace(true, s);
      InitRawIsInitMapped(m, s);
    }
  }

  // ---------------------------------------------------------------------------
  // Marks of parts
  // ---------------------------------------------------------------------------

  /** In a valid text, marks before a boundary are marks of the part before it. */
  lemma MarkOfPrefix(s: Bytes, b: nat, p: nat, raw: bool)
    requires Boundary(s, b) && p < b
    ensures IsMark(s[..b], p, raw) <==> IsMark(s, p, raw)
  {
    var t := s[..b];
    assert forall k :: 0 <= k < b ==> t[k] == s[k];
    assert MarkWidth(s, p, raw) == 3 ==> p + 3 <= |s|;
  }

  lemma MarkOfSuffix(s: Bytes, b: nat, p: nat, raw: bool)
    requires b <= p < |s|
    ensures IsMark(s[b..], p - b, raw) <==> IsMark(s, p, raw)
  {
    var t := s[b..];
    assert forall k :: b <= k < |s| ==> t[k - b] == s[k];
  }

  lemma MarkIsBoundary(s: Bytes, p: nat, raw: bool)
    requires IsMark(s, p, raw)
    ensures Boundary(s, p)
  {
    assert MarkWidth(s, p, raw) == 3 ==> s[p..p + 3][0] == s[p];
  }

  lemma SegmentStartUnique(split: WordSplit, raw: bool, s: Bytes, p: nat)
    requires split == EveryMark && 0 < p < |s| && IsMark(s, p, raw)
    requires forall q :: p < q < |s| ==> !IsMark(s, q, raw)
    ensures SegmentStart(split, raw, s) == p
  {
  }

  /** Appending a part without marks does not move the segment start. */
  lemma SegmentStartExtends(split: WordSplit, raw: bool, s: Bytes, b: nat)
    requires Boundary(s, b) && 0 < b
    requires split == EveryMark ==> forall q :: b <= q < |s| ==> !IsMark(s, q, raw)
    ensures SegmentStart(split, raw, s[..b]) == SegmentStart(split, raw, s)
  {
    if split == EveryMark {
      var g := SegmentStart(split, raw, s);
      forall q | 0 <= q < b ensures IsMark(s[..b], q, raw) <==> IsMark(s, q, raw) { MarkOfPrefix(s, b, q, raw); }
    }
  }

  // ---------------------------------------------------------------------------
  // Cutting a text
  // ---------------------------------------------------------------------------

  /** No rule of the model joins bytes on the two sides of position `p`. */
  ghost predicate UncrossedAt(m: Model, raw: bool, s: Bytes, p: nat)
    requires p <= |s|
  {
    Uncrossed(m.Rules(), m.Spelling(), MarkSpaces(raw, s[..p]), MarkSpaces(raw, s[p..]))
  }

  lemma UncrossedParts(rules: Rules, spell: Spelling, l: Bytes, r: Bytes, l': Bytes, r': Bytes)
    requires Uncrossed(rules, spell, l, r) && EndsWith(l, l') && StartsWith(r, r')
    ensures Uncrossed(rules, spell, l', r')
  {
    forall a, b | rules(a, b).Rule?
      ensures !(EndsWith(l', spell(a)) && StartsWith(r', spell(b)))
    {
      assert EndsWith(l', spell(a)) ==> l[|l| - |spell(a)|..] == l'[|l'| - |spell(a)|..];
      assert StartsWith(r', spell(b)) ==> r[..|spell(b)|] == r'[..|spell(b)|];
    }
  }

  /** An uncrossed position stays uncrossed in any part of the text around it. */
  lemma UncrossedSlice(m: Model, raw: bool, s: Bytes, i: nat, p: nat, j: nat)
    requires i <= p <= j <= |s| && UncrossedAt(m, raw, s, p)
    ensures Uncrossed(m.Rules(), m.Spelling(), MarkSpaces(raw, s[i..p]), MarkSpaces(raw, s[p..j]))
  {
    var l, r := MarkSpaces(raw, s[..p]), MarkSpaces(raw, s[p..]);
    var l', r' := MarkSpaces(raw, s[i..p]), MarkSpaces(raw, s[p..j]);
    assert s[..p] == s[..i] + s[i..p];
    MarkSpacesPlus(raw, s[..i], s[i..p]);
    assert l[|l| - |l'|..] == l';
    assert s[p..] == s[p..j] + s[j..];
    MarkSpacesPlus(raw, s[p..j], s[j..]);
    assert r[..|r'|] == r';
    UncrossedParts(m.Rules(), m.Spelling(), l, r, l', r');
  }

  /** Chunks concatenate where nothing crosses. */
  lemma ChunkConcat(m: Model, raw: bool, a: Bytes, b: Bytes)
    requires m.WellFormed() && Valid(a) && Valid(b) && Covered(m, raw, a) && Covered(m, raw, b)
    requires Uncrossed(m.Rules(), m.Spelling(), MarkSpaces(raw, a), MarkSpaces(raw, b))
    ensures Chunk(m, raw, a + b) == Chunk(m, raw, a) + Chunk(m, raw, b)
  {
    WellFormedConsistent(m);
    InitPlus(m, raw, a, b);
    InitSpells(m, raw, a);
    InitSpells(m, raw, b);
    MergeConcat(m.Rules(), m.Spelling(), InitSymbols(m, raw, a), InitSymbols(m, raw, b));
  }

  lemma ChunkAt(m: Model, raw: bool, s: Bytes, i: nat, p: nat, j: nat)
    requires m.WellFormed() && Valid(s) && Covered(m, raw, s)
    requires i <= p <= j <= |s| && Boundary(s, i) && Boundary(s, p) && Boundary(s, j)
    requires UncrossedAt(m, raw, s, p)
    ensures Chunk(m, raw, s[i..j]) == Chunk(m, raw, s[i..p]) + Chunk(m, raw, s[p..j])
  {
    hide *;
    PartOk(m, raw, s, i, p);
    PartOk(m, raw, s, p, j);
    UncrossedSlice(m, raw, s, i, p, j);
    assert s[i..j] == s[i..p] + s[p..j];
    ChunkConcat(m, raw, s[i..p], s[p..j]);
  }

  /** Parts of a valid, covered text between boundaries are valid and covered. */
  lemma PartOk(m: Model, raw: bool, s: Bytes, i: nat, j: nat)
    requires Valid(s) && Covered(m, raw, s) && i <= j <= |s| && Boundary(s, i) && Boundary(s, j)
    ensures Valid(s[i..j]) && Covered(m, raw, s[i..j])
  {
    hide Valid, Covered;
    ValidSplit(s, j);
    var t := s[..j];
    assert s == t + s[j..];
    CoveredPlus(m, raw, t, s[j..]);
    assert i < |t| ==> t[i] == s[i];
    ValidSplit(t, i);
    assert t == t[..i] + t[i..] && t[i..] == s[i..j];
    CoveredPlus(m, raw, t[..i], t[i..]);
  }

  // ---------------------------------------------------------------------------
  // Closing a unit
  // ---------------------------------------------------------------------------

  /** A position where the scan may start a unit. */
  ghost predicate UnitStart(m: Model, split: WordSplit, raw: bool, s: Bytes, p: nat)
    requires p <= |s|
  {
    p == 0 || (split == EveryMark && IsMark(s, p, raw)) || UncrossedAt(m, raw, s, p)
  }

  /** Closing the unit that starts at `p` appends its own merge to the encoding so far. */
  lemma UnitCloses(m: Model, split: WordSplit, raw: bool, s: Bytes, p: nat, q: nat)
    requires m.WellFormed() && Valid(s) && Covered(m, raw, s)
    requires p < q <= |s| && Boundary(s, p) && Boundary(s, q)
    requires UnitStart(m, split, raw, s, p)
    requires split == EveryMark ==> forall k :: p < k < q ==> !IsMark(s, k, raw)
    ensures EncodeText(m, split, raw, s[..q]) == EncodeText(m, split, raw, s[..p]) + Chunk(m, raw, s[p..q])
  {
    hide EncodeText, SegmentStart, IsMark, UncrossedAt, Chunk, Valid, Covered, Boundary;
    hide Model.WellFormed;
    if p == 0 || (split == EveryMark && IsMark(s, p, raw)) {
      SegmentFrom(split, raw, s, p, q);
      EncodeTextUnfold(m, split, raw, s, q);
      EmptyEncodes(m, split, raw, s);
    } else {
      UnitClosesUncrossed(m, split, raw, s, p, q);
    }
  }

  lemma EmptyEncodes(m: Model, split: WordSplit, raw: bool, s: Bytes)
    ensures EncodeText(m, split, raw, s[..0]) == []
  {
  }

  /** The last segment of a text up to `q` starts where no mark lies between. */
  lemma SegmentFrom(split: WordSplit, raw: bool, s: Bytes, p: nat, q: nat)
    requires p < q <= |s| && Boundary(s, q) && (p == 0 || (split == EveryMark && IsMark(s, p, raw)))
    requires split == EveryMark ==> forall k :: p < k < q ==> !IsMark(s, k, raw)
    ensures SegmentStart(split, raw, s[..q]) == p
  {
    hide IsMark, Boundary;
    var t := s[..q];
    forall k | 0 <= k < q ensures IsMark(t, k, raw) <==> IsMark(s, k, raw) { MarkOfPrefix(s, q, k, raw); }
    if p > 0 {
      SegmentStartUnique(split, raw, t, p);
    }
  }

  lemma UnitClosesUncrossed(m: Model, split: WordSplit, raw: bool, s: Bytes, p: nat, q: nat)
    requires m.WellFormed() && Valid(s) && Covered(m, raw, s)
    requires 0 < p < q <= |s| && Boundary(s, p) && Boundary(s, q)
    requires UncrossedAt(m, raw, s, p)
    requires split == EveryMark ==> forall k :: p <= k < q ==> !IsMark(s, k, raw)
    ensures EncodeText(m, split, raw, s[..q]) == EncodeText(m, split, raw, s[..p]) + Chunk(m, raw, s[p..q])
  {
    hide *;
    var g := SegmentStart(split, raw, s[..q]);
    SegmentBefore(split, raw, s, p, q);
    ChunkAt(m, raw, s, g, p, q);
    EncodeTextUnfold(m, split, raw, s, q);
    EncodeTextUnfold(m, split, raw, s, p);
  }

  lemma EncodeTextUnfold(m: Model, split: WordSplit, raw: bool, s: Bytes, q: nat)
    requires q <= |s|
    ensures var g := SegmentStart(split, raw, s[..q]);
      && g <= q
      && EncodeText(m, split, raw, s[..q]) == (if g == 0 then [] else EncodeText(m, split, raw, s[..g])) + Chunk(m, raw, s[g..q])
  {
    var t := s[..q];
    var g := SegmentStart(split, raw, t);
    assert t[..g] == s[..g] && t[g..] == s[g..q];
    assert [] + Chunk(m, raw, t) == Chunk(m, raw, t);
  }

  lemma SegmentBefore(split: WordSplit, raw: bool, s: Bytes, p: nat, q: nat)
    requires 0 < p < q <= |s| && Valid(s) && Boundary(s, p) && Boundary(s, q)
    requires split == EveryMark ==> forall k :: p <= k < q ==> !IsMark(s, k, raw)
    ensures var g := SegmentStart(split, raw, s[..q]);
      g < p && g == SegmentStart(split, raw, s[..p]) && Boundary(s, g)
  {
    var t := s[..q];
    assert t[..p] == s[..p] && Boundary(t, p);
    if split == EveryMark {
      forall k | p <= k < q ensures !IsMark(t, k, raw) { MarkOfPrefix(s, q, k, raw); }
    }
    SegmentStartExtends(split, raw, t, p);
    var g := SegmentStart(split, raw, t);
    if g > 0 {
      MarkIsBoundary(t, g, raw);
      assert t[g] == s[g];
    } else {
      ValidStart(s);
    }
  }

  // ---------------------------------------------------------------------------
  // Cutting a section
  // ---------------------------------------------------------------------------

  lemma EncodeMarksUnfold(m: Model, raw: bool, s: Bytes)
    ensures var g := SegmentStart(EveryMark, raw, s);
      g <= |s| && EncodeText(m, EveryMark, raw, s) == (if g == 0 then [] else EncodeText(m, EveryMark, raw, s[..g])) + Chunk(m, raw, s[g..])
  {
    EncodeTextUnfold(m, EveryMark, raw, s, |s|);
    assert s[..|s|] == s;
  }

  lemma TailSlices(s: Bytes, p: nat, g: nat)
    requires p <= g <= |s|
    ensures s[p..][..g - p] == s[..g][p..] && s[p..][g - p..] == s[g..] && s[..g][..p] == s[..p]
  {
  }

  /** Cutting at a mark, where every mark is a segment start. */
  lemma {:induction false} EncodeMarksCut(m: Model, raw: bool, s: Bytes, p: nat)
    requires 0 < p < |s| && IsMark(s, p, raw)
    ensures EncodeText(m, EveryMark, raw, s) == EncodeText(m, EveryMark, raw, s[..p]) + EncodeText(m, EveryMark, raw, s[p..])
    decreases |s|
  {
    hide *;
    var g := SegmentStart(EveryMark, raw, s);
    SegmentStartOfSuffix(raw, s, p);
    UnfoldBoth(m, raw, s, p, g);
    if g > p {
      CutOfPrefix(raw, s, p, g);
      EncodeMarksCut(m, raw, s[..g], p);
    }
  }

  /** The last segment taken off the text, and off what follows the cut. */
  lemma UnfoldBoth(m: Model, raw: bool, s: Bytes, p: nat, g: nat)
    requires 0 < p <= g < |s| && g == SegmentStart(EveryMark, raw, s) && SegmentStart(EveryMark, raw, s[p..]) == g - p
    ensures EncodeText(m, EveryMark, raw, s) == EncodeText(m, EveryMark, raw, s[..g]) + Chunk(m, raw, s[g..])
    ensures g == p ==> EncodeText(m, EveryMark, raw, s[p..]) == Chunk(m, raw, s[g..])
    ensures g > p ==> EncodeText(m, EveryMark, raw, s[p..]) == EncodeText(m, EveryMark, raw, s[..g][p..]) + Chunk(m, raw, s[g..])
    ensures s[..g][..p] == s[..p]
  {
    hide *;
    EncodeMarksUnfold(m, raw, s);
    EncodeMarksUnfold(m, raw, s[p..]);
    TailSlices(s, p, g);
  }

  /** A cut at a unit start divides the encoding. */
  lemma EncodeTextCut(m: Model, split: WordSplit, raw: bool, s: Bytes, p: nat)
    requires m.WellFormed() && Valid(s) && Covered(m, raw, s)
    requires 0 < p < |s| && Boundary(s, p)
    requires if split == EveryMark then IsMark(s, p, raw) else UncrossedAt(m, raw, s, p)
    ensures EncodeText(m, split, raw, s) == EncodeText(m, split, raw, s[..p]) + EncodeText(m, split, raw, s[p..])
  {
    if split == EveryMark {
      EncodeMarksCut(m, raw, s, p);
    } else {
      ValidStart(s);
      hide Valid, Covered, UncrossedAt, Chunk;
      ChunkAt(m, raw, s, 0, p, |s|);
      assert s[0..|s|] == s && s[0..p] == s[..p] && s[p..|s|] == s[p..];
    }
  }

  lemma CutOfPrefix(raw: bool, s: Bytes, p: nat, g: nat)
    requires 0 < p < g < |s| && IsMark(s, p, raw) && IsMark(s, g, raw)
    ensures IsMark(s[..g], p, raw)
  {
    MarkIsBoundary(s, g, raw);
    MarkOfPrefix(s, g, p, raw);
  }

  lemma SegmentStartOfSuffix(raw: bool, s: Bytes, p: nat)
    requires 0 < p < |s| && IsMark(s, p, raw)
    ensures p <= SegmentStart(EveryMark, raw, s) < |s| && IsMark(s, SegmentStart(EveryMark, raw, s), raw)
    ensures SegmentStart(EveryMark, raw, s[p..]) == SegmentStart(EveryMark, raw, s) - p
  {
    hide IsMark, LastMark;
    var g, h := SegmentStart(EveryMark, raw, s), SegmentStart(EveryMark, raw, s[p..]);
    forall q | p <= q < |s| ensures IsMark(s[p..], q - p, raw) <==> IsMark(s, q, raw) { MarkOfSuffix(s, p, q, raw); }
    if g > p {
      assert IsMark(s[p..], g - p, raw);
    }
    if h > 0 {
      assert IsMark(s, p + h, raw);
    }
  }
}
