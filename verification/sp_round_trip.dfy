/** Decoding, and exactly when it gives back the text that was encoded. */
module SpRoundTrip {
  import opened Common
  import opened Utf8
  import opened MergeSpec
  import opened SpModel
  import opened SpFinalize
  import opened SpEncodeSpec
  import opened AddedTokens
  import opened SpFragments

  /** Every ▁ becomes a space. */
  function ReplaceMarks(s: Bytes): (r: Bytes)
    ensures |r| <= |s|
    decreases |s|
  {
    if s == [] then []
    else if StartsWith(s, MARK) then [SPACE] + ReplaceMarks(s[3..])
    else [s[0]] + ReplaceMarks(s[1..])
  }

  /** `decode` of tokens that spell valid text, on which the lossy UTF-8 conversion is the identity. */
  function Decode(m: Model, tokens: seq<Token>): Bytes
    requires Valid(Spell(m.Spelling(), tokens))
  {
    var out := ReplaceMarks(Spell(m.Spelling(), tokens));
    if PrependsSpace(m) && out != [] && out[0] == SPACE then out[1..] else out
  }

  // ---------------------------------------------------------------------------
  // What an encoding spells
  // ---------------------------------------------------------------------------

  /** Encoding conserves the bytes of the mark-mapped text. */
  lemma {:induction false} EncodeTextSpells(m: Model, split: WordSplit, raw: bool, s: Bytes)
    requires m.WellFormed() && Valid(s) && Covered(m, raw, s)
    ensures Spell(m.Spelling(), EncodeText(m, split, raw, s)) == MarkSpaces(raw, s)
    decreases |s|
  {
    hide Model.WellFormed, Chunk, Spell, Valid, Covered, IsMark, MarkSpaces, Boundary, SegmentStart;
    var p := SegmentStart(split, raw, s);
    if p == 0 {
      ChunkSpells(m, raw, s);
    } else {
      SegmentParts(m, raw, s, p);
      EncodeTextSpells(m, split, raw, s[..p]);
      ChunkSpells(m, raw, s[p..]);
      SpellPlus(m.Spelling(), EncodeText(m, split, raw, s[..p]), Chunk(m, raw, s[p..]));
      MarkSpacesPlus(raw, s[..p], s[p..]);
      assert s == s[..p] + s[p..];
    }
  }

  lemma SegmentParts(m: Model, raw: bool, s: Bytes, p: nat)
    requires Valid(s) && Covered(m, raw, s) && IsMark(s, p, raw)
    ensures Valid(s[..p]) && Covered(m, raw, s[..p]) && Valid(s[p..]) && Covered(m, raw, s[p..])
  {
    MarkIsBoundary(s, p, raw);
    ValidSplit(s, p);
    CoveredPlus(m, raw, s[..p], s[p..]);
    assert s == s[..p] + s[p..];
  }

  // ---------------------------------------------------------------------------
  // Undoing the space mapping
  // ---------------------------------------------------------------------------

  /** A character other than ▁ passes through unchanged. */
  lemma {:induction false} ReplaceMarksPass(c: Bytes, t: Bytes)
    requires 0xE2 !in c
    ensures ReplaceMarks(c + t) == c + ReplaceMarks(t)
    decreases |c|
  {
    if c == [] {
      assert c + t == t;
    } else {
      assert c[0] in c && (c + t)[0] == c[0];
      assert (c + t)[1..] == c[1..] + t;
      ReplaceMarksPass(c[1..], t);
      assert !StartsWith(c + t, MARK) by { assert (c + t)[..1][0] == c[0]; StartsWithLead(c + t); }
    }
  }

  lemma StartsWithLead(s: Bytes)
    ensures StartsWith(s, MARK) ==> s != [] && s[0] == 0xE2
  {
    if StartsWith(s, MARK) {
      assert s[..3][0] == s[0];
    }
  }

  /** One character: ▁ becomes a space, any other passes through. */
  lemma ReplaceMarksChar(s: Bytes)
    requires CharLen(s) > 0
    ensures var n := CharLen(s);
      ReplaceMarks(s) == (if s[..n] == MARK then [SPACE] else s[..n]) + ReplaceMarks(s[n..])
  {
    hide ReplaceMarks;
    var n := CharLen(s);
    ReplaceMarksOnce(s);
    if s[..n] != MARK && s[0] == 0xE2 {
      // A three-byte character that is not the mark: its lead byte passes, then its two continuation bytes.
      assert s[..3] != MARK;
      assert s[1..] == s[1..3] + s[3..] && s[..3] == [s[0]] + s[1..3];
      assert forall b :: b in s[1..3] ==> IsCont(b);
      ReplaceMarksPass(s[1..3], s[3..]);
    } else if s[..n] != MARK {
      assert forall b :: b in s[..n] ==> b == s[0] || IsCont(b);
      ReplaceMarksPass(s[..n], s[n..]);
      assert s == s[..n] + s[n..];
    }
  }

  lemma ReplaceMarksOnce(s: Bytes)
    requires s != []
    ensures ReplaceMarks(s) == if StartsWith(s, MARK) then [SPACE] + ReplaceMarks(s[3..]) else [s[0]] + ReplaceMarks(s[1..])
  {
  }

  /** Mapping spaces to ▁ and every ▁ to a space is mapping every ▁ to a space. */
  lemma {:induction false} ReplaceMapped(s: Bytes)
    requires Valid(s)
    ensures ReplaceMarks(MarkSpaces(true, s)) == ReplaceMarks(s)
    decreases |s|
  {
    hide CharLen, ReplaceMarks, MarkSpaces;
    if s == [] {
      MarkNothing();
    } else {
      var n := CharLen(s);
      ReplaceMarksChar(s);
      ReplaceMapped(s[n..]);
      MappedHead(s);
      ReplaceMarksChar(MarkSpaces(true, s));
    }
  }

  lemma MarkNothing()
    ensures MarkSpaces(true, []) == []
  {
  }

  lemma MappedHead(s: Bytes)
    requires CharLen(s) > 0
    ensures var n, w := CharLen(s), MarkSpaces(true, s);
      && CharLen(w) > 0 && w[..CharLen(w)] == MarkChar(true, s[..n]) && w[CharLen(w)..] == MarkSpaces(true, s[n..])
  {
    hide CharLen, MarkSpaces;
    var n := CharLen(s);
    var c := MarkChar(true, s[..n]);
    assert s == s[..n] + s[n..];
    MarkSpacesPlus(true, s[..n], s[n..]);
    MarkSpacesChar(true, s);
    MarkCharLen(true, s);
    CharLenPrefix(c, MarkSpaces(true, s[n..]));
  }

  /** The literal text survives exactly when it holds no ▁. */
  lemma {:induction false} ReplaceMarksFaithful(s: Bytes)
    ensures ReplaceMarks(s) == s <==> !Contains(s, MARK)
    ensures Contains(s, MARK) ==> |ReplaceMarks(s)| < |s|
    decreases |s|
  {
    hide ReplaceMarks, Contains;
    ContainsStep(s);
    if s != [] {
      ReplaceMarksOnce(s);
      if !StartsWith(s, MARK) {
        ReplaceMarksFaithful(s[1..]);
        assert s == [s[0]] + s[1..];
      }
    } else {
      assert |ReplaceMarks(s)| == 0;
    }
  }

  lemma ContainsStep(s: Bytes)
    ensures Contains(s, MARK) <==> s != [] && (StartsWith(s, MARK) || Contains(s[1..], MARK))
  {
    if StartsWith(s, MARK) {
      assert OccursAt(s, MARK, 0) by { assert s[0..3] == s[..3]; }
    }
    if s != [] && Contains(s[1..], MARK) {
      var p :| 0 <= p <= |s[1..]| && OccursAt(s[1..], MARK, p);
      OccursInSuffix(s, MARK, 1, p);
    }
    if Contains(s, MARK) {
      var p :| 0 <= p <= |s| && OccursAt(s, MARK, p);
      if p == 0 {
        assert s[0..3] == s[..3];
      } else {
        OccursInSuffix(s, MARK, 1, p - 1);
      }
    }
  }

  // ---------------------------------------------------------------------------
  // The round trip
  // ---------------------------------------------------------------------------

  lemma RawWithoutMatches(m: Model, sp: SpeedPaths, text: Bytes)
    requires sp.rawPrepend.Some? && Matches(m.addedTokens, text, 0) == []
    ensures EncodeRaw(m, sp, text, First) == EncodeSection(m, sp, text, First)
  {
    RawIs(m, sp, text, First);
    AroundDone(m, sp, text, 0, First);
    assert text[0..] == text;
  }

  lemma RawSpells(m: Model, sp: SpeedPaths, text: Bytes)
    requires RawReady(m, sp, text) && Matches(m.addedTokens, text, 0) == [] && text != []
    ensures Spell(m.Spelling(), EncodeRaw(m, sp, text, First)) == MarkSpaces(true, SectionText(sp, text, First))
    ensures Valid(Spell(m.Spelling(), EncodeRaw(m, sp, text, First)))
  {
    hide *;
    ReadyFacts(m, sp, text);
    RawWithoutMatches(m, sp, text);
    SectionIs(m, sp, text, First);
    SectionCovered(m, sp, text, First);
    EncodeTextSpells(m, sp.wordSplit, true, SectionText(sp, text, First));
    MarkSpacesValid(true, SectionText(sp, text, First));
  }

  /** The text comes back exactly when it has no literal ▁, and no leading space where decoding strips one that encoding
      puts only in front of other texts. */
  predicate Recoverable(sp: SpeedPaths, text: Bytes)
    requires sp.rawPrepend.Some?
  {
    && !Contains(text, MARK)
    && (sp.rawPrepend.value == GuardedAlways || sp.rawPrepend.value == GuardedFirst ==> text == [] || text[0] != SPACE)
  }

  lemma EmptyRoundTrip(m: Model, sp: SpeedPaths)
    requires RawReady(m, sp, []) && Matches(m.addedTokens, [], 0) == []
    ensures sp.rawPrepend.Some? && Spell(m.Spelling(), EncodeRaw(m, sp, [], First)) == []
    ensures Decode(m, EncodeRaw(m, sp, [], First)) == [] && Recoverable(sp, [])
  {
    hide RawReady, EncodeRaw, Contains;
    ReadyFacts(m, sp, []);
    RawWithoutMatches(m, sp, []);
    SectionIs(m, sp, [], First);
    assert ReplaceMarks([]) == [];
    ReplaceMarksFaithful([]);
  }

  /** Every text without added-token match comes back, or does not, as `Recoverable` says. */
  lemma RoundTrip(m: Model, sp: SpeedPaths, text: Bytes)
    requires RawReady(m, sp, text) && Matches(m.addedTokens, text, 0) == []
    ensures sp.rawPrepend.Some? && Valid(Spell(m.Spelling(), EncodeRaw(m, sp, text, First)))
    ensures Decode(m, EncodeRaw(m, sp, text, First)) == text <==> Recoverable(sp, text)
  {
    if text == [] {
      EmptyRoundTrip(m, sp);
    } else {
      TextRoundTrip(m, sp, text);
    }
  }

  lemma TextRoundTrip(m: Model, sp: SpeedPaths, text: Bytes)
    requires RawReady(m, sp, text) && Matches(m.addedTokens, text, 0) == [] && text != []
    ensures sp.rawPrepend.Some? && Valid(Spell(m.Spelling(), EncodeRaw(m, sp, text, First)))
    ensures Decode(m, EncodeRaw(m, sp, text, First)) == text <==> Recoverable(sp, text)
  {
    hide RawReady, Spell, EncodeRaw, Valid, MarkSpaces, ReplaceMarks, Contains, PrependsSpace, Finalized;
    RawSpells(m, sp, text);
    ReadyFacts(m, sp, text);
    FinalizedPrepend(m, sp);
    var prefixed := VirtualPrefix(sp.rawPrepend.value, First, text);
    var w := SectionText(sp, text, First);
    assert Valid(w) by { SectionCovered(m, sp, text, First); }
    ReplaceMapped(w);
    ReplaceMarksFaithful(text);
    if prefixed {
      ReplaceMarksPass([SPACE], text);
    } else {
      ReplaceMarksOnce(text);
    }
  }

  lemma FinalizedPrepend(m: Model, sp: SpeedPaths)
    requires Finalized(m, sp) && sp.rawPrepend.Some?
    ensures PrependsSpace(m) <==> sp.rawPrepend != Some(Never)
  {
    RawPrependsSpace(m, sp.wordSplit);
  }

  /** Under the unconditional prefix every text without a literal ▁ comes back. */
  lemma UnguardedRoundTrip(m: Model, sp: SpeedPaths, text: Bytes)
    requires RawReady(m, sp, text) && Matches(m.addedTokens, text, 0) == []
    requires sp.rawPrepend == Some(Unguarded) && !Contains(text, MARK)
    ensures Valid(Spell(m.Spelling(), EncodeRaw(m, sp, text, First)))
    ensures Decode(m, EncodeRaw(m, sp, text, First)) == text
  {
    hide RawReady, EncodeRaw, Contains, Decode;
    RoundTrip(m, sp, text);
  }
}
