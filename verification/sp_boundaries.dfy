/** Where text may be cut without cutting a merge: crossing pieces and safe punctuation. */
module SpBoundaries {
  import opened Utf8
  import opened MergeSpec
  import opened SpModel

  const MAX_CROSS_PIECES: nat := 32

  /** A vocab piece around one interior mark. */
  datatype CrossPiece = CrossPiece(pre: Bytes, post: Bytes)

  /** A ▁ at `p` after a character that is not ▁. */
  predicate InteriorMark(piece: Bytes, p: int) {
    0 < p && OccursAt(piece, MARK, p) && !OccursAt(piece, MARK, p - 3)
  }

  predicate Clean(s: Bytes) {
    !Contains(s, MARK) && SPACE !in s
  }

  /** Every interior mark of every text piece is listed, as a pair of parts free of marks and spaces. */
  ghost predicate CrossListed(vocab: seq<Bytes>, cross: seq<CrossPiece>) {
    && (forall i, p :: 0 <= i < |vocab| && Valid(vocab[i]) && InteriorMark(vocab[i], p) ==>
          CrossPiece(vocab[i][..p], vocab[i][p + 3..]) in cross)
    && (forall x :: x in cross ==> x.pre != [] && Clean(x.pre) && Clean(x.post))
  }

  // ---------------------------------------------------------------------------
  // Reading crossing pieces off raw text
  // ---------------------------------------------------------------------------

  const LEAD_1: Bytes := [0xE2]
  const LEAD_2: Bytes := [0xE2, 0x96]

  /** No suffix of `s` is a truncated mark. */
  predicate NotTruncated(s: Bytes) {
    !EndsWith(s, LEAD_1) && !EndsWith(s, LEAD_2)
  }

  lemma ContainsPart(s: Bytes, u: Bytes, i: nat, j: nat)
    requires i <= j <= |s| && Contains(s[i..j], u)
    ensures Contains(s, u)
  {
    var p :| 0 <= p <= |s[i..j]| && OccursAt(s[i..j], u, p);
    var t := s[i..j];
    forall k | 0 <= k < |u| ensures s[i + p..i + p + |u|][k] == u[k] {
      assert t[p..p + |u|][k] == t[p + k];
    }
    assert OccursAt(s, u, i + p);
  }

  lemma CleanTail(s: Bytes)
    requires Clean(s) && s != []
    ensures Clean(s[1..]) && Clean(s[..|s| - 1])
  {
    assert s[1..] == s[1..|s|] && s[..|s| - 1] == s[0..|s| - 1];
    if Contains(s[1..|s|], MARK) { ContainsPart(s, MARK, 1, |s|); }
    if Contains(s[0..|s| - 1], MARK) { ContainsPart(s, MARK, 0, |s| - 1); }
  }

  lemma MarkSpacesCons(raw: bool, s: Bytes)
    requires s != []
    ensures MarkSpaces(raw, s) == (if raw && s[0] == SPACE then MARK else [s[0]]) + MarkSpaces(raw, s[1..])
  {
  }

  lemma MarkSpacesSnoc(raw: bool, s: Bytes)
    requires s != []
    ensures MarkSpaces(raw, s) == MarkSpaces(raw, s[..|s| - 1]) + (if raw && s[|s| - 1] == SPACE then MARK else [s[|s| - 1]])
  {
    var k := |s| - 1;
    assert s == s[..k] + [s[k]];
    MarkSpacesPlus(raw, s[..k], [s[k]]);
    assert [s[k]][1..] == [];
    assert MarkSpaces(raw, [s[k]]) == (if raw && s[k] == SPACE then MARK else [s[k]]) + MarkSpaces(raw, []);
  }

  lemma EndsWithSnoc(s: Bytes, x: byte, u: Bytes)
    requires u != []
    ensures EndsWith(s + [x], u) <==> u[|u| - 1] == x && EndsWith(s, u[..|u| - 1])
  {
    var t := s + [x];
    if |u| <= |t| {
      assert t[|t| - |u|..] == s[|s| - (|u| - 1)..] + [x];
      assert u == u[..|u| - 1] + [u[|u| - 1]];
    }
  }

  lemma StartsWithCons(x: byte, t: Bytes, v: Bytes)
    requires v != []
    ensures StartsWith([x] + t, v) <==> v[0] == x && StartsWith(t, v[1..])
  {
    if |v| <= |t| + 1 {
      assert ([x] + t)[..|v|] == [x] + t[..|v| - 1];
      assert v == [v[0]] + v[1..];
    }
  }

  /** A part that starts on a character and ends a text that ends in a mark holds the mark. */
  lemma EndsOnMark(s: Bytes, u: Bytes)
    requires u != [] && !IsCont(u[0]) && EndsWith(s + MARK, u)
    ensures Contains(u, MARK)
  {
    assert s + MARK == ((s + [0xE2]) + [0x96]) + [0x81];
    EndsWithSnoc((s + [0xE2]) + [0x96], 0x81, u);
    var v := u[..|u| - 1];
    EndsWithSnoc(s + [0xE2], 0x96, v);
    var w := v[..|v| - 1];
    EndsWithSnoc(s, 0xE2, w);
    assert u == w[..|w| - 1] + [0xE2, 0x96, 0x81];
    assert OccursAt(u, MARK, |u| - 3);
  }

  /** A clean part the mapped text ends with is what the raw text ends with. */
  lemma {:induction false} UnmapSuffix(raw: bool, s: Bytes, u: Bytes)
    requires Clean(u) && (u != [] ==> !IsCont(u[0]))
    requires EndsWith(MarkSpaces(raw, s), u)
    ensures EndsWith(s, u)
    decreases |s|
  {
    if u != [] {
      var k := |s| - 1;
      MarkSpacesSnoc(raw, s);
      if raw && s[k] == SPACE {
        EndsOnMark(MarkSpaces(raw, s[..k]), u);
        assert false;
      } else {
        hide MarkSpaces, EndsWith;
        EndsWithSnoc(MarkSpaces(raw, s[..k]), s[k], u);
        CleanTail(u);
        UnmapSuffix(raw, s[..k], u[..|u| - 1]);
        EndsWithSnoc(s[..k], s[k], u);
        assert s == s[..k] + [s[k]];
      }
    }
  }

  lemma NotTruncatedTail(v: Bytes)
    requires NotTruncated(v) && v != []
    ensures NotTruncated(v[1..])
  {
    assert |v| > 1 ==> v[1..][|v| - 2..] == v[|v| - 1..];
    assert |v| > 2 ==> v[1..][|v| - 3..] == v[|v| - 2..];
  }

  /** A part that does not end inside a mark and starts a text that starts with a mark holds the mark. */
  lemma StartsOnMark(t: Bytes, v: Bytes)
    requires v != [] && NotTruncated(v) && StartsWith(MARK + t, v)
    ensures Contains(v, MARK)
  {
    var w := MARK + t;
    assert w[..1] == LEAD_1 && w[..2] == LEAD_2;
    assert v[0..] == v;
    assert v[0..3] == w[..3] == MARK;
    assert OccursAt(v, MARK, 0);
  }

  /** A clean part the mapped text starts with is what the raw text starts with. */
  lemma {:induction false} UnmapPrefix(raw: bool, s: Bytes, v: Bytes)
    requires Clean(v) && NotTruncated(v)
    requires StartsWith(MarkSpaces(raw, s), v)
    ensures StartsWith(s, v)
    decreases |s|
  {
    if v != [] {
      MarkSpacesCons(raw, s);
      if raw && s[0] == SPACE {
        StartsOnMark(MarkSpaces(raw, s[1..]), v);
        assert false;
      }
      UnmapPrefixStep(raw, s, v);
      UnmapPrefix(raw, s[1..], v[1..]);
      StartsWithCons(s[0], s[1..], v);
      assert s == [s[0]] + s[1..];
    }
  }

  lemma UnmapPrefixStep(raw: bool, s: Bytes, v: Bytes)
    requires Clean(v) && NotTruncated(v) && v != [] && s != []
    requires StartsWith([s[0]] + MarkSpaces(raw, s[1..]), v)
    ensures v[0] == s[0] && StartsWith(MarkSpaces(raw, s[1..]), v[1..])
    ensures Clean(v[1..]) && NotTruncated(v[1..])
  {
    hide *;
    StartsWithCons(s[0], MarkSpaces(raw, s[1..]), v);
    CleanTail(v);
    NotTruncatedTail(v);
  }

  lemma Lead2Clean()
    ensures Clean(LEAD_2) && !IsCont(LEAD_2[0]) && MARK[..2] == LEAD_2 && MARK[2] == 0x81
  {
  }

  /** Only a raw space or a literal ▁ maps to a ▁ at the end. */
  lemma MapEndsMark(raw: bool, s: Bytes)
    requires EndsWith(MarkSpaces(raw, s), MARK)
    ensures EndsInMark(s, raw)
  {
    MarkSpacesLast(raw, s);
    if !(raw && EndsWith(s, [SPACE])) {
      Lead2Clean();
      hide MarkSpaces, Clean;
      UnmapSuffix(raw, s[..|s| - 1], LEAD_2);
    }
  }

  lemma MarkSpacesLast(raw: bool, s: Bytes)
    requires EndsWith(MarkSpaces(raw, s), MARK)
    ensures s != []
    ensures (raw && EndsWith(s, [SPACE])) || (s[|s| - 1] == 0x81 && EndsWith(MarkSpaces(raw, s[..|s| - 1]), LEAD_2))
  {
    var k := |s| - 1;
    Lead2Clean();
    MarkSpacesSnoc(raw, s);
    if raw && s[k] == SPACE {
      assert s[k..] == [SPACE];
    } else {
      EndsWithSnoc(MarkSpaces(raw, s[..k]), s[k], MARK);
    }
  }

  // ---------------------------------------------------------------------------
  // Mark boundaries
  // ---------------------------------------------------------------------------

  /** Some crossing piece occurs around the mark between `left` and `after`. */
  predicate PieceSpans(cross: seq<CrossPiece>, left: Bytes, after: Bytes) {
    exists x :: x in cross && EndsWith(left, x.pre) && StartsWith(after, x.post)
  }

  /** A text piece cut before a mark, the cut not preceded by a mark, is a listed crossing piece. */
  lemma CrossedPieceListed(vocab: seq<Bytes>, cross: seq<CrossPiece>, i: nat, u: Bytes, v: Bytes)
    requires CrossListed(vocab, cross) && i < |vocab| && vocab[i] == u + v && Valid(u + v)
    requires u != [] && StartsWith(v, MARK) && !EndsWith(u, MARK)
    ensures CrossPiece(u, v[3..]) in cross
  {
    var piece := u + v;
    assert piece[|u|..|u| + 3] == v[..3];
    assert OccursAt(piece, MARK, |u|);
    assert |u| >= 3 ==> piece[|u| - 3..|u|] == u[|u| - 3..];
    assert InteriorMark(piece, |u|);
    assert piece[..|u|] == u && piece[|u| + 3..] == v[3..];
  }

  /** Halves of a valid piece cut where a mark follows are valid, and the second starts with the mark. */
  lemma CutBeforeMark(u: Bytes, v: Bytes, rest: Bytes)
    requires Valid(u + v) && v != [] && StartsWith(MARK + rest, v)
    ensures Valid(u) && Valid(v) && StartsWith(v, MARK)
  {
    var piece := u + v;
    assert v[0] == (MARK + rest)[..|v|][0] == 0xE2;
    assert piece[|u|] == v[0];
    ValidSplit(piece, |u|);
    assert piece[..|u|] == u && piece[|u|..] == v;
    assert v[..3] == (MARK + rest)[..|v|][..3] == MARK;
  }

  /** Cutting before a mark that extends no mark run and is spanned by no crossing piece cuts no merge. */
  lemma MarkCutSafe(m: Model, cross: seq<CrossPiece>, raw: bool, left: Bytes, mark: Bytes, after: Bytes)
    requires m.WellFormed() && CrossListed(m.vocab, cross)
    requires MarkSpaces(raw, mark) == MARK
    requires !EndsInMark(left, raw) && !PieceSpans(cross, left, after)
    ensures Uncrossed(m.Rules(), m.Spelling(), MarkSpaces(raw, left), MarkSpaces(raw, mark + after))
  {
    MarkSpacesPlus(raw, mark, after);
    var l, r := MarkSpaces(raw, left), MARK + MarkSpaces(raw, after);
    forall a, b | m.Rules()(a, b).Rule?
      ensures !(EndsWith(l, m.Spelling()(a)) && StartsWith(r, m.Spelling()(b)))
    {
      if EndsWith(l, m.Spelling()(a)) && StartsWith(r, m.Spelling()(b)) {
        CrossingRuleSpans(m, cross, raw, left, after, a, b);
      }
    }
  }

  /** A rule that joins bytes across the cut is a crossing piece the scanner sees in the text. */
  lemma CrossingRuleSpans(m: Model, cross: seq<CrossPiece>, raw: bool, left: Bytes, after: Bytes, a: Token, b: Token)
    requires m.WellFormed() && CrossListed(m.vocab, cross)
    requires !EndsInMark(left, raw) && (a, b) in m.merges
    requires EndsWith(MarkSpaces(raw, left), m.Spelling()(a))
    requires StartsWith(MARK + MarkSpaces(raw, after), m.Spelling()(b))
    ensures PieceSpans(cross, left, after)
  {
    assert m.MergeWellFormed(a, b);
    var u, v := m.Spelling()(a), m.Spelling()(b);
    hide Model.WellFormed, Valid, CharLen;
    CutBeforeMark(u, v, MarkSpaces(raw, after));
    SuffixNotMark(raw, left, u);
    CrossedPieceListed(m.vocab, cross, m.merges[(a, b)].0, u, v);
    CleanSpans(cross, raw, left, after, u, v);
  }

  lemma SuffixNotMark(raw: bool, left: Bytes, u: Bytes)
    requires EndsWith(MarkSpaces(raw, left), u) && !EndsInMark(left, raw)
    ensures !EndsWith(u, MARK)
  {
    var l := MarkSpaces(raw, left);
    if EndsWith(u, MARK) {
      assert l[|l| - 3..] == l[|l| - |u|..][|u| - 3..];
      MapEndsMark(raw, left);
    }
  }

  lemma CleanSpans(cross: seq<CrossPiece>, raw: bool, left: Bytes, after: Bytes, u: Bytes, v: Bytes)
    requires Valid(u) && Valid(v) && u != [] && StartsWith(v, MARK)
    requires CrossPiece(u, v[3..]) in cross && Clean(u) && Clean(v[3..])
    requires EndsWith(MarkSpaces(raw, left), u) && StartsWith(MARK + MarkSpaces(raw, after), v)
    ensures PieceSpans(cross, left, after)
  {
    hide *;
    AfterMark(MarkSpaces(raw, after), v);
    var post := v[3..];
    ValidStart(u);
    UnmapSuffix(raw, left, u);
    UnmapPrefix(raw, after, post);
    Spans(cross, left, after, CrossPiece(u, post));
  }

  lemma Spans(cross: seq<CrossPiece>, left: Bytes, after: Bytes, x: CrossPiece)
    requires x in cross && EndsWith(left, x.pre) && StartsWith(after, x.post)
    ensures PieceSpans(cross, left, after)
  {
  }

  /** What a text piece holds behind its mark starts what follows the mark, and does not end inside one. */
  lemma AfterMark(t: Bytes, v: Bytes)
    requires Valid(v) && StartsWith(v, MARK) && StartsWith(MARK + t, v)
    ensures |v| >= 3 && NotTruncated(v[3..]) && StartsWith(t, v[3..])
  {
    hide Valid, CharLen;
    ValidEnd(v);
    var post := v[3..];
    assert |post| > 0 ==> post[|post| - 1..] == v[|v| - 1..];
    assert |post| > 1 ==> post[|post| - 2..] == v[|v| - 2..];
    assert t[..|post|] == (MARK + t)[..|v|][3..];
  }

  // ---------------------------------------------------------------------------
  // Punctuation boundaries
  // ---------------------------------------------------------------------------

  predicate AdjacentIn(piece: Bytes, x: byte, y: byte) {
    exists p :: 0 <= p < |piece| - 1 && piece[p] == x && piece[p + 1] == y
  }

  /** Some vocab piece holds `x` immediately before `y`. */
  ghost predicate Adjacent(vocab: seq<Bytes>, x: byte, y: byte) {
    exists i :: 0 <= i < |vocab| && AdjacentIn(vocab[i], x, y)
  }

  /** The last byte of the text as the model reads it: a raw space acts as ▁. */
  function LastByte(raw: bool, s: Bytes): byte
    requires s != []
  {
    if raw && s[|s| - 1] == SPACE then 0x81 else s[|s| - 1]
  }

  /** Cutting between two bytes no piece holds side by side cuts no merge. */
  lemma PunctCutSafe(m: Model, raw: bool, left: Bytes, right: Bytes)
    requires m.WellFormed() && left != [] && right != [] && right[0] != SPACE
    requires !Adjacent(m.vocab, LastByte(raw, left), right[0])
    ensures Uncrossed(m.Rules(), m.Spelling(), MarkSpaces(raw, left), MarkSpaces(raw, right))
  {
    var l, r := MarkSpaces(raw, left), MarkSpaces(raw, right);
    MarkSpacesSnoc(raw, left);
    MarkSpacesCons(raw, right);
    assert l[|l| - 1] == LastByte(raw, left) && r[0] == right[0];
    hide MarkSpaces;
    forall a, b | m.Rules()(a, b).Rule?
      ensures !(EndsWith(l, m.Spelling()(a)) && StartsWith(r, m.Spelling()(b)))
    {
      if EndsWith(l, m.Spelling()(a)) && StartsWith(r, m.Spelling()(b)) {
        CrossingRuleAdjacent(m, l, r, a, b);
      }
    }
  }

  lemma CrossingRuleAdjacent(m: Model, l: Bytes, r: Bytes, a: Token, b: Token)
    requires m.WellFormed() && (a, b) in m.merges && l != [] && r != []
    requires EndsWith(l, m.Spelling()(a)) && StartsWith(r, m.Spelling()(b))
    ensures Adjacent(m.vocab, l[|l| - 1], r[0])
  {
    assert m.MergeWellFormed(a, b);
    var u, v := m.Spelling()(a), m.Spelling()(b);
    var piece := m.vocab[m.merges[(a, b)].0];
    assert piece == u + v;
    assert u[|u| - 1] == l[|l| - |u|..][|u| - 1] == l[|l| - 1];
    assert v[0] == r[..|v|][0] == r[0];
    assert piece[|u| - 1] == u[|u| - 1] && piece[|u|] == v[0];
    assert AdjacentIn(piece, l[|l| - 1], r[0]);
  }
}
