/** Deriving the encode fast-path configuration from the tables: `finalize_speed_paths`. */
module SpFinalize {
  import opened Common
  import opened Utf8
  import opened SpModel
  import opened SpBoundaries

  datatype RawPrepend = Never | Unguarded | GuardedAlways | GuardedFirst

  datatype SpeedPaths = SpeedPaths(
    wordSplit: WordSplit,
    rawPrepend: Option<RawPrepend>,
    cross: seq<CrossPiece>,
    crossPrev: set<byte>,
    splitBytes: seq<byte>,
    splitSafe: map<byte, set<byte>>)

  /** `. , " ) ; : ! ?`, the punctuation units may be split before. */
  const PUNCTUATION: Bytes := [0x2E, 0x2C, 0x22, 0x29, 0x3B, 0x3A, 0x21, 0x3F]

  /** The predecessors `x` after which splitting before `b` is recorded as safe. */
  function SafeBefore(sp: SpeedPaths, b: byte): set<byte> {
    if b in sp.splitSafe then sp.splitSafe[b] else {}
  }

  /** What the encode loop relies on. */
  ghost predicate Finalized(m: Model, sp: SpeedPaths) {
    && (sp.wordSplit == EveryMark <==> m.metaspace.Some? && m.metaspace.value.split)
    && (sp.wordSplit == SpaceRuns ==> CrossListed(m.vocab, sp.cross))
    && (sp.wordSplit == EveryMark ==> sp.cross == [])
    && (forall x :: x in sp.cross ==> x.pre != [] && x.pre[|x.pre| - 1] in sp.crossPrev)
    && (forall b :: b in sp.splitBytes ==> b < 0x80 && b != SPACE)
    && (forall b, x :: x in SafeBefore(sp, b) ==> b in PUNCTUATION && !Adjacent(m.vocab, x, b))
    && sp.rawPrepend == ComputeRawPrepend(m, sp.wordSplit)
  }

  predicate IsSpaceReplace(op: NormOp) {
    op == Replace([SPACE], MARK)
  }

  function FromMetaspace(metaspace: Option<Metaspace>): RawPrepend {
    match metaspace
    case None => Never
    case Some(ms) =>
      match ms.prepend
      case PrependNever => Never
      case PrependAlways => GuardedAlways
      case PrependFirst => GuardedFirst
  }

  /** Raw-path eligibility: the normalizer reduces to an optional ▁ prepend and space→▁. */
  function ComputeRawPrepend(m: Model, split: WordSplit): Option<RawPrepend> {
    if split == NoSplit || m.normAddedTokens != [] then None
    else if |m.normOps| == 2 && m.normOps[0] == Prepend(MARK) && IsSpaceReplace(m.normOps[1]) then
      if split != EveryMark then Some(Unguarded) else None
    else if |m.normOps| == 1 && IsSpaceReplace(m.normOps[0]) then Some(FromMetaspace(m.metaspace))
    else if m.normOps == [] && m.metaspace.Some? then Some(FromMetaspace(m.metaspace))
    else None
  }

  /** When the fast path applies: nothing is matched on normalized text, and the normalizer does no more than put ▁ in
      front and in place of spaces; putting one in front regardless of what follows does not go with splitting at marks. */
  lemma RawPathApplies(m: Model, split: WordSplit)
    ensures ComputeRawPrepend(m, split).Some? <==>
      && split != NoSplit && m.normAddedTokens == []
      && (|| (m.normOps == [Prepend(MARK), Replace([SPACE], MARK)] && split != EveryMark)
          || m.normOps == [Replace([SPACE], MARK)]
          || (m.normOps == [] && m.metaspace.Some?))
  {
    assert |m.normOps| == 2 ==> m.normOps == [m.normOps[0], m.normOps[1]];
    assert |m.normOps| == 1 ==> m.normOps == [m.normOps[0]];
  }

  // ---------------------------------------------------------------------------
  // Crossing pieces
  // ---------------------------------------------------------------------------

  /** The piece around each of its interior marks before `pos`, in order. */
  function CrossingsBelow(piece: Bytes, pos: nat): seq<CrossPiece> {
    if pos == 0 then []
    else CrossingsBelow(piece, pos - 1) + if InteriorMark(piece, pos - 1) then [CrossPiece(piece[..pos - 1], piece[pos + 2..])] else []
  }

  function Crossings(piece: Bytes): seq<CrossPiece> {
    CrossingsBelow(piece, |piece|)
  }

  /** The crossings of every text piece of a vocabulary. */
  function VocabCrossings(vocab: seq<Bytes>): seq<CrossPiece> {
    if vocab == [] then []
    else VocabCrossings(vocab[..|vocab| - 1]) + if Valid(vocab[|vocab| - 1]) then Crossings(vocab[|vocab| - 1]) else []
  }

  /** Few enough, and free of marks and spaces: a comparison of bytes can guard the boundaries. */
  predicate Guardable(crossings: seq<CrossPiece>) {
    |crossings| <= MAX_CROSS_PIECES && forall x :: x in crossings ==> Clean(x.pre) && Clean(x.post)
  }

  lemma {:induction false} CrossingsBelowHold(piece: Bytes, pos: nat, p: nat)
    requires p < pos && InteriorMark(piece, p)
    ensures CrossPiece(piece[..p], piece[p + 3..]) in CrossingsBelow(piece, pos)
  {
    if p < pos - 1 {
      CrossingsBelowHold(piece, pos - 1, p);
    }
  }

  lemma {:induction false} CrossingsHavePre(piece: Bytes, pos: nat)
    ensures forall x :: x in CrossingsBelow(piece, pos) ==> x.pre != []
  {
    if pos > 0 {
      CrossingsHavePre(piece, pos - 1);
    }
  }

  /** Guardable crossings are what the scanner needs listed. */
  lemma {:induction false} CrossingsListed(vocab: seq<Bytes>, crossings: seq<CrossPiece>)
    requires forall x :: x in VocabCrossings(vocab) ==> x in crossings
    requires forall x :: x in crossings ==> x.pre != [] && Clean(x.pre) && Clean(x.post)
    ensures CrossListed(vocab, crossings)
  {
    hide Clean, Crossings;
    if vocab != [] {
      var k := |vocab| - 1;
      CrossingsListed(vocab[..k], crossings);
      forall i, p | 0 <= i < |vocab| && Valid(vocab[i]) && InteriorMark(vocab[i], p)
        ensures CrossPiece(vocab[i][..p], vocab[i][p + 3..]) in crossings
      {
        MarkWithin(vocab[i], p);
        if i < k {
          assert vocab[..k][i] == vocab[i];
        } else {
          CrossingsHold(vocab[k], p);
        }
      }
    }
  }

  lemma MarkWithin(piece: Bytes, p: int)
    requires InteriorMark(piece, p)
    ensures 0 < p && p + 3 <= |piece|
  {
  }

  lemma CrossingsHold(piece: Bytes, p: nat)
    requires InteriorMark(piece, p)
    ensures p + 3 <= |piece| && CrossPiece(piece[..p], piece[p + 3..]) in Crossings(piece)
  {
    CrossingsBelowHold(piece, |piece|, p);
  }

  lemma {:induction false} VocabCrossingsHavePre(vocab: seq<Bytes>)
    ensures forall x :: x in VocabCrossings(vocab) ==> x.pre != []
  {
    if vocab != [] {
      VocabCrossingsHavePre(vocab[..|vocab| - 1]);
      CrossingsHavePre(vocab[|vocab| - 1], |vocab[|vocab| - 1]|);
    }
  }

  lemma VocabGuarded(vocab: seq<Bytes>)
    requires Guardable(VocabCrossings(vocab))
    ensures CrossListed(vocab, VocabCrossings(vocab))
  {
    VocabCrossingsHavePre(vocab);
    CrossingsListed(vocab, VocabCrossings(vocab));
  }

  lemma MarkBytes(s: Bytes, p: int)
    ensures OccursAt(s, MARK, p) <==> 0 <= p <= |s| - 3 && s[p] == 0xE2 && s[p + 1] == 0x96 && s[p + 2] == 0x81
  {
    if 0 <= p <= |s| - 3 {
      assert s[p..p + 3] == [s[p], s[p + 1], s[p + 2]];
    }
  }

  /** The character at `pos`, byte by byte. */
  lemma CharBytes(piece: Bytes, pos: nat)
    requires pos < |piece| && CharLen(piece[pos..]) > 0
    ensures var n := CharLen(piece[pos..]);
      && pos + n <= |piece| && !IsCont(piece[pos])
      && (forall p :: pos < p < pos + n ==> IsCont(piece[p]))
      && (piece[pos] == 0xE2 ==> n == 3)
  {
    var rest := piece[pos..];
    assert rest[0] == piece[pos];
    forall p | pos < p < pos + CharLen(rest) ensures IsCont(piece[p]) {
      assert rest[p - pos] == piece[p];
    }
  }

  lemma NoMarkInside(piece: Bytes, pos: nat, p: nat)
    requires pos < |piece| && CharLen(piece[pos..]) > 0 && pos < p < pos + CharLen(piece[pos..])
    ensures !OccursAt(piece, MARK, p)
  {
    CharBytes(piece, pos);
    MarkBytes(piece, p);
  }

  /** Around the character at `pos`, marks are characters. */
  lemma MarkIsChar(piece: Bytes, pos: nat)
    requires pos < |piece| && CharLen(piece[pos..]) > 0
    ensures var n := CharLen(piece[pos..]);
      && (piece[pos..pos + n] == MARK <==> OccursAt(piece, MARK, pos))
      && (piece[pos..pos + n] == MARK <==> OccursAt(piece, MARK, pos + n - 3))
  {
    var n := CharLen(piece[pos..]);
    CharBytes(piece, pos);
    MarkBytes(piece, pos);
    MarkBytes(piece, pos + n - 3);
    hide CharLen, OccursAt;
    if piece[pos] == 0xE2 {
      assert piece[pos..pos + n] == [piece[pos], piece[pos + 1], piece[pos + 2]];
    } else {
      assert piece[pos..pos + n][0] == piece[pos];
    }
  }

  lemma {:induction false} CrossingsSame(piece: Bytes, pos: nat, k: nat)
    requires pos < k && forall p :: pos < p < k ==> !OccursAt(piece, MARK, p)
    ensures CrossingsBelow(piece, k) == CrossingsBelow(piece, pos + 1)
    decreases k
  {
    if pos + 1 < k {
      CrossingsSame(piece, pos, k - 1);
    }
  }

  /** What the scan knows after the character at `pos`. */
  lemma ScanChar(piece: Bytes, pos: nat)
    requires pos < |piece| && Valid(piece[pos..])
    ensures var n := CharLen(piece[pos..]);
      && 0 < n && pos + n <= |piece| && Valid(piece[pos + n..])
      && (piece[pos..pos + n] == MARK ==> n == 3)
      && (piece[pos..pos + n] == MARK <==> OccursAt(piece, MARK, pos + n - 3))
      && CrossingsBelow(piece, pos + n) == CrossingsBelow(piece, pos)
         + if piece[pos..pos + n] == MARK && pos > 0 && !OccursAt(piece, MARK, pos - 3) then [CrossPiece(piece[..pos], piece[pos + 3..])] else []
  {
    var n := CharLen(piece[pos..]);
    MarkIsChar(piece, pos);
    assert piece[pos..][n..] == piece[pos + n..];
    forall p | pos < p < pos + n ensures !OccursAt(piece, MARK, p) { NoMarkInside(piece, pos, p); }
    CrossingsSame(piece, pos, pos + n);
  }

  lemma {:induction false} CrossingsGrow(piece: Bytes, pos: nat, k: nat)
    requires pos <= k
    ensures CrossingsBelow(piece, pos) <= CrossingsBelow(piece, k)
  {
    if pos < k {
      CrossingsGrow(piece, pos, k - 1);
    }
  }

  lemma NotGuardable(some: seq<CrossPiece>, all: seq<CrossPiece>)
    requires some <= all && !Guardable(some)
    ensures !Guardable(all)
  {
    hide Clean;
    assert forall x :: x in some ==> x in all;
  }

  lemma GuardableSnoc(crossings: seq<CrossPiece>, x: CrossPiece)
    ensures Guardable(crossings) ==> |crossings| <= MAX_CROSS_PIECES
    ensures Guardable(crossings + [x]) <==> Guardable(crossings) && Clean(x.pre) && Clean(x.post) && |crossings| < MAX_CROSS_PIECES
  {
    hide Clean;
    assert forall y :: y in crossings + [x] <==> y in crossings || y == x;
  }

  lemma NoCrossings(piece: Bytes)
    ensures CrossingsBelow(piece, 0) == [] && Crossings(piece) == CrossingsBelow(piece, |piece|)
  {
  }

  /** The scan of one piece; None when a crossing is too complex for a byte compare or there are too many. */
  method ScanPiece(piece: Bytes, out: seq<CrossPiece>) returns (out': Option<seq<CrossPiece>>)
    requires Valid(piece) && Guardable(out)
    ensures out' == if Guardable(out + Crossings(piece)) then Some(out + Crossings(piece)) else None
  {
    hide *;
    var acc := out;
    var pos: nat := 0;
    var prevIsMark := true;
    NoCrossings(piece);
    assert piece[0..] == piece && out + [] == out;
    while pos < |piece|
      invariant pos <= |piece| && Valid(piece[pos..])
      invariant prevIsMark == (pos == 0 || OccursAt(piece, MARK, pos - 3))
      invariant acc == out + CrossingsBelow(piece, pos) && Guardable(acc)
    {
      var n := CharLen(piece[pos..]);
      var c := piece[pos..pos + n];
      ScanChar(piece, pos);
      if c == MARK && !prevIsMark {
        var pre, post := piece[..pos], piece[pos + 3..];
        GuardableSnoc(acc, CrossPiece(pre, post));
        assert out + CrossingsBelow(piece, pos + n) == acc + [CrossPiece(pre, post)];
        if !Clean(pre) || !Clean(post) || |acc| == MAX_CROSS_PIECES {
          CrossingsGrow(piece, pos + n, |piece|);
          NotGuardable(acc + [CrossPiece(pre, post)], out + Crossings(piece));
          return None;
        }
        acc := acc + [CrossPiece(pre, post)];
      }
      prevIsMark := c == MARK;
      pos := pos + n;
    }
    return Some(acc);
  }

  lemma {:induction false} VocabCrossingsGrow(vocab: seq<Bytes>, i: nat)
    requires i <= |vocab|
    ensures VocabCrossings(vocab[..i]) <= VocabCrossings(vocab)
  {
    if i < |vocab| {
      var front := vocab[..|vocab| - 1];
      VocabCrossingsGrow(front, i);
      assert front[..i] == vocab[..i];
    } else {
      assert vocab[..i] == vocab;
    }
  }

  /** `unit_crossing_pieces`: all of them, unless one is unclean or there are more than 32. */
  method UnitCrossingPieces(vocab: seq<Bytes>) returns (cross: Option<seq<CrossPiece>>)
    ensures cross == if Guardable(VocabCrossings(vocab)) then Some(VocabCrossings(vocab)) else None
  {
    hide Guardable, Crossings;
    var out: seq<CrossPiece> := [];
    assert Guardable(out) by { NoneGuardable(); }
    for i := 0 to |vocab|
      invariant out == VocabCrossings(vocab[..i]) && Guardable(out)
    {
      assert vocab[..i + 1][..i] == vocab[..i];
      if Valid(vocab[i]) {
        var scanned := ScanPiece(vocab[i], out);
        if scanned.None? {
          VocabCrossingsGrow(vocab, i + 1);
          NotGuardable(VocabCrossings(vocab[..i + 1]), VocabCrossings(vocab));
          return None;
        }
        out := scanned.value;
      }
    }
    assert vocab[..|vocab|] == vocab;
    return Some(out);
  }

  lemma NoneGuardable()
    ensures Guardable([])
  {
  }

  // ---------------------------------------------------------------------------
  // Adjacent bytes
  // ---------------------------------------------------------------------------

  method BuildAdjacency(vocab: seq<Bytes>) returns (adjacent: set<(byte, byte)>)
    ensures forall x, y :: (x, y) in adjacent <==> Adjacent(vocab, x, y)
  {
    adjacent := {};
    for i := 0 to |vocab|
      invariant forall x, y :: (x, y) in adjacent <==> exists k :: 0 <= k < i && AdjacentIn(vocab[k], x, y)
    {
      var piece := vocab[i];
      var inPiece := PieceAdjacency(piece);
      adjacent := adjacent + inPiece;
    }
  }

  method PieceAdjacency(piece: Bytes) returns (adjacent: set<(byte, byte)>)
    ensures forall x, y :: (x, y) in adjacent <==> AdjacentIn(piece, x, y)
  {
    adjacent := {};
    if |piece| < 2 {
      return;
    }
    for p := 0 to |piece| - 1
      invariant forall x, y :: (x, y) in adjacent <==> exists q :: 0 <= q < p && piece[q] == x && piece[q + 1] == y
    {
      adjacent := adjacent + {(piece[p], piece[p + 1])};
    }
  }

  ghost function SafePredecessors(vocab: seq<Bytes>, b: byte): set<byte> {
    set x: byte | 0 <= x as int < 256 && !Adjacent(vocab, x, b)
  }

  /** The split bytes and their safe predecessors are all there are; a byte that is never safe to split before leaves
      slot 0. */
  ghost predicate SplitTablesOf(vocab: seq<Bytes>, splitBytes: seq<byte>, splitSafe: map<byte, set<byte>>, slots: nat)
    requires slots <= |PUNCTUATION|
  {
    && |splitBytes| == slots
    && (forall slot :: 0 <= slot < slots ==>
          splitBytes[slot] == if SafePredecessors(vocab, PUNCTUATION[slot]) != {} then PUNCTUATION[slot] else 0)
    && (forall b :: b in splitSafe <==> b in PUNCTUATION[..slots] && SafePredecessors(vocab, b) != {})
    && (forall b :: b in splitSafe ==> splitSafe[b] == SafePredecessors(vocab, b))
  }

  method SplitTables(vocab: seq<Bytes>) returns (splitBytes: seq<byte>, splitSafe: map<byte, set<byte>>)
    ensures SplitTablesOf(vocab, splitBytes, splitSafe, |PUNCTUATION|)
  {
    hide Adjacent;
    var adjacent := BuildAdjacency(vocab);
    splitBytes, splitSafe := [], map[];
    for slot := 0 to |PUNCTUATION|
      invariant SplitTablesOf(vocab, splitBytes, splitSafe, slot)
    {
      var b := PUNCTUATION[slot];
      var safe := set x: byte | 0 <= x as int < 256 && (x, b) !in adjacent;
      assert safe == SafePredecessors(vocab, b);
      SplitTablesStep(vocab, splitBytes, splitSafe, slot);
      if safe != {} {
        splitBytes, splitSafe := splitBytes + [b], splitSafe[b := safe];
      } else {
        splitBytes := splitBytes + [0];
      }
    }
  }

  lemma SplitTablesStep(vocab: seq<Bytes>, splitBytes: seq<byte>, splitSafe: map<byte, set<byte>>, slot: nat)
    requires slot < |PUNCTUATION| && SplitTablesOf(vocab, splitBytes, splitSafe, slot)
    ensures var b := PUNCTUATION[slot];
      var safe := SafePredecessors(vocab, b);
      SplitTablesOf(vocab, splitBytes + [if safe != {} then b else 0], if safe != {} then splitSafe[b := safe] else splitSafe, slot + 1)
  {
    hide SafePredecessors;
    assert PUNCTUATION[..slot + 1] == PUNCTUATION[..slot] + [PUNCTUATION[slot]];
  }

  lemma SplitTablesSound(vocab: seq<Bytes>, splitBytes: seq<byte>, splitSafe: map<byte, set<byte>>)
    requires SplitTablesOf(vocab, splitBytes, splitSafe, |PUNCTUATION|)
    ensures forall b :: b in splitBytes ==> b < 0x80 && b != SPACE
    ensures forall b, x :: b in splitSafe && x in splitSafe[b] ==> b in PUNCTUATION && !Adjacent(vocab, x, b)
  {
    hide Adjacent;
    assert PUNCTUATION[..|PUNCTUATION|] == PUNCTUATION;
    assert forall b :: b in PUNCTUATION ==> b < 0x80 && b != SPACE;
  }

  /** The mode: every mark where the pre-tokenizer splits there, runs of marks where the crossings can be guarded. */
  function SplitMode(m: Model): WordSplit {
    if m.metaspace.Some? && m.metaspace.value.split then EveryMark
    else if Guardable(VocabCrossings(m.vocab)) then SpaceRuns
    else NoSplit
  }

  method FinalizeSpeedPaths(m: Model) returns (sp: SpeedPaths)
    ensures Finalized(m, sp)
    ensures sp.wordSplit == SplitMode(m) && sp.cross == (if SplitMode(m) == SpaceRuns then VocabCrossings(m.vocab) else [])
    ensures forall b :: b in sp.crossPrev <==> exists x :: x in sp.cross && x.pre != [] && x.pre[|x.pre| - 1] == b
    ensures SplitMode(m) != NoSplit ==> SplitTablesOf(m.vocab, sp.splitBytes, sp.splitSafe, |PUNCTUATION|)
    ensures SplitMode(m) == NoSplit ==> sp.splitSafe == map[]
  {
    var split, cross: seq<CrossPiece>, crossPrev: set<byte> := NoSplit, [], {};
    if m.metaspace.Some? && m.metaspace.value.split {
      split := EveryMark;
    } else {
      var found := UnitCrossingPieces(m.vocab);
      if found.Some? {
        VocabGuarded(m.vocab);
        split, cross := SpaceRuns, found.value;
        crossPrev := set x | x in cross && x.pre != [] :: x.pre[|x.pre| - 1];
      }
    }
    var splitBytes: seq<byte>, splitSafe: map<byte, set<byte>> := seq(|PUNCTUATION|, i => 0), map[];
    if split != NoSplit {
      splitBytes, splitSafe := SplitTables(m.vocab);
      SplitTablesSound(m.vocab, splitBytes, splitSafe);
    }
    hide Adjacent, CrossListed, VocabCrossings, Guardable, SplitTablesOf, ComputeRawPrepend;
    CrossPieces(m.vocab, cross);
    sp := SpeedPaths(split, ComputeRawPrepend(m, split), cross, crossPrev, splitBytes, splitSafe);
  }

  lemma CrossPieces(vocab: seq<Bytes>, cross: seq<CrossPiece>)
    ensures CrossListed(vocab, cross) ==> forall x :: x in cross ==> x.pre != []
  {
  }

  /** Decoding strips a leading space exactly for the schemes that can put one there. */
  predicate PrependsSpace(m: Model) {
    || (m.metaspace.Some? && m.metaspace.value.prepend != PrependNever)
    || exists op :: op in m.normOps && op.Prepend?
  }

  lemma RawPrependsSpace(m: Model, split: WordSplit)
    requires ComputeRawPrepend(m, split).Some?
    ensures PrependsSpace(m) <==> ComputeRawPrepend(m, split) != Some(Never)
  {
    if |m.normOps| == 2 && m.normOps[0] == Prepend(MARK) {
      assert m.normOps[0] in m.normOps;
    }
  }
}
