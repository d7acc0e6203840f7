/** Parallel chunks of SentencePiece documents: the oversized ones cut at safe fragment ranges. */
module SpChunks {
  import opened Common
  import opened Utf8
  import opened SpModel
  import opened SpFinalize
  import opened SpFragments
  import opened SpFragmentRanges
  import D = DocChunks

  /** Encoding a piece of raw text, as the start of its document or as a continuation. */
  function RawEncoder(m: Model, sp: SpeedPaths): D.Encoder {
    (b: Bytes, first: bool) => if sp.rawPrepend.Some? then EncodeRaw(m, sp, b, if first then First else Continuation) else []
  }

  function Slices(text: Bytes, ranges: seq<Range>): seq<Bytes>
    requires forall r :: r in ranges ==> r.start <= r.end <= |text|
  {
    seq(|ranges|, i requires 0 <= i < |ranges| => assert ranges[i] in ranges; text[ranges[i].start..ranges[i].end])
  }

  ghost predicate CutsUp(text: Bytes, cuts: seq<nat>) {
    && |cuts| >= 1
    && (forall i :: 0 <= i < |cuts| ==> cuts[i] <= |text|)
    && (forall i, j :: 0 <= i < j < |cuts| ==> cuts[i] <= cuts[j])
  }

  function CutPieces(text: Bytes, cuts: seq<nat>): seq<Bytes>
    requires CutsUp(text, cuts)
  {
    seq(|cuts| - 1, i requires 0 <= i < |cuts| - 1 => text[cuts[i]..cuts[i + 1]])
  }

  /** Encoding the pieces as fragments is encoding the fragments. */
  lemma {:induction false} PiecesAreFragments(m: Model, sp: SpeedPaths, text: Bytes, cuts: seq<nat>)
    requires sp.rawPrepend.Some? && CutsUp(text, cuts)
    ensures D.EncodePieces(RawEncoder(m, sp), CutPieces(text, cuts), true) == EncodeFragments(m, sp, text, cuts)
    decreases |cuts|
  {
    hide *;
    var k := |cuts| - 1;
    CutsPrefix(text, cuts);
    if k > 0 {
      PiecesAreFragments(m, sp, text, cuts[..k]);
    }
    LastPiece(m, sp, text, cuts);
    LastFragment(m, sp, text, cuts);
  }

  lemma CutsPrefix(text: Bytes, cuts: seq<nat>)
    requires CutsUp(text, cuts)
    ensures |cuts| >= 1 && (|cuts| > 1 ==> CutsUp(text, cuts[..|cuts| - 1]) && cuts[|cuts| - 2] <= cuts[|cuts| - 1] <= |text|)
    ensures forall i :: 0 <= i < |cuts| ==> cuts[i] <= |text|
    ensures forall i, j :: 0 <= i < j < |cuts| ==> cuts[i] <= cuts[j]
  {
  }

  lemma LastPiece(m: Model, sp: SpeedPaths, text: Bytes, cuts: seq<nat>)
    requires sp.rawPrepend.Some? && CutsUp(text, cuts)
    ensures var k := |cuts| - 1;
      D.EncodePieces(RawEncoder(m, sp), CutPieces(text, cuts), true) ==
        (if k == 0 then []
         else D.EncodePieces(RawEncoder(m, sp), CutPieces(text, cuts[..k]), true)
              + EncodeRaw(m, sp, text[cuts[k - 1]..cuts[k]], if k == 1 then First else Continuation))
  {
    hide EncodeRaw;
    var k := |cuts| - 1;
    if k > 0 {
      var pieces := CutPieces(text, cuts);
      assert pieces[..k - 1] == CutPieces(text, cuts[..k]);
    }
  }

  lemma LastFragment(m: Model, sp: SpeedPaths, text: Bytes, cuts: seq<nat>)
    requires sp.rawPrepend.Some? && CutsUp(text, cuts)
    ensures var k := |cuts| - 1;
      EncodeFragments(m, sp, text, cuts) ==
        (if k == 0 then []
         else EncodeFragments(m, sp, text, cuts[..k])
              + EncodeRaw(m, sp, text[cuts[k - 1]..cuts[k]], if k == 1 then First else Continuation))
  {
    hide EncodeRaw;
  }

  lemma RangesArePieces(text: Bytes, ranges: seq<Range>, cuts: seq<nat>)
    requires RangesOf(ranges, cuts) && CutsUp(text, cuts)
    ensures forall r :: r in ranges ==> r.start <= r.end <= |text|
    ensures Slices(text, ranges) == CutPieces(text, cuts)
  {
    forall r | r in ranges ensures r.start <= r.end <= |text| {
      var i :| 0 <= i < |ranges| && ranges[i] == r;
      assert cuts[i] <= cuts[i + 1] <= |text|;
    }
  }

  /** The pieces of a raw text between its safe ranges, for every target: encoding them is encoding the text. */
  method SafePieces(m: Model, sp: SpeedPaths, text: Bytes, target: nat) returns (pieces: seq<Bytes>)
    requires RawReady(m, sp, text)
    ensures pieces != [] && D.EncodePieces(RawEncoder(m, sp), pieces, true) == RawEncoder(m, sp)(text, true)
    ensures Concat(pieces) == text
  {
    hide RawReady, EncodeRaw, EncodeFragments, SafeCut, D.EncodePieces;
    var ranges, cuts := SafeFragmentRanges(m, sp, text, target);
    ReadyFacts(m, sp, text);
    CutsRise(m, sp, text, cuts);
    RangesArePieces(text, ranges, cuts);
    PiecesAreFragments(m, sp, text, cuts);
    if text == [] {
      NoTextFragment(m, sp, text, cuts);
    } else {
      FragmentsEncodeWhole(m, sp, text, cuts);
    }
    pieces := Slices(text, ranges);
    PiecesJoin(text, cuts);
  }

  /** The pieces are the text from the first cut to the last. */
  lemma {:induction false} PiecesJoin(text: Bytes, cuts: seq<nat>)
    requires CutsUp(text, cuts)
    ensures cuts[0] <= cuts[|cuts| - 1] <= |text| && Concat(CutPieces(text, cuts)) == text[cuts[0]..cuts[|cuts| - 1]]
    decreases |cuts|
  {
    var k := |cuts| - 1;
    CutsPrefix(text, cuts);
    if k > 0 {
      PiecesJoin(text, cuts[..k]);
      var pieces := CutPieces(text, cuts);
      assert pieces == CutPieces(text, cuts[..k]) + [text[cuts[k - 1]..cuts[k]]];
      ConcatSnoc(CutPieces(text, cuts[..k]), text[cuts[k - 1]..cuts[k]]);
    }
  }

  lemma CutsRise(m: Model, sp: SpeedPaths, text: Bytes, cuts: seq<nat>)
    requires if text == [] then cuts == [0, 0] else Fragments(m, sp, text, cuts)
    ensures CutsUp(text, cuts)
  {
    hide SafeCut;
    forall i | 0 <= i < |cuts| ensures cuts[i] <= |text| {
      if i < |cuts| - 1 {
        assert cuts[i] <= cuts[|cuts| - 1];
      }
    }
  }

  lemma NoTextFragment(m: Model, sp: SpeedPaths, text: Bytes, cuts: seq<nat>)
    requires sp.rawPrepend.Some? && text == [] && |cuts| == 2 && cuts[0] == cuts[1] == 0
    ensures EncodeFragments(m, sp, text, cuts) == EncodeRaw(m, sp, text, First)
  {
    FragmentsOfOne(m, sp, text, cuts);
  }

  /** No document of the list is longer. */
  function Longest(texts: seq<Bytes>): (n: nat)
    ensures forall t :: t in texts ==> |t| <= n
  {
    if texts == [] then 0
    else
      var n, last := Longest(texts[..|texts| - 1]), texts[|texts| - 1];
      assert forall t :: t in texts ==> t == last || t in texts[..|texts| - 1];
      if n < |last| then |last| else n
  }

  /** Documents over twice the target are cut, where they can be; groups aim for the target. */
  function SpSizing(sp: SpeedPaths, texts: seq<Bytes>, target: nat): D.Sizing {
    D.Sizing(if sp.rawPrepend.Some? then 2 * target else Longest(texts), 0, target, target)
  }

  lemma SpSizingIs(sp: SpeedPaths, texts: seq<Bytes>, target: nat, before: nat, text: Bytes)
    requires text in texts
    ensures var z := SpSizing(sp, texts, target);
      (|text| > z.limit <==> sp.rawPrepend.Some? && |text| > 2 * target) && D.Goal(z, before) == target
  {
  }

  /** `sp_build_chunks`: the chunks are the documents in order, the oversized ones in fragments, and stand for them. Without
      the raw fast path no document is cut. */
  method SpBuildChunks(m: Model, sp: SpeedPaths, texts: seq<Bytes>, target: nat, ghost enc: D.Encoder) returns (chunks: seq<D.Chunk>)
    requires sp.rawPrepend.Some? ==> enc == RawEncoder(m, sp) && forall t :: t in texts ==> RawReady(m, sp, t)
    ensures D.Consecutive(chunks) && D.Rows(enc, chunks) == D.EncodeAll(enc, texts)
    ensures var z := SpSizing(sp, texts, target); D.Sources(chunks) == D.Cut(texts, z.limit) && D.Packed(z, chunks)
  {
    hide *;
    ghost var z := SpSizing(sp, texts, target);
    chunks := [];
    var group: seq<Bytes> := [];
    var acc: nat := 0;
    D.BuiltStart(enc, z, texts);
    D.OpenNone(z, 0);
    for i := 0 to |texts|
      invariant D.Built(enc, z, chunks, |chunks|, group, texts[..i]) && D.Open(z, group, acc, D.SizeOf(chunks))
    {
      var text := texts[i];
      ghost var before, closed := D.SizeOf(chunks), |chunks|;
      SpSizingIs(sp, texts, target, before, text);
      assert texts[..i + 1] == texts[..i] + [text] && text in texts;
      if sp.rawPrepend.Some? && |text| > 2 * target {
        if group != [] {
          D.OpenOk(z, group, acc, before);
          D.BuiltFlush(enc, z, chunks, group, texts[..i]);
          chunks, group, acc := chunks + [D.Docs(group)], [], 0;
        } else {
          D.OpenOk(z, group, acc, before);
          D.NoBytes();
        }
        D.BuiltRows(enc, z, chunks, closed, texts[..i]);
        var pieces := SafePieces(m, sp, text, target);
        var more := D.PushRun(enc, chunks, pieces, text);
        D.BuiltFragments(enc, z, chunks, closed, texts[..i], text, pieces);
        chunks := more;
        D.OpenNone(z, D.SizeOf(chunks));
        continue;
      }
      D.BuiltAdd(enc, z, chunks, |chunks|, group, texts[..i], text);
      D.OpenAdd(z, group, acc, before, text);
      group, acc := group + [text], acc + |text|;
      if acc >= target {
        D.BuiltFlush(enc, z, chunks, group, texts[..i + 1]);
        chunks, group, acc := chunks + [D.Docs(group)], [], 0;
        D.OpenNone(z, D.SizeOf(chunks));
      }
    }
    assert texts[..|texts|] == texts;
    ghost var closed := |chunks|;
    if group != [] {
      D.OpenOk(z, group, acc, D.SizeOf(chunks));
      D.BuiltFlush(enc, z, chunks, group, texts);
      chunks := chunks + [D.Docs(group)];
    }
    D.BuiltEnd(enc, z, chunks, closed, texts);
  }
}
