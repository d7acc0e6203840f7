/** Grouping documents into parallel chunks, splitting oversized ones, and putting the rows back together. */
module DocChunks {
  import opened Common
  import opened Utf8

  type Id = nat

  /** Encodes a piece of a document; the flag says whether the piece starts its document. */
  type Encoder = (Bytes, bool) -> seq<Id>

  /** Cuts a document into consecutive pieces of about the given size. */
  type Splitter = (Bytes, nat) -> seq<Bytes>

  const USIZE_MAX: nat := 0xFFFF_FFFF_FFFF_FFFF

  function Max(a: nat, b: nat): (r: nat)
    ensures a <= r && b <= r && (r == a || r == b)
  {
    if a < b then b else a
  }

  datatype Chunk = Docs(docs: seq<Bytes>) | Fragment(bytes: Bytes, first: bool)

  /** Output of one chunk: ids, a length per row, and whether the first row continues the previous chunk's last. */
  datatype ChunkTokens = ChunkTokens(ids: seq<Id>, lens: seq<nat>, continues: bool)

  // ---------------------------------------------------------------------------
  // Rows
  // ---------------------------------------------------------------------------

  function EncodeAll(enc: Encoder, docs: seq<Bytes>): (rows: seq<seq<Id>>)
    ensures |rows| == |docs|
  {
    if docs == [] then [] else EncodeAll(enc, docs[..|docs| - 1]) + [enc(docs[|docs| - 1], true)]
  }

  function EncodePieces(enc: Encoder, pieces: seq<Bytes>, first: bool): seq<Id> {
    if pieces == [] then []
    else EncodePieces(enc, pieces[..|pieces| - 1], first) + enc(pieces[|pieces| - 1], first && |pieces| == 1)
  }

  /** Add a chunk's rows to the rows so far: a continuing fragment extends the last one. */
  function AddRows(enc: Encoder, rows: seq<seq<Id>>, c: Chunk): seq<seq<Id>> {
    match c
    case Docs(docs) => rows + EncodeAll(enc, docs)
    case Fragment(bytes, first) =>
      if first || rows == [] then rows + [enc(bytes, first)]
      else rows[..|rows| - 1] + [rows[|rows| - 1] + enc(bytes, first)]
  }

  /** The document rows a chunk list stands for. */
  function Rows(enc: Encoder, chunks: seq<Chunk>): seq<seq<Id>> {
    if chunks == [] then [] else AddRows(enc, Rows(enc, chunks[..|chunks| - 1]), chunks[|chunks| - 1])
  }

  lemma RowsSnoc(enc: Encoder, chunks: seq<Chunk>, c: Chunk)
    ensures Rows(enc, chunks + [c]) == AddRows(enc, Rows(enc, chunks), c)
  {
    assert (chunks + [c])[..|chunks|] == chunks;
  }

  lemma {:induction false} EncodeAllPlus(enc: Encoder, a: seq<Bytes>, b: seq<Bytes>)
    ensures EncodeAll(enc, a + b) == EncodeAll(enc, a) + EncodeAll(enc, b)
  {
    if b == [] {
      assert a + b == a;
    } else {
      var k := |b| - 1;
      assert (a + b)[..|a + b| - 1] == a + b[..k];
      EncodeAllPlus(enc, a, b[..k]);
    }
  }

  lemma EncodeAllSnoc(enc: Encoder, docs: seq<Bytes>, doc: Bytes)
    ensures EncodeAll(enc, docs + [doc]) == EncodeAll(enc, docs) + [enc(doc, true)]
  {
    assert (docs + [doc])[..|docs|] == docs;
  }

  // ---------------------------------------------------------------------------
  // The splitter's contract
  // ---------------------------------------------------------------------------

  /** Pieces of a document are never none, are its bytes in order, and encode to what the document encodes to. */
  ghost predicate SplitOk(enc: Encoder, split: Splitter) {
    forall doc: Bytes, target: nat :: doc != [] ==>
      split(doc, target) != [] && Concat(split(doc, target)) == doc && EncodePieces(enc, split(doc, target), true) == enc(doc, true)
  }

  /** Byte-level encoders do not look at where a piece stands. */
  ghost predicate Positionless(enc: Encoder) {
    forall b: Bytes :: enc(b, true) == enc(b, false)
  }

  lemma {:induction false} PiecesPositionless(enc: Encoder, pieces: seq<Bytes>)
    requires Positionless(enc)
    ensures EncodePieces(enc, pieces, true) == EncodePieces(enc, pieces, false)
  {
    if pieces != [] {
      PiecesPositionless(enc, pieces[..|pieces| - 1]);
    }
  }

  // ---------------------------------------------------------------------------
  // Fragments of one document
  // ---------------------------------------------------------------------------

  /** A document's fragments are consecutive: one that continues stands right behind another fragment. */
  ghost predicate Consecutive(chunks: seq<Chunk>) {
    forall i :: 0 <= i < |chunks| && chunks[i].Fragment? && !chunks[i].first ==> i > 0 && chunks[i - 1].Fragment?
  }

  ghost predicate EndsInFragment(chunks: seq<Chunk>) {
    chunks != [] && chunks[|chunks| - 1].Fragment?
  }

  lemma ConsecutiveSnoc(chunks: seq<Chunk>, c: Chunk)
    requires Consecutive(chunks) && (c.Docs? || c.first || EndsInFragment(chunks))
    ensures Consecutive(chunks + [c]) && (c.Fragment? ==> EndsInFragment(chunks + [c]))
  {
  }

  /** The chunk list after some pieces of one document, of which `done` is encoded so far. */
  ghost predicate Growing(enc: Encoder, rows: seq<seq<Id>>, chunks: seq<Chunk>, first: bool, done: seq<Id>) {
    && Consecutive(chunks)
    && (if first then Rows(enc, chunks) == rows && done == [] else Rows(enc, chunks) == rows + [done] && EndsInFragment(chunks))
  }

  lemma GrowStep(enc: Encoder, rows: seq<seq<Id>>, chunks: seq<Chunk>, first: bool, done: seq<Id>, piece: Bytes)
    requires Growing(enc, rows, chunks, first, done)
    ensures Growing(enc, rows, chunks + [Fragment(piece, first)], false, done + enc(piece, first))
  {
    hide Rows, Consecutive;
    var c := Fragment(piece, first);
    ConsecutiveSnoc(chunks, c);
    RowsSnoc(enc, chunks, c);
    if first {
      assert done + enc(piece, first) == enc(piece, first);
    } else {
      assert (rows + [done])[..|rows|] == rows;
    }
  }

  lemma GrowStart(enc: Encoder, chunks: seq<Chunk>)
    requires Consecutive(chunks)
    ensures Growing(enc, Rows(enc, chunks), chunks, true, [])
  {
  }

  lemma GrowEnd(enc: Encoder, rows: seq<seq<Id>>, chunks: seq<Chunk>, first: bool, done: seq<Id>, row: seq<Id>)
    requires Growing(enc, rows, chunks, first, done) && !first && done == row
    ensures Consecutive(chunks) && Rows(enc, chunks) == rows + [row]
  {
  }

  lemma PiecesSnoc(enc: Encoder, pieces: seq<Bytes>, i: nat, first: bool)
    requires i < |pieces|
    ensures EncodePieces(enc, pieces[..i + 1], first) == EncodePieces(enc, pieces[..i], first) + enc(pieces[i], first && i == 0)
  {
    assert pieces[..i + 1][..i] == pieces[..i];
  }

  lemma PiecesNone(enc: Encoder, pieces: seq<Bytes>, done: seq<Id>, first: bool)
    ensures done + EncodePieces(enc, pieces[..0], first) == done
  {
    assert pieces[..0] == [];
  }

  /** Push every piece of a run as a fragment, the document's first one flagged. */
  method PushPieces(ghost enc: Encoder, chunks: seq<Chunk>, pieces: seq<Bytes>, first: bool, ghost rows: seq<seq<Id>>, ghost done: seq<Id>)
    returns (chunks': seq<Chunk>, first': bool)
    requires Growing(enc, rows, chunks, first, done)
    ensures first' == (first && pieces == [])
    ensures Growing(enc, rows, chunks', first', done + EncodePieces(enc, pieces, first))
    ensures chunks' == chunks + Fragments(pieces, first)
  {
    hide *;
    chunks', first' := chunks, first;
    PiecesNone(enc, pieces, done, first);
    FragmentsNone(pieces, first);
    for i := 0 to |pieces|
      invariant first' == (first && i == 0)
      invariant Growing(enc, rows, chunks', first', done + EncodePieces(enc, pieces[..i], first))
      invariant chunks' == chunks + Fragments(pieces[..i], first)
    {
      FragmentsSnoc(pieces, i, first);
      ghost var acc := EncodePieces(enc, pieces[..i], first);
      GrowStep(enc, rows, chunks', first', done + acc, pieces[i]);
      PiecesSnoc(enc, pieces, i, first);
      assert done + acc + enc(pieces[i], first') == done + (acc + enc(pieces[i], first'));
      chunks', first' := chunks' + [Fragment(pieces[i], first')], false;
    }
    assert pieces[..|pieces|] == pieces;
  }

  /** The pieces of one document as fragments, the first one flagged. */
  function Fragments(pieces: seq<Bytes>, first: bool): seq<Chunk> {
    seq(|pieces|, i requires 0 <= i < |pieces| => Fragment(pieces[i], first && i == 0))
  }

  lemma FragmentsNone(pieces: seq<Bytes>, first: bool)
    ensures Fragments(pieces[..0], first) == []
  {
  }

  lemma FragmentsSnoc(pieces: seq<Bytes>, i: nat, first: bool)
    requires i < |pieces|
    ensures Fragments(pieces[..i + 1], first) == Fragments(pieces[..i], first) + [Fragment(pieces[i], first && i == 0)]
  {
  }

  lemma FragmentsPlus(a: seq<Bytes>, b: seq<Bytes>, first: bool)
    ensures Fragments(a + b, first) == Fragments(a, first) + Fragments(b, first && a == [])
  {
  }

  /** Pieces that start in the head of the document, or are short, stay whole; the others are split again. */
  function Resplit(split: Splitter, pieces: seq<Bytes>, headLen: nat, tailTarget: nat): seq<Bytes> {
    if pieces == [] then []
    else
      var k := |pieces| - 1;
      Resplit(split, pieces[..k], headLen, tailTarget)
      + if |Concat(pieces[..k])| < headLen || |pieces[k]| <= tailTarget then [pieces[k]] else split(pieces[k], tailTarget)
  }

  lemma {:induction false} ResplitKeeps(enc: Encoder, split: Splitter, pieces: seq<Bytes>, headLen: nat, tailTarget: nat)
    requires SplitOk(enc, split)
    ensures Concat(Resplit(split, pieces, headLen, tailTarget)) == Concat(pieces)
    ensures pieces != [] ==> Resplit(split, pieces, headLen, tailTarget) != []
  {
    if pieces != [] {
      var k := |pieces| - 1;
      ResplitKeeps(enc, split, pieces[..k], headLen, tailTarget);
      var front := Resplit(split, pieces[..k], headLen, tailTarget);
      assert pieces == pieces[..k] + [pieces[k]];
      ConcatSnoc(pieces[..k], pieces[k]);
      ConcatSnoc(front, pieces[k]);
      ConcatPlus(front, split(pieces[k], tailTarget));
    }
  }

  lemma ResplitSnoc(split: Splitter, pieces: seq<Bytes>, i: nat, headLen: nat, tailTarget: nat, run: seq<Bytes>)
    requires i < |pieces|
    requires run == if |Concat(pieces[..i])| < headLen || |pieces[i]| <= tailTarget then [pieces[i]] else split(pieces[i], tailTarget)
    ensures Resplit(split, pieces[..i + 1], headLen, tailTarget) == Resplit(split, pieces[..i], headLen, tailTarget) + run
    ensures |Concat(pieces[..i + 1])| == |Concat(pieces[..i])| + |pieces[i]|
  {
    assert pieces[..i + 1][..i] == pieces[..i] && pieces[..i + 1] == pieces[..i] + [pieces[i]];
    ConcatSnoc(pieces[..i], pieces[i]);
  }

  lemma ResplitNone(split: Splitter, pieces: seq<Bytes>, headLen: nat, tailTarget: nat)
    ensures Resplit(split, pieces[..0], headLen, tailTarget) == [] && |Concat(pieces[..0])| == 0
  {
  }

  /** `push_fragment_chunks`: big pieces over the head of the document, each later one split again when it is long. */
  method PushFragmentChunks(ghost enc: Encoder, split: Splitter, chunks: seq<Chunk>, doc: Bytes, headLen: nat, big: nat, tailTarget: nat)
    returns (chunks': seq<Chunk>)
    requires SplitOk(enc, split) && Positionless(enc) && Consecutive(chunks) && doc != []
    ensures Consecutive(chunks') && Rows(enc, chunks') == Rows(enc, chunks) + [enc(doc, true)]
    ensures var pieces := Resplit(split, split(doc, big), headLen, tailTarget);
      pieces != [] && Concat(pieces) == doc && chunks' == chunks + Fragments(pieces, true)
  {
    hide *;
    var pieces := split(doc, big);
    SplitEncodes(enc, split, doc, big);
    var first, start := true, 0;
    ghost var rows := Rows(enc, chunks);
    chunks' := chunks;
    GrowStart(enc, chunks);
    PiecesNone(enc, pieces, [], true);
    ResplitNone(split, pieces, headLen, tailTarget);
    FragmentsNone([], true);
    assert chunks + [] == chunks;
    for i := 0 to |pieces|
      invariant first == (i == 0)
      invariant Growing(enc, rows, chunks', first, EncodePieces(enc, pieces[..i], true))
      invariant start == |Concat(pieces[..i])|
      invariant chunks' == chunks + Fragments(Resplit(split, pieces[..i], headLen, tailTarget), true)
      invariant i == 0 <==> Resplit(split, pieces[..i], headLen, tailTarget) == []
    {
      var piece := pieces[i];
      var run := if start < headLen || |piece| <= tailTarget then [piece] else split(piece, tailTarget);
      RunEncodes(enc, split, piece, run, tailTarget, first);
      PiecesSnoc(enc, pieces, i, true);
      ResplitSnoc(split, pieces, i, headLen, tailTarget, run);
      FragmentsPlus(Resplit(split, pieces[..i], headLen, tailTarget), run, true);
      chunks', first := PushPieces(enc, chunks', run, first, rows, EncodePieces(enc, pieces[..i], true));
      start := start + |piece|;
    }
    assert pieces[..|pieces|] == pieces;
    ResplitKeeps(enc, split, pieces, headLen, tailTarget);
    GrowEnd(enc, rows, chunks', first, EncodePieces(enc, pieces, true), enc(doc, true));
  }

  lemma RunEncodes(enc: Encoder, split: Splitter, piece: Bytes, run: seq<Bytes>, target: nat, first: bool)
    requires SplitOk(enc, split) && Positionless(enc) && (run == [piece] || (piece != [] && run == split(piece, target)))
    ensures run != [] && EncodePieces(enc, run, first) == enc(piece, first)
  {
    if run == [piece] {
      assert run[..0] == [];
      assert EncodePieces(enc, run, first) == [] + enc(piece, first);
    } else {
      PiecesPositionless(enc, run);
    }
  }

  lemma SplitEncodes(enc: Encoder, split: Splitter, doc: Bytes, target: nat)
    requires SplitOk(enc, split) && doc != []
    ensures split(doc, target) != [] && Concat(split(doc, target)) == doc && EncodePieces(enc, split(doc, target), true) == enc(doc, true)
  {
  }

  // ---------------------------------------------------------------------------
  // Grouping documents
  // ---------------------------------------------------------------------------

  /** The chunks built so far and the open group stand for the documents seen so far. */
  ghost predicate Grouped(enc: Encoder, chunks: seq<Chunk>, group: seq<Bytes>, docs: seq<Bytes>) {
    Consecutive(chunks) && Rows(enc, chunks) + EncodeAll(enc, group) == EncodeAll(enc, docs)
  }

  lemma GroupFlush(enc: Encoder, chunks: seq<Chunk>, group: seq<Bytes>, docs: seq<Bytes>)
    requires Grouped(enc, chunks, group, docs)
    ensures Grouped(enc, chunks + [Docs(group)], [], docs)
  {
    hide Consecutive;
    ConsecutiveSnoc(chunks, Docs(group));
    RowsSnoc(enc, chunks, Docs(group));
  }

  lemma GroupAdd(enc: Encoder, chunks: seq<Chunk>, group: seq<Bytes>, docs: seq<Bytes>, doc: Bytes)
    requires Grouped(enc, chunks, group, docs)
    ensures Grouped(enc, chunks, group + [doc], docs + [doc])
  {
    hide Consecutive, EncodeAll, Rows;
    EncodeAllSnoc(enc, group, doc);
    EncodeAllSnoc(enc, docs, doc);
  }

  lemma GroupFragments(enc: Encoder, chunks: seq<Chunk>, chunks': seq<Chunk>, docs: seq<Bytes>, doc: Bytes)
    requires Grouped(enc, chunks, [], docs)
    requires Consecutive(chunks') && Rows(enc, chunks') == Rows(enc, chunks) + [enc(doc, true)]
    ensures Grouped(enc, chunks', [], docs + [doc])
  {
    EncodeAllSnoc(enc, docs, doc);
  }

  lemma GroupStart(enc: Encoder, docs: seq<Bytes>)
    ensures Grouped(enc, [], [], docs[..0])
  {
    assert docs[..0] == [];
  }

  lemma GroupEnd(enc: Encoder, chunks: seq<Chunk>, docs: seq<Bytes>)
    requires Grouped(enc, chunks, [], docs)
    ensures Consecutive(chunks) && Rows(enc, chunks) == EncodeAll(enc, docs)
  {
  }

  // ---------------------------------------------------------------------------
  // What the chunks hold
  // ---------------------------------------------------------------------------

  /** A document, and whether it was cut into fragments. */
  type Source = (Bytes, bool)

  function Whole(docs: seq<Bytes>): (r: seq<Source>)
    ensures |r| == |docs| && forall i :: 0 <= i < |docs| ==> r[i] == (docs[i], false)
  {
    seq(|docs|, i requires 0 <= i < |docs| => (docs[i], false))
  }

  /** The documents put together again from the chunks: a first fragment starts one, a later fragment goes on with it. */
  function Sources(chunks: seq<Chunk>): seq<Source> {
    if chunks == [] then []
    else
      var prior := Sources(chunks[..|chunks| - 1]);
      match chunks[|chunks| - 1]
      case Docs(docs) => prior + Whole(docs)
      case Fragment(bytes, first) =>
        if first || prior == [] then prior + [(bytes, true)]
        else prior[..|prior| - 1] + [(prior[|prior| - 1].0 + bytes, true)]
  }

  /** The documents, those longer than `limit` to be cut. */
  function Cut(docs: seq<Bytes>, limit: nat): (r: seq<Source>)
    ensures |r| == |docs| && forall i :: 0 <= i < |docs| ==> r[i] == (docs[i], |docs[i]| > limit)
  {
    seq(|docs|, i requires 0 <= i < |docs| => (docs[i], |docs[i]| > limit))
  }

  function ByteCount(docs: seq<Bytes>): nat {
    if docs == [] then 0 else ByteCount(docs[..|docs| - 1]) + |docs[|docs| - 1]|
  }

  function Size(c: Chunk): nat {
    match c
    case Docs(docs) => ByteCount(docs)
    case Fragment(bytes, _) => |bytes|
  }

  function SizeOf(chunks: seq<Chunk>): nat {
    if chunks == [] then 0 else SizeOf(chunks[..|chunks| - 1]) + Size(chunks[|chunks| - 1])
  }

  lemma SourcesSnoc(chunks: seq<Chunk>, c: Chunk)
    ensures SizeOf(chunks + [c]) == SizeOf(chunks) + Size(c)
    ensures c.Docs? ==> Sources(chunks + [c]) == Sources(chunks) + Whole(c.docs)
    ensures c.Fragment? ==> var prior := Sources(chunks);
      Sources(chunks + [c]) == if c.first || prior == [] then prior + [(c.bytes, true)] else prior[..|prior| - 1] + [(prior[|prior| - 1].0 + c.bytes, true)]
  {
    assert (chunks + [c])[..|chunks|] == chunks;
  }

  /** The fragments of a document hold the document. */
  lemma {:induction false} SourcesOfFragments(chunks: seq<Chunk>, pieces: seq<Bytes>)
    requires pieces != []
    ensures Sources(chunks + Fragments(pieces, true)) == Sources(chunks) + [(Concat(pieces), true)]
    ensures SizeOf(chunks + Fragments(pieces, true)) == SizeOf(chunks) + |Concat(pieces)|
    decreases |pieces|
  {
    var k := |pieces| - 1;
    var front, c := pieces[..k], Fragment(pieces[k], k == 0);
    FragmentsSnoc(pieces, k, true);
    assert pieces[..k + 1] == pieces && pieces == front + [pieces[k]];
    assert chunks + Fragments(pieces, true) == (chunks + Fragments(front, true)) + [c];
    SourcesSnoc(chunks + Fragments(front, true), c);
    ConcatSnoc(front, pieces[k]);
    hide Sources, SizeOf, Concat;
    if k > 0 {
      SourcesOfFragments(chunks, front);
      var prior := Sources(chunks + Fragments(front, true));
      assert prior[..|prior| - 1] == Sources(chunks);
    } else {
      NoPieces(front, chunks);
      assert [] + pieces[k] == pieces[k];
    }
  }

  lemma NoPieces(pieces: seq<Bytes>, chunks: seq<Chunk>)
    requires pieces == []
    ensures chunks + Fragments(pieces, true) == chunks && Concat(pieces) == []
  {
  }

  // ---------------------------------------------------------------------------
  // How full the groups are
  // ---------------------------------------------------------------------------

  /** No document longer than `limit` is grouped; a group aims for `big` bytes while fewer than `head` bytes are in
      chunks, and for `tail` bytes from there on. */
  datatype Sizing = Sizing(limit: nat, head: nat, big: nat, tail: nat)

  function Goal(z: Sizing, before: nat): nat {
    if before < z.head then z.big else z.tail
  }

  /** A group that had not reached its goal before its last document. */
  ghost predicate GroupOk(z: Sizing, docs: seq<Bytes>, before: nat) {
    && docs != [] && (forall d :: d in docs ==> |d| <= z.limit)
    && (|docs| > 1 ==> ByteCount(docs[..|docs| - 1]) < Goal(z, before))
  }

  ghost predicate GroupsOk(z: Sizing, chunks: seq<Chunk>) {
    forall c: nat :: c < |chunks| && chunks[c].Docs? ==> GroupOk(z, chunks[c].docs, SizeOf(chunks[..c]))
  }

  /** The group reached its goal, or fragments follow it. */
  ghost predicate ClosedAt(z: Sizing, chunks: seq<Chunk>, c: nat)
    requires c < |chunks| && chunks[c].Docs?
  {
    ByteCount(chunks[c].docs) >= Goal(z, SizeOf(chunks[..c])) || (c + 1 < |chunks| && chunks[c + 1].Fragment?)
  }

  /** The first `n` chunks are closed. */
  ghost predicate Closed(z: Sizing, chunks: seq<Chunk>, n: nat) {
    forall c: nat :: c < n && c < |chunks| && chunks[c].Docs? ==> ClosedAt(z, chunks, c)
  }

  /** Groups as full as they should be, the last chunk apart: it may be what is left over. */
  ghost predicate Packed(z: Sizing, chunks: seq<Chunk>) {
    GroupsOk(z, chunks) && Closed(z, chunks, if chunks == [] then 0 else |chunks| - 1)
  }

  /** The open group: its bytes counted, and short of its goal. */
  ghost predicate Open(z: Sizing, group: seq<Bytes>, acc: nat, before: nat) {
    && acc == ByteCount(group) && (group == [] || acc < Goal(z, before))
    && (forall d :: d in group ==> |d| <= z.limit)
  }

  lemma OpenAdd(z: Sizing, group: seq<Bytes>, acc: nat, before: nat, doc: Bytes)
    requires Open(z, group, acc, before) && |doc| <= z.limit
    ensures GroupOk(z, group + [doc], before) && ByteCount(group + [doc]) == acc + |doc|
    ensures acc + |doc| < Goal(z, before) ==> Open(z, group + [doc], acc + |doc|, before)
  {
    assert (group + [doc])[..|group|] == group;
  }

  lemma OpenOk(z: Sizing, group: seq<Bytes>, acc: nat, before: nat)
    requires Open(z, group, acc, before)
    ensures acc == ByteCount(group) && (group != [] ==> GroupOk(z, group, before))
  {
    if group != [] {
      assert group == group[..|group| - 1] + [group[|group| - 1]];
    }
  }

  lemma OpenNone(z: Sizing, before: nat)
    ensures Open(z, [], 0, before)
  {
  }

  /** A group that is flushed. */
  lemma Flushed(z: Sizing, chunks: seq<Chunk>, group: seq<Bytes>)
    requires GroupsOk(z, chunks) && Closed(z, chunks, |chunks|) && GroupOk(z, group, SizeOf(chunks))
    ensures var more := chunks + [Docs(group)];
      && GroupsOk(z, more) && Closed(z, more, |chunks|) && SizeOf(more) == SizeOf(chunks) + ByteCount(group)
      && (ByteCount(group) >= Goal(z, SizeOf(chunks)) ==> Closed(z, more, |more|))
  {
    hide GroupOk, Goal, SizeOf;
    var more := chunks + [Docs(group)];
    assert more[..|chunks|] == chunks;
    SourcesSnoc(chunks, Docs(group));
    forall c: nat | c < |chunks| ensures more[..c] == chunks[..c] && more[c] == chunks[c] {}
    forall c: nat | c < |chunks| && chunks[c].Docs? ensures ClosedAt(z, more, c) {
      assert ClosedAt(z, chunks, c);
    }
  }

  /** Fragments close whatever stands before them. */
  lemma Fragmented(z: Sizing, chunks: seq<Chunk>, more: seq<Chunk>)
    requires GroupsOk(z, chunks) && Closed(z, chunks, if chunks == [] then 0 else |chunks| - 1)
    requires chunks < more && forall c: nat :: |chunks| <= c < |more| ==> more[c].Fragment?
    ensures GroupsOk(z, more) && Closed(z, more, |more|)
  {
    hide GroupOk, Goal, SizeOf;
    forall c: nat | c < |chunks| ensures more[..c] == chunks[..c] && more[c] == chunks[c] {}
    forall c: nat | c < |chunks| && chunks[c].Docs? ensures ClosedAt(z, more, c) {
      assert c + 1 < |chunks| ==> ClosedAt(z, chunks, c);
    }
  }

  lemma ClosedFewer(z: Sizing, chunks: seq<Chunk>, n: nat, k: nat)
    requires Closed(z, chunks, n) && k <= n
    ensures Closed(z, chunks, k)
  {
  }

  // ---------------------------------------------------------------------------
  // Building
  // ---------------------------------------------------------------------------

  /** The chunks, of which the first `n` are closed, and the open group stand for the documents. */
  ghost predicate Built(enc: Encoder, z: Sizing, chunks: seq<Chunk>, n: nat, group: seq<Bytes>, docs: seq<Bytes>) {
    && Grouped(enc, chunks, group, docs) && Sources(chunks) + Whole(group) == Cut(docs, z.limit)
    && GroupsOk(z, chunks) && Closed(z, chunks, n)
  }

  lemma BuiltStart(enc: Encoder, z: Sizing, docs: seq<Bytes>)
    ensures Built(enc, z, [], 0, [], docs[..0]) && SizeOf([]) == 0
  {
    GroupStart(enc, docs);
  }

  lemma BuiltAdd(enc: Encoder, z: Sizing, chunks: seq<Chunk>, n: nat, group: seq<Bytes>, docs: seq<Bytes>, doc: Bytes)
    requires Built(enc, z, chunks, n, group, docs) && |doc| <= z.limit
    ensures Built(enc, z, chunks, n, group + [doc], docs + [doc])
  {
    hide Grouped, Sources, GroupsOk, Closed;
    GroupAdd(enc, chunks, group, docs, doc);
    assert Whole(group + [doc]) == Whole(group) + [(doc, false)];
    assert Cut(docs + [doc], z.limit) == Cut(docs, z.limit) + [(doc, false)];
    assert Sources(chunks) + (Whole(group) + [(doc, false)]) == (Sources(chunks) + Whole(group)) + [(doc, false)];
  }

  lemma BuiltFlush(enc: Encoder, z: Sizing, chunks: seq<Chunk>, group: seq<Bytes>, docs: seq<Bytes>)
    requires Built(enc, z, chunks, |chunks|, group, docs) && GroupOk(z, group, SizeOf(chunks))
    ensures var more := chunks + [Docs(group)];
      && Built(enc, z, more, |chunks|, [], docs) && SizeOf(more) == SizeOf(chunks) + ByteCount(group)
      && (ByteCount(group) >= Goal(z, SizeOf(chunks)) ==> Built(enc, z, more, |more|, [], docs))
  {
    hide Grouped, Sources, GroupsOk, Closed, GroupOk, SizeOf, Goal;
    GroupFlush(enc, chunks, group, docs);
    Flushed(z, chunks, group);
    SourcesSnoc(chunks, Docs(group));
    assert Sources(chunks) + Whole(group) + Whole([]) == Sources(chunks) + Whole(group);
  }

  lemma BuiltFragments(enc: Encoder, z: Sizing, chunks: seq<Chunk>, n: nat, docs: seq<Bytes>, doc: Bytes, pieces: seq<Bytes>)
    requires Built(enc, z, chunks, n, [], docs) && |doc| > z.limit && n + 1 >= |chunks|
    requires var more := chunks + Fragments(pieces, true);
      pieces != [] && Concat(pieces) == doc && Consecutive(more) && Rows(enc, more) == Rows(enc, chunks) + [enc(doc, true)]
    ensures var more := chunks + Fragments(pieces, true);
      Built(enc, z, more, |more|, [], docs + [doc]) && SizeOf(more) == SizeOf(chunks) + |doc|
  {
    hide Grouped, Sources, GroupsOk, Closed, SizeOf, Rows, Consecutive, Concat;
    var more := chunks + Fragments(pieces, true);
    GroupFragments(enc, chunks, more, docs, doc);
    ClosedFewer(z, chunks, n, if chunks == [] then 0 else |chunks| - 1);
    FragmentsFollow(chunks, pieces);
    Fragmented(z, chunks, more);
    SourcesOfFragments(chunks, pieces);
    assert Whole([]) == [] && Sources(chunks) + [] == Sources(chunks);
    assert Cut(docs + [doc], z.limit) == Cut(docs, z.limit) + [(doc, true)];
  }

  lemma FragmentsFollow(chunks: seq<Chunk>, pieces: seq<Bytes>)
    requires pieces != []
    ensures var more := chunks + Fragments(pieces, true);
      chunks < more && forall c: nat :: |chunks| <= c < |more| ==> more[c].Fragment?
  {
  }

  lemma BuiltEnd(enc: Encoder, z: Sizing, chunks: seq<Chunk>, n: nat, docs: seq<Bytes>)
    requires Built(enc, z, chunks, n, [], docs) && n + 1 >= |chunks|
    ensures Consecutive(chunks) && Rows(enc, chunks) == EncodeAll(enc, docs)
    ensures Sources(chunks) == Cut(docs, z.limit) && Packed(z, chunks)
  {
    hide Sources, GroupsOk;
    GroupEnd(enc, chunks, docs);
    assert Whole([]) == [] && Sources(chunks) + [] == Sources(chunks);
  }

  /** The sizes `build_doc_chunks` aims for, with and without the descending order. */
  function SizingOf(total: nat, target: nat, lpt: bool): Sizing {
    if lpt then Sizing(2 * target, total - total / 5, 2 * target, Max(target / 4, MIN_CHUNK_BYTES)) else Sizing(2 * target, 0, target, target)
  }

  /** How much of a document that starts at `before` bytes is cut into big pieces only. */
  function HeadLen(z: Sizing, lpt: bool, before: nat): nat {
    if !lpt then USIZE_MAX else if before < z.head then z.head - before else 0
  }

  /** The fragments from chunk `c` on are those of one document. */
  ghost predicate CutAt(z: Sizing, split: Splitter, lpt: bool, chunks: seq<Chunk>, c: nat, doc: Bytes)
    requires c <= |chunks|
  {
    var pieces := Resplit(split, split(doc, z.big), HeadLen(z, lpt, SizeOf(chunks[..c])), z.tail);
    c + |pieces| <= |chunks| && chunks[c..c + |pieces|] == Fragments(pieces, true)
  }

  /** Every first fragment starts such a run. */
  ghost predicate AllCut(z: Sizing, split: Splitter, lpt: bool, chunks: seq<Chunk>) {
    forall c: nat :: c < |chunks| && chunks[c].Fragment? && chunks[c].first ==> exists doc :: CutAt(z, split, lpt, chunks, c, doc)
  }

  lemma CutAtMore(z: Sizing, split: Splitter, lpt: bool, chunks: seq<Chunk>, more: seq<Chunk>, c: nat, doc: Bytes)
    requires c <= |chunks| && CutAt(z, split, lpt, chunks, c, doc)
    ensures CutAt(z, split, lpt, chunks + more, c, doc)
  {
    hide Resplit, SizeOf, HeadLen;
    var all := chunks + more;
    assert all[..c] == chunks[..c];
    var n := |Resplit(split, split(doc, z.big), HeadLen(z, lpt, SizeOf(chunks[..c])), z.tail)|;
    assert all[c..c + n] == chunks[c..c + n];
  }

  lemma AllCutMore(z: Sizing, split: Splitter, lpt: bool, chunks: seq<Chunk>, more: seq<Chunk>)
    requires AllCut(z, split, lpt, chunks) && forall c :: c in more ==> !(c.Fragment? && c.first)
    ensures AllCut(z, split, lpt, chunks + more)
  {
    hide CutAt;
    var all := chunks + more;
    assert forall c :: |chunks| <= c < |all| ==> all[c] in more;
    forall c: nat | c < |all| && all[c].Fragment? && all[c].first ensures exists doc :: CutAt(z, split, lpt, all, c, doc) {
      if c < |chunks| {
        var doc :| CutAt(z, split, lpt, chunks, c, doc);
        CutAtMore(z, split, lpt, chunks, more, c, doc);
      }
    }
  }

  lemma AllCutFragments(z: Sizing, split: Splitter, lpt: bool, chunks: seq<Chunk>, doc: Bytes)
    requires AllCut(z, split, lpt, chunks)
    ensures AllCut(z, split, lpt, chunks + Fragments(Resplit(split, split(doc, z.big), HeadLen(z, lpt, SizeOf(chunks)), z.tail), true))
  {
    hide Resplit, SizeOf, HeadLen;
    var more := Fragments(Resplit(split, split(doc, z.big), HeadLen(z, lpt, SizeOf(chunks)), z.tail), true);
    var all := chunks + more;
    assert all[..|chunks|] == chunks && all[|chunks|..|chunks| + |more|] == more;
    assert CutAt(z, split, lpt, all, |chunks|, doc);
    forall c: nat | c < |all| && all[c].Fragment? && all[c].first ensures exists doc :: CutAt(z, split, lpt, all, c, doc) {
      if c < |chunks| {
        var doc :| CutAt(z, split, lpt, chunks, c, doc);
        CutAtMore(z, split, lpt, chunks, more, c, doc);
      }
    }
  }

  lemma AllCutNone(z: Sizing, split: Splitter, lpt: bool)
    ensures AllCut(z, split, lpt, [])
  {
  }

  lemma SizingIs(total: nat, target: nat, lpt: bool, before: nat)
    ensures var z := SizingOf(total, target, lpt);
      && z.limit == 2 * target && z.head == (if lpt then total - total / 5 else 0) && z.big == (if lpt then 2 * target else target)
      && z.tail == (if lpt then Max(target / 4, MIN_CHUNK_BYTES) else target)
      && Goal(z, before) == (if before < z.head then z.big else z.tail)
      && HeadLen(z, lpt, before) == (if !lpt then USIZE_MAX else if before < z.head then z.head - before else 0)
  {
  }

  /** `build_doc_chunks`: the chunks are the documents in order, the oversized ones in fragments, and stand for them; groups
      and fragments have the sizes aimed for. */
  method BuildDocChunks(ghost enc: Encoder, split: Splitter, docs: seq<Bytes>, total: nat, target: nat, lpt: bool) returns (chunks: seq<Chunk>)
    requires SplitOk(enc, split) && Positionless(enc)
    ensures Consecutive(chunks) && Rows(enc, chunks) == EncodeAll(enc, docs)
    ensures Sources(chunks) == Cut(docs, 2 * target)
    ensures Packed(SizingOf(total, target, lpt), chunks) && AllCut(SizingOf(total, target, lpt), split, lpt, chunks)
  {
    hide *;
    var headBytes: nat := if lpt then total - total / 5 else 0;
    var groupBig: nat := if lpt then 2 * target else target;
    var fragBig: nat := if lpt then 2 * target else target;
    var tailTarget: nat := if lpt then Max(target / 4, MIN_CHUNK_BYTES) else target;
    ghost var z := SizingOf(total, target, lpt);
    chunks := [];
    var group: seq<Bytes> := [];
    var emitted: nat, acc: nat := 0, 0;
    BuiltStart(enc, z, docs);
    OpenNone(z, 0);
    AllCutNone(z, split, lpt);
    SizingIs(total, target, lpt, 0);
    for i := 0 to |docs|
      invariant Built(enc, z, chunks, |chunks|, group, docs[..i]) && AllCut(z, split, lpt, chunks)
      invariant emitted == SizeOf(chunks) && Open(z, group, acc, emitted)
    {
      SizingIs(total, target, lpt, emitted);
      var doc := docs[i];
      assert docs[..i + 1] == docs[..i] + [doc];
      if |doc| > 2 * target {
        ghost var closed := |chunks|;
        if group != [] {
          OpenOk(z, group, acc, emitted);
          BuiltFlush(enc, z, chunks, group, docs[..i]);
          AllCutMore(z, split, lpt, chunks, [Docs(group)]);
          chunks, group := chunks + [Docs(group)], [];
          emitted, acc := emitted + acc, 0;
        } else {
          OpenOk(z, group, acc, emitted);
          NoBytes();
        }
        SizingIs(total, target, lpt, emitted);
        var headLen: nat := if !lpt then USIZE_MAX else if emitted < headBytes then headBytes - emitted else 0;
        BuiltRows(enc, z, chunks, closed, docs[..i]);
        var more := PushFragmentChunks(enc, split, chunks, doc, headLen, fragBig, tailTarget);
        BuiltFragments(enc, z, chunks, closed, docs[..i], doc, Resplit(split, split(doc, fragBig), headLen, tailTarget));
        AllCutFragments(z, split, lpt, chunks, doc);
        chunks, emitted := more, emitted + |doc|;
        OpenNone(z, emitted);
        continue;
      }
      BuiltAdd(enc, z, chunks, |chunks|, group, docs[..i], doc);
      OpenAdd(z, group, acc, emitted, doc);
      group, acc := group + [doc], acc + |doc|;
      if acc >= (if emitted < headBytes then groupBig else tailTarget) {
        BuiltFlush(enc, z, chunks, group, docs[..i + 1]);
        AllCutMore(z, split, lpt, chunks, [Docs(group)]);
        chunks, group := chunks + [Docs(group)], [];
        emitted, acc := emitted + acc, 0;
        OpenNone(z, emitted);
      }
    }
    assert docs[..|docs|] == docs;
    ghost var closed := |chunks|;
    if group != [] {
      OpenOk(z, group, acc, emitted);
      BuiltFlush(enc, z, chunks, group, docs);
      AllCutMore(z, split, lpt, chunks, [Docs(group)]);
      chunks := chunks + [Docs(group)];
    }
    BuiltEnd(enc, z, chunks, closed, docs);
  }

  lemma NoBytes()
    ensures ByteCount([]) == 0
  {
  }

  lemma BuiltRows(enc: Encoder, z: Sizing, chunks: seq<Chunk>, n: nat, docs: seq<Bytes>)
    requires Built(enc, z, chunks, n, [], docs)
    ensures Consecutive(chunks)
  {
  }

  /** One oversized document's pieces, as consecutive fragments. */
  method PushRun(ghost enc: Encoder, chunks: seq<Chunk>, pieces: seq<Bytes>, ghost doc: Bytes) returns (chunks': seq<Chunk>)
    requires pieces != [] && EncodePieces(enc, pieces, true) == enc(doc, true) && Consecutive(chunks)
    ensures Consecutive(chunks') && Rows(enc, chunks') == Rows(enc, chunks) + [enc(doc, true)]
    ensures chunks' == chunks + Fragments(pieces, true)
  {
    hide *;
    GrowStart(enc, chunks);
    var first;
    chunks', first := PushPieces(enc, chunks, pieces, true, Rows(enc, chunks), []);
    assert [] + enc(doc, true) == enc(doc, true);
    GrowEnd(enc, Rows(enc, chunks), chunks', first, enc(doc, true), enc(doc, true));
  }

  // ---------------------------------------------------------------------------
  // Encoding chunks and assembling rows
  // ---------------------------------------------------------------------------

  function Lengths(rows: seq<seq<Id>>): (lens: seq<nat>)
    ensures |lens| == |rows| && forall i :: 0 <= i < |rows| ==> lens[i] == |rows[i]|
  {
    seq(|rows|, i requires 0 <= i < |rows| => |rows[i]|)
  }

  function EncodeChunk(enc: Encoder, c: Chunk): ChunkTokens {
    match c
    case Docs(docs) => ChunkTokens(Concat(EncodeAll(enc, docs)), Lengths(EncodeAll(enc, docs)), false)
    case Fragment(bytes, first) => ChunkTokens(enc(bytes, first), [|enc(bytes, first)|], !first)
  }

  /** One chunk's part of `row_counts`. */
  function AddCounts(counts: seq<nat>, out: ChunkTokens): seq<nat>
    requires out.continues && out.lens != [] ==> counts != []
  {
    if out.continues && out.lens != [] then counts[..|counts| - 1] + [counts[|counts| - 1] + out.lens[0]] + out.lens[1..]
    else counts + out.lens
  }

  lemma CountsStep(enc: Encoder, rows: seq<seq<Id>>, c: Chunk)
    requires c.Fragment? && !c.first ==> rows != []
    ensures AddCounts(Lengths(rows), EncodeChunk(enc, c)) == Lengths(AddRows(enc, rows, c))
  {
  }

  /** A continuation always has a row to extend: the expectation in `row_counts` never fails. */
  lemma ContinuesARow(enc: Encoder, chunks: seq<Chunk>, i: nat)
    requires Consecutive(chunks) && i < |chunks| && chunks[i].Fragment? && !chunks[i].first
    ensures Rows(enc, chunks[..i]) != []
  {
  }

  /** `row_counts`: row lengths, a continuation's first one added to the row before. */
  method RowCounts(outs: seq<ChunkTokens>, ghost enc: Encoder, ghost chunks: seq<Chunk>) returns (counts: seq<nat>)
    requires |outs| == |chunks| && forall i :: 0 <= i < |outs| ==> outs[i] == EncodeChunk(enc, chunks[i])
    requires Consecutive(chunks)
    ensures counts == Lengths(Rows(enc, chunks))
  {
    hide Rows, EncodeAll, AddRows, Consecutive, Lengths;
    counts := [];
    CountsStart(enc, chunks);
    for i := 0 to |outs|
      invariant counts == Lengths(Rows(enc, chunks[..i]))
    {
      CountsNext(enc, chunks, i);
      assert outs[i] == EncodeChunk(enc, chunks[i]);
      var lens := outs[i].lens;
      if outs[i].continues && lens != [] {
        counts, lens := counts[..|counts| - 1] + [counts[|counts| - 1] + lens[0]], lens[1..];
      }
      counts := counts + lens;
    }
    assert chunks[..|chunks|] == chunks;
  }

  lemma CountsStart(enc: Encoder, chunks: seq<Chunk>)
    ensures Lengths(Rows(enc, chunks[..0])) == []
  {
    assert chunks[..0] == [];
  }

  lemma CountsNext(enc: Encoder, chunks: seq<Chunk>, i: nat)
    requires i < |chunks| && Consecutive(chunks)
    ensures var out := EncodeChunk(enc, chunks[i]);
            (out.continues && out.lens != [] ==> Lengths(Rows(enc, chunks[..i])) != [])
            && AddCounts(Lengths(Rows(enc, chunks[..i])), out) == Lengths(Rows(enc, chunks[..i + 1]))
  {
    hide Rows, Consecutive, AddCounts, EncodeAll, Lengths;
    if chunks[i].Fragment? && !chunks[i].first {
      ContinuesARow(enc, chunks, i);
    }
    CountsStep(enc, Rows(enc, chunks[..i]), chunks[i]);
    assert chunks[..i + 1] == chunks[..i] + [chunks[i]];
    RowsSnoc(enc, chunks[..i], chunks[i]);
  }

  /** The chunks' ids, in order, are the rows' ids, in order. */
  lemma {:induction false} IdsAreRows(enc: Encoder, chunks: seq<Chunk>, ids: seq<seq<Id>>)
    requires |ids| == |chunks| && forall i :: 0 <= i < |ids| ==> ids[i] == EncodeChunk(enc, chunks[i]).ids
    ensures Concat(ids) == Concat(Rows(enc, chunks))
  {
    if chunks != [] {
      var k := |chunks| - 1;
      IdsAreRows(enc, chunks[..k], ids[..k]);
      assert ids == ids[..k] + [ids[k]];
      ConcatSnoc(ids[..k], ids[k]);
      AddRowsIds(enc, Rows(enc, chunks[..k]), chunks[k]);
    }
  }

  lemma AddRowsIds(enc: Encoder, rows: seq<seq<Id>>, c: Chunk)
    ensures Concat(AddRows(enc, rows, c)) == Concat(rows) + EncodeChunk(enc, c).ids
  {
    match c
    case Docs(docs) => ConcatPlus(rows, EncodeAll(enc, docs));
    case Fragment(bytes, first) =>
      if first || rows == [] {
        ConcatSnoc(rows, enc(bytes, first));
      } else {
        var k := |rows| - 1;
        assert rows == rows[..k] + [rows[k]];
        ConcatSnoc(rows[..k], rows[k]);
        ConcatSnoc(rows[..k], rows[k] + enc(bytes, first));
      }
  }

  /** The gathered ids and row counts of built chunks are those of encoding the documents one after the other. */
  lemma GatheredMatchesSerial(enc: Encoder, docs: seq<Bytes>, chunks: seq<Chunk>, ids: seq<seq<Id>>, counts: seq<nat>)
    requires Rows(enc, chunks) == EncodeAll(enc, docs)
    requires |ids| == |chunks| && forall i :: 0 <= i < |ids| ==> ids[i] == EncodeChunk(enc, chunks[i]).ids
    requires counts == Lengths(Rows(enc, chunks))
    ensures Concat(ids) == Concat(EncodeAll(enc, docs))
    ensures |counts| == |docs| && forall i :: 0 <= i < |docs| ==> counts[i] == |enc(docs[i], true)|
  {
    IdsAreRows(enc, chunks, ids);
    forall i | 0 <= i < |docs| ensures counts[i] == |enc(docs[i], true)| {
      EncodeAllAt(enc, docs, i);
    }
  }

  lemma {:induction false} EncodeAllAt(enc: Encoder, docs: seq<Bytes>, i: nat)
    requires i < |docs|
    ensures EncodeAll(enc, docs)[i] == enc(docs[i], true)
  {
    if i < |docs| - 1 {
      EncodeAllAt(enc, docs[..|docs| - 1], i);
    }
  }
}
