/** Cutting a buffer into regions at document boundaries: the regions' documents are the buffer's documents,
    for every region size, exactly when the separator has no border. */
module DocumentChunks {
  import opened Common
  import opened Utf8
  import opened ByteSearch
  import opened Documents

  datatype Range = Range(start: nat, end: nat)

  /** What one probe for a boundary answers: where the region ends and where the next one starts. */
  type BoundaryFinder = (Bytes, nat) -> Option<(nat, nat)>

  /** The next separator at or after the probe; it belongs to neither region. */
  function SeparatorBoundary(sep: Bytes): BoundaryFinder {
    (bytes: Bytes, probe: nat) =>
      match FindFrom(bytes, sep, probe)
      case None => None
      case Some(at) => Some((at, at + |sep|))
  }

  /** Boundaries lie at or after the probe, past it in the end, and within the buffer. */
  ghost predicate Proper(next: BoundaryFinder) {
    forall bytes: Bytes, probe: nat :: next(bytes, probe).Some? ==>
      var (end, start) := next(bytes, probe).value; probe <= end <= start <= |bytes| && start > probe
  }

  function Cut(bytes: Bytes, next: BoundaryFinder, target: nat, start: nat): Option<(nat, nat)> {
    if start + target < |bytes| then next(bytes, start + target) else None
  }

  /** The regions from `start` on. */
  function Regions(bytes: Bytes, next: BoundaryFinder, target: nat, start: nat): (rs: seq<Range>)
    requires Proper(next)
    ensures forall r :: r in rs ==> start <= r.start <= r.end <= |bytes|
    decreases if start < |bytes| then |bytes| - start else 0
  {
    if start >= |bytes| then []
    else
      match Cut(bytes, next, target, start)
      case None => [Range(start, |bytes|)]
      case Some(b) => [Range(start, b.0)] + Regions(bytes, next, target, b.1)
  }

  /** The regions of a whole buffer: an empty one still gets one, empty, region. */
  function Ranges(bytes: Bytes, next: BoundaryFinder, target: nat): (rs: seq<Range>)
    requires Proper(next)
    ensures rs != [] && forall r :: r in rs ==> r.start <= r.end <= |bytes|
  {
    if bytes == [] then [Range(0, 0)] else Regions(bytes, next, target, 0)
  }

  /** `chunk_ranges`. */
  method ChunkRanges(bytes: Bytes, next: BoundaryFinder, target: nat) returns (out: seq<Range>)
    requires Proper(next)
    ensures out == Ranges(bytes, next, target)
  {
    hide Proper;
    out := [];
    var start: nat, len := 0, |bytes|;
    while start < len
      invariant out + Regions(bytes, next, target, start) == Regions(bytes, next, target, 0)
      invariant start > 0 ==> out != []
      decreases len - start
    {
      var probe := start + target;
      var cut := if probe < len then next(bytes, probe) else None;
      match cut {
        case Some(b) =>
          out := out + [Range(start, b.0)];
          start := b.1;
        case None =>
          out := out + [Range(start, len)];
          break;
      }
    }
    if out == [] {
      out := [Range(0, 0)];
    }
  }

  /** The documents of the regions, one region after the other. */
  function DocsOf(bytes: Bytes, rs: seq<Range>, docs: Bytes -> seq<Bytes>): seq<Bytes>
    requires forall r :: r in rs ==> r.start <= r.end <= |bytes|
  {
    if rs == [] then []
    else docs(bytes[rs[0].start..rs[0].end]) + DocsOf(bytes, rs[1..], docs)
  }

  lemma DocsOfOne(bytes: Bytes, r: Range, docs: Bytes -> seq<Bytes>)
    requires r.start <= r.end <= |bytes|
    ensures DocsOf(bytes, [r], docs) == docs(bytes[r.start..r.end])
  {
    assert [r][1..] == [];
  }

  function TextDocs(sep: Bytes): Bytes -> seq<Bytes> {
    (s: Bytes) => Docs(s, sep)
  }

  /** The documents of the regions from `start` on. */
  function DocsFrom(bytes: Bytes, sep: Bytes, target: nat, start: nat): seq<Bytes>
    requires sep != []
  {
    DocsOf(bytes, Regions(bytes, SeparatorBoundary(sep), target, start), TextDocs(sep))
  }

  /** The documents of a buffer cut into regions of about `target` bytes. */
  function ChunkedDocs(bytes: Bytes, sep: Bytes, target: nat): seq<Bytes>
    requires sep != []
  {
    DocsOf(bytes, Ranges(bytes, SeparatorBoundary(sep), target), TextDocs(sep))
  }

  lemma ChunkedIsFrom(bytes: Bytes, sep: Bytes, target: nat)
    requires sep != []
    ensures ChunkedDocs(bytes, sep, target) == DocsFrom(bytes, sep, target, 0)
  {
    if bytes == [] {
      DocsOfOne(bytes, Range(0, 0), TextDocs(sep));
      assert bytes[0..0] == [];
    }
  }

  lemma DocsFromCut(bytes: Bytes, sep: Bytes, target: nat, start: nat, at: nat)
    requires sep != [] && start + target < |bytes| && FindFrom(bytes, sep, start + target) == Some(at)
    ensures start <= at <= at + |sep| <= |bytes|
    ensures DocsFrom(bytes, sep, target, start) == Docs(bytes[start..at], sep) + DocsFrom(bytes, sep, target, at + |sep|)
  {
    hide Docs, FindFrom;
    var rs := Regions(bytes, SeparatorBoundary(sep), target, start);
    assert rs == [Range(start, at)] + Regions(bytes, SeparatorBoundary(sep), target, at + |sep|);
  }

  lemma DocsFromEnd(bytes: Bytes, sep: Bytes, target: nat, start: nat)
    requires sep != [] && start <= |bytes| && (start + target >= |bytes| || FindFrom(bytes, sep, start + target) == None)
    ensures DocsFrom(bytes, sep, target, start) == Docs(bytes[start..], sep)
  {
    hide Docs, FindFrom;
    NoDocs(sep);
    var rs := Regions(bytes, SeparatorBoundary(sep), target, start);
    if start < |bytes| {
      assert rs == [Range(start, |bytes|)] && bytes[start..|bytes|] == bytes[start..];
      DocsOfOne(bytes, Range(start, |bytes|), TextDocs(sep));
    } else {
      assert bytes[start..] == [];
    }
  }

  lemma {:induction false} RegionsKeepDocs(bytes: Bytes, sep: Bytes, target: nat, start: nat)
    requires BorderFree(sep) && sep != [] && start <= |bytes|
    ensures DocsFrom(bytes, sep, target, start) == Docs(bytes[start..], sep)
    decreases |bytes| - start
  {
    hide *;
    if start + target < |bytes| && FindFrom(bytes, sep, start + target).Some? {
      var rest, at := bytes[start..], FindFrom(bytes, sep, start + target).value;
      DocsFromCut(bytes, sep, target, start, at);
      RegionsKeepDocs(bytes, sep, target, at + |sep|);
      OccursInSuffix(bytes, sep, start, at - start);
      DocsCut(rest, sep, at - start);
      assert rest[..at - start] == bytes[start..at] && rest[at - start + |sep|..] == bytes[at + |sep|..];
    } else {
      DocsFromEnd(bytes, sep, target, start);
    }
  }

  // ---------------------------------------------------------------------------
  // Separators with a border
  // ---------------------------------------------------------------------------

  /** Padding that starts no separator, then two separators that overlap: read in one go the first one counts. */
  function Padded(sep: Bytes, k: nat, x: byte, y: byte, n: nat): Bytes
    requires k <= |sep|
  {
    seq(n, i => y) + (sep + (sep[k..] + [x]))
  }

  lemma PaddedBytes(sep: Bytes, k: nat, x: byte, y: byte, n: nat)
    requires 0 < k < |sep| && IsBorder(sep, k) && y != sep[0]
    ensures var w := Padded(sep, k, x, y, n);
      && |w| == n + 2 * |sep| - k + 1
      && w[..n] == seq(n, i => y) && w[n + |sep|..] == sep[k..] + [x]
      && OccursAt(w, sep, n) && OccursAt(w, sep, n + |sep| - k)
      && forall p: nat :: p < n ==> !OccursAt(w, sep, p)
  {
    var w, q := Padded(sep, k, x, y, n), n + |sep| - k;
    assert w[n..n + |sep|] == sep;
    forall i | 0 <= i < |sep| ensures w[q + i] == sep[i] {
      if i < k {
        assert w[q + i] == sep[|sep| - k..][i] == sep[..k][i];
      }
    }
    assert w[q..q + |sep|] == sep;
    forall p: nat | p < n ensures !OccursAt(w, sep, p) {
      assert p + |sep| <= |w| ==> w[p..p + |sep|][0] == y;
    }
  }

  lemma TailHasNone(sep: Bytes, k: nat, x: byte)
    requires 0 < k < |sep| && x != sep[|sep| - 1]
    ensures FindFrom(sep[k..] + [x], sep, 0) == None
  {
    var tail := sep[k..] + [x];
    assert |tail| <= |sep| && tail[|tail| - 1] == x;
    forall p: nat ensures !OccursAt(tail, sep, p) {}
    NoneIs(tail, sep, 0);
  }

  lemma PaddedSerial(sep: Bytes, k: nat, x: byte, y: byte, n: nat)
    requires 0 < k < |sep| && IsBorder(sep, k) && x != sep[|sep| - 1] && y != sep[0]
    ensures var docs := Docs(Padded(sep, k, x, y, n), sep);
      docs != [] && |docs[0]| == if n > 0 then n else |sep| - k + 1
  {
    hide *;
    var w, tail := Padded(sep, k, x, y, n), sep[k..] + [x];
    PaddedBytes(sep, k, x, y, n);
    FirstIs(w, sep, 0, n);
    DocsFirst(w, sep, n);
    TailHasNone(sep, k, x);
    DocsNone(tail, sep);
  }

  /** A region that has the size of the padding and one byte more ends at a later separator. */
  lemma PaddedChunked(sep: Bytes, k: nat, x: byte, y: byte, n: nat)
    requires 0 < k < |sep| && IsBorder(sep, k) && y != sep[0]
    ensures var docs := ChunkedDocs(Padded(sep, k, x, y, n), sep, n + 1);
      docs != [] && n < |docs[0]| <= n + |sep| - k
  {
    hide *;
    var w := Padded(sep, k, x, y, n);
    PaddedBytes(sep, k, x, y, n);
    var at := FirstAfter(w, sep, n + 1, n + |sep| - k);
    forall p: nat ensures !OccursAt(w[..at], sep, p) {
      OccursInPrefix(w, sep, at, p);
    }
    NoneIs(w[..at], sep, 0);
    DocsNone(w[..at], sep);
    assert w[0..at] == w[..at];
    FirstRegion(w, sep, n + 1, at);
  }

  lemma FirstAfter(s: Bytes, u: Bytes, from: nat, p: nat) returns (at: nat)
    requires OccursAt(s, u, p) && from <= p
    ensures FindFrom(s, u, from) == Some(at) && from <= at <= p && at + |u| <= |s|
  {
    at := FindFrom(s, u, from).value;
  }

  lemma FirstRegion(w: Bytes, sep: Bytes, target: nat, at: nat)
    requires sep != [] && |w| > target && FindFrom(w, sep, target) == Some(at) && at <= |w| && Docs(w[0..at], sep) == [w[0..at]]
    ensures ChunkedDocs(w, sep, target) != [] && ChunkedDocs(w, sep, target)[0] == w[0..at]
  {
    hide Docs;
    var rs := Regions(w, SeparatorBoundary(sep), target, 0);
    assert rs[0] == Range(0, at);
  }

  /** A border shows at every region size. */
  lemma ChunksDiffer(sep: Bytes, k: nat, n: nat) returns (w: Bytes)
    requires 0 < k < |sep| && IsBorder(sep, k)
    ensures |w| == n + 2 * |sep| - k + 1 && ChunkedDocs(w, sep, n + 1) != Docs(w, sep)
  {
    hide *;
    var x: byte := if sep[|sep| - 1] == 0 then 1 else 0;
    var y: byte := if sep[0] == 0 then 1 else 0;
    w := Padded(sep, k, x, y, n);
    PaddedBytes(sep, k, x, y, n);
    PaddedSerial(sep, k, x, y, n);
    PaddedChunked(sep, k, x, y, n);
  }

  /** With regions of no bytes every separator is looked for where the one before it ended. */
  lemma {:induction false} NoTargetKeepsDocs(bytes: Bytes, sep: Bytes, start: nat)
    requires sep != [] && start <= |bytes|
    ensures DocsFrom(bytes, sep, 0, start) == Docs(bytes[start..], sep)
    decreases |bytes| - start
  {
    hide *;
    if start + 0 < |bytes| && FindFrom(bytes, sep, start + 0).Some? {
      var rest, at := bytes[start..], FindFrom(bytes, sep, start + 0).value;
      DocsFromCut(bytes, sep, 0, start, at);
      NoTargetKeepsDocs(bytes, sep, at + |sep|);
      FindShift(bytes, sep, start);
      DocsFirst(rest, sep, at - start);
      FirstPiece(rest, sep, at - start);
      assert rest[..at - start] == bytes[start..at] && rest[at - start + |sep|..] == bytes[at + |sep|..];
    } else {
      DocsFromEnd(bytes, sep, 0, start);
    }
  }

  lemma FirstPiece(s: Bytes, sep: Bytes, at: nat)
    requires sep != [] && FindFrom(s, sep, 0) == Some(at) && at <= |s|
    ensures Docs(s[..at], sep) == if at > 0 then [s[..at]] else []
  {
    hide Docs, OccursAt;
    forall p: nat ensures !OccursAt(s[..at], sep, p) {
      OccursInPrefix(s, sep, at, p);
    }
    NoneIs(s[..at], sep, 0);
    DocsNone(s[..at], sep);
  }

  /** Chunked iteration at a region size is serial iteration, for every buffer, exactly for border-free separators. */
  lemma ChunkedIsSerialIffBorderFree(sep: Bytes, target: nat)
    requires sep != []
    ensures (forall s: Bytes :: ChunkedDocs(s, sep, target) == Docs(s, sep)) <==> target == 0 || BorderFree(sep)
  {
    hide Docs, ChunkedDocs, IsBorder, DocsFrom;
    if target == 0 || BorderFree(sep) {
      forall s: Bytes ensures ChunkedDocs(s, sep, target) == Docs(s, sep) {
        ChunkedIsFrom(s, sep, target);
        if target == 0 {
          NoTargetKeepsDocs(s, sep, 0);
        } else {
          RegionsKeepDocs(s, sep, target, 0);
        }
        assert s[0..] == s;
      }
    } else {
      var k :| 0 < k < |sep| && IsBorder(sep, k);
      var w := ChunksDiffer(sep, k, target - 1);
    }
  }

  // ---------------------------------------------------------------------------
  // The region sizes the program takes
  // ---------------------------------------------------------------------------

  lemma DivisionGrows(total: nat, d: nat)
    requires d >= 16
    ensures total / d <= (total + 1) / d && total / d * 16 <= total
  {
    var q, r := total / d, (total + 1) / d;
    assert q * d <= total && total + 1 < (r + 1) * d;
    TimesGrows(r + 1, q, d);
    TimesGrows(16, d, q);
  }

  lemma TargetGrows(total: nat, threads: nat)
    requires threads > 0
    ensures ChunkTarget(total, threads) <= ChunkTarget(total + 1, threads)
    ensures ChunkTarget(total, threads) == MIN_CHUNK_BYTES || ChunkTarget(total, threads) * 16 <= total
  {
    DivisionGrows(total, 16 * threads);
  }

  /** The target never grows faster than the buffer, so padding meets it. */
  lemma {:induction false} TargetMet(extra: nat, threads: nat, n: nat) returns (m: nat)
    requires threads > 0 && n + 1 <= ChunkTarget(n + extra, threads)
    ensures m + 1 == ChunkTarget(m + extra, threads)
    decreases MIN_CHUNK_BYTES + extra - n
  {
    hide ChunkTarget;
    TargetGrows(n + extra, threads);
    m := n;
    if n + 1 < ChunkTarget(n + extra, threads) {
      m := TargetMet(extra, threads, n + 1);
    }
  }

  /** The same at the region size the program takes for the buffer, with any number of threads. */
  lemma ReadIsSerialIffBorderFree(sep: Bytes, threads: nat)
    requires sep != [] && threads > 0
    ensures (forall s: Bytes :: ChunkedDocs(s, sep, ChunkTarget(|s|, threads)) == Docs(s, sep)) <==> BorderFree(sep)
  {
    hide Docs, ChunkedDocs, IsBorder, ChunkTarget;
    if BorderFree(sep) {
      forall s: Bytes ensures ChunkedDocs(s, sep, ChunkTarget(|s|, threads)) == Docs(s, sep) {
        ChunkedIsSerialIffBorderFree(sep, ChunkTarget(|s|, threads));
      }
    } else {
      var k :| 0 < k < |sep| && IsBorder(sep, k);
      var n := TargetMet(2 * |sep| - k + 1, threads, MIN_CHUNK_BYTES - 1);
      var w := ChunksDiffer(sep, k, n);
      assert |w| == n + (2 * |sep| - k + 1);
    }
  }

  // ---------------------------------------------------------------------------
  // Parallel iterators
  // ---------------------------------------------------------------------------

  /** Boundaries from the start to the end of the buffer, each other one right behind a separator. */
  ghost predicate Boundaries(bytes: Bytes, sep: Bytes, bounds: seq<nat>) {
    && |bounds| >= 1 && bounds[0] == 0
    && (forall i, j :: 0 <= i < j < |bounds| ==> bounds[i] < bounds[j])
    && (forall i :: 0 < i < |bounds| ==> BehindSeparator(bytes, sep, bounds[i]))
  }

  predicate BehindSeparator(bytes: Bytes, sep: Bytes, b: nat) {
    |sep| <= b <= |bytes| && OccursAt(bytes, sep, b - |sep|)
  }

  lemma BoundarySnoc(bytes: Bytes, sep: Bytes, bounds: seq<nat>, b: nat)
    requires Boundaries(bytes, sep, bounds) && BehindSeparator(bytes, sep, b) && bounds[|bounds| - 1] < b
    ensures Boundaries(bytes, sep, bounds + [b])
  {
    hide BehindSeparator;
  }

  /** The place right behind the first separator at or after one of the targets 1 to `n` - 1. */
  ghost predicate FoundBehind(bytes: Bytes, sep: Bytes, size: nat, n: nat, b: nat) {
    exists i: nat :: 0 < i < n && |sep| <= b && FindFrom(bytes, sep, i * size) == Some(b - |sep|)
  }

  /** The boundaries `par_document_chunks` finds: the start, and the first separator from every target on; without
      repetitions and without the buffer's end. */
  method FindBoundaries(bytes: Bytes, sep: Bytes, n: nat) returns (bounds: seq<nat>)
    requires sep != [] && n > 1
    ensures Boundaries(bytes, sep, bounds) && forall b :: b in bounds ==> b <= |bytes|
    ensures forall b: nat :: b in bounds <==> b == 0 || FoundBehind(bytes, sep, |bytes| / n, n, b)
  {
    hide Boundaries, OccursAt, FindFrom;
    var chunkSize := |bytes| / n;
    bounds := [0];
    OneBoundary(bytes, sep);
    for i := 1 to n
      invariant Boundaries(bytes, sep, bounds) && bounds != [] && forall b :: b in bounds ==> b <= |bytes|
      invariant forall p :: (i - 1) * chunkSize <= p && OccursAt(bytes, sep, p) ==> bounds[|bounds| - 1] <= p + |sep|
      invariant forall b: nat :: b in bounds <==> b == 0 || FoundBehind(bytes, sep, chunkSize, i, b)
    {
      TimesGrows(i - 1, i, chunkSize);
      var target := i * chunkSize;
      var found := FindFrom(bytes, sep, target);
      if found.None? {
        NoneFoundBehind(bytes, sep, chunkSize, i, n);
        break;
      }
      var boundary := found.value + |sep|;
      EndsBehind(bytes, sep, found.value);
      FoundNext(bytes, sep, chunkSize, i, found.value);
      // Repetitions of a boundary are dropped.
      if boundary != bounds[|bounds| - 1] {
        BoundarySnoc(bytes, sep, bounds, boundary);
        bounds := bounds + [boundary];
      }
    }
  }

  lemma OneBoundary(bytes: Bytes, sep: Bytes)
    ensures Boundaries(bytes, sep, [0])
  {
  }

  lemma FoundWitness(bytes: Bytes, sep: Bytes, size: nat, n: nat, i: nat, b: nat)
    requires 0 < i < n && |sep| <= b && FindFrom(bytes, sep, i * size) == Some(b - |sep|)
    ensures FoundBehind(bytes, sep, size, n, b)
  {
    hide FindFrom;
  }

  lemma FoundNext(bytes: Bytes, sep: Bytes, size: nat, i: nat, at: nat)
    requires 0 < i && FindFrom(bytes, sep, i * size) == Some(at)
    ensures forall b: nat :: FoundBehind(bytes, sep, size, i + 1, b) <==> FoundBehind(bytes, sep, size, i, b) || b == at + |sep|
  {
    hide FindFrom;
    forall b: nat | FoundBehind(bytes, sep, size, i + 1, b) && b != at + |sep| ensures FoundBehind(bytes, sep, size, i, b) {
      var j: nat :| 0 < j < i + 1 && |sep| <= b && FindFrom(bytes, sep, j * size) == Some(b - |sep|);
      FoundWitness(bytes, sep, size, i, j, b);
    }
    forall b: nat | FoundBehind(bytes, sep, size, i, b) ensures FoundBehind(bytes, sep, size, i + 1, b) {
      var j: nat :| 0 < j < i && |sep| <= b && FindFrom(bytes, sep, j * size) == Some(b - |sep|);
      FoundWitness(bytes, sep, size, i + 1, j, b);
    }
    FoundWitness(bytes, sep, size, i + 1, i, at + |sep|);
  }

  /** No separator from one target on, none from a later one. */
  lemma NoneFoundBehind(bytes: Bytes, sep: Bytes, size: nat, i: nat, n: nat)
    requires 0 < i <= n && FindFrom(bytes, sep, i * size) == None
    ensures forall b: nat :: FoundBehind(bytes, sep, size, n, b) <==> FoundBehind(bytes, sep, size, i, b)
  {
    hide OccursAt;
    forall b: nat | FoundBehind(bytes, sep, size, n, b) ensures FoundBehind(bytes, sep, size, i, b) {
      var j: nat :| 0 < j < n && |sep| <= b && FindFrom(bytes, sep, j * size) == Some(b - |sep|);
      TimesGrows(i, j, size);
    }
    forall b: nat | FoundBehind(bytes, sep, size, i, b) ensures FoundBehind(bytes, sep, size, n, b) {
      var j: nat :| 0 < j < i && |sep| <= b && FindFrom(bytes, sep, j * size) == Some(b - |sep|);
      FoundWitness(bytes, sep, size, n, j, b);
    }
  }

  lemma EndsBehind(bytes: Bytes, sep: Bytes, at: nat)
    requires OccursAt(bytes, sep, at)
    ensures BehindSeparator(bytes, sep, at + |sep|) && at + |sep| <= |bytes|
  {
  }

  /** The documents between consecutive boundaries. */
  function DocsBetween(bytes: Bytes, sep: Bytes, bounds: seq<nat>, i: nat): seq<Bytes>
    requires i + 1 < |bounds| && bounds[i] <= bounds[i + 1] <= |bytes|
  {
    Docs(bytes[bounds[i]..bounds[i + 1]], sep)
  }

  /** The documents between the first `k` pairs of neighbouring boundaries. */
  function DocsUpTo(bytes: Bytes, sep: Bytes, bounds: seq<nat>, k: nat): seq<Bytes>
    requires k < |bounds| && Rising(bytes, bounds)
  {
    if k == 0 then [] else DocsUpTo(bytes, sep, bounds, k - 1) + DocsBetween(bytes, sep, bounds, k - 1)
  }

  ghost predicate Rising(bytes: Bytes, bounds: seq<nat>) {
    && (forall i :: 0 <= i < |bounds| ==> bounds[i] <= |bytes|)
    && (forall i :: 0 <= i < |bounds| - 1 ==> bounds[i] <= bounds[i + 1])
  }

  lemma BoundariesApart(bytes: Bytes, sep: Bytes, bounds: seq<nat>, k: nat)
    requires BorderFree(sep) && Boundaries(bytes, sep, bounds) && k + 1 < |bounds|
    ensures bounds[k] + |sep| <= bounds[k + 1] <= |bytes| && OccursAt(bytes, sep, bounds[k + 1] - |sep|)
  {
    hide BorderFree, OccursAt;
    if k > 0 {
      NoOverlap(bytes, sep, bounds[k] - |sep|, bounds[k + 1] - |sep|);
    }
  }

  lemma {:induction false} BetweenBoundaries(bytes: Bytes, sep: Bytes, bounds: seq<nat>, k: nat)
    requires BorderFree(sep) && sep != [] && Boundaries(bytes, sep, bounds) && Rising(bytes, bounds) && k < |bounds|
    ensures DocsUpTo(bytes, sep, bounds, k) + Docs(bytes[bounds[k]..], sep) == Docs(bytes, sep)
  {
    hide BorderFree, OccursAt, Boundaries, Docs;
    if k == 0 {
      FirstBoundary(bytes, sep, bounds);
      assert bytes[0..] == bytes;
    } else {
      BetweenBoundaries(bytes, sep, bounds, k - 1);
      BoundariesApart(bytes, sep, bounds, k - 1);
      var a, b := bounds[k - 1], bounds[k];
      var rest := bytes[a..];
      OccursInSuffix(bytes, sep, a, b - |sep| - a);
      DocsCutAfter(rest, sep, b - |sep| - a);
      assert rest[..b - a] == bytes[a..b] && rest[b - a..] == bytes[b..];
    }
  }

  lemma FirstBoundary(bytes: Bytes, sep: Bytes, bounds: seq<nat>)
    requires Boundaries(bytes, sep, bounds)
    ensures |bounds| >= 1 && bounds[0] == 0
  {
  }

  /** The boundaries closed by the end of the buffer. */
  function Closed(bytes: Bytes, bounds: seq<nat>): (r: seq<nat>)
    requires bounds != []
    ensures r != [] && r[|r| - 1] == |bytes| && r[0] == if |r| > 1 then bounds[0] else |bytes|
  {
    if bounds[|bounds| - 1] == |bytes| then bounds else bounds + [|bytes|]
  }

  lemma BoundariesRise(bytes: Bytes, sep: Bytes, bounds: seq<nat>)
    requires Boundaries(bytes, sep, bounds) && bytes != []
    ensures Rising(bytes, bounds) && Rising(bytes, Closed(bytes, bounds)) && |Closed(bytes, bounds)| >= 2
  {
  }

  lemma {:induction false} DocsUpToPrefix(bytes: Bytes, sep: Bytes, bounds: seq<nat>, longer: seq<nat>, k: nat)
    requires Rising(bytes, bounds) && Rising(bytes, longer) && bounds <= longer && k < |bounds|
    ensures DocsUpTo(bytes, sep, longer, k) == DocsUpTo(bytes, sep, bounds, k)
  {
    hide Docs;
    if k > 0 {
      DocsUpToPrefix(bytes, sep, bounds, longer, k - 1);
    }
  }

  lemma ClosedBetween(bytes: Bytes, sep: Bytes, bounds: seq<nat>)
    requires BorderFree(sep) && sep != [] && Boundaries(bytes, sep, bounds) && bytes != []
    requires Rising(bytes, bounds) && Rising(bytes, Closed(bytes, bounds))
    ensures DocsUpTo(bytes, sep, Closed(bytes, bounds), |Closed(bytes, bounds)| - 1) == Docs(bytes, sep)
  {
    hide BorderFree, Boundaries, Docs;
    FirstBoundary(bytes, sep, bounds);
    var k := |bounds| - 1;
    BetweenBoundaries(bytes, sep, bounds, k);
    if bounds[k] == |bytes| {
      NoDocs(sep);
    } else {
      var closed := Closed(bytes, bounds);
      DocsUpToPrefix(bytes, sep, bounds, closed, k);
      assert bytes[bounds[k]..|bytes|] == bytes[bounds[k]..];
    }
  }

  /** `par_document_chunks`: iterators over consecutive ranges that partition the buffer; for a border-free
      separator their documents, one iterator after the other, are the buffer's documents. */
  method ParDocumentChunks(bytes: Bytes, sep: Bytes, n: nat) returns (chunks: seq<DocumentIter>, ghost bounds: seq<nat>)
    ensures |bounds| == |chunks| + 1 && bounds[0] == 0 && bounds[|chunks|] == |bytes| && Rising(bytes, bounds)
    ensures if n <= 1 || bytes == [] || sep == [] then |chunks| == 1
            else forall b: nat :: b in bounds <==> b == 0 || b == |bytes| || FoundBehind(bytes, sep, |bytes| / n, n, b)
    ensures forall c :: c in chunks ==> fresh(c) && c.Valid()
    ensures forall i :: 0 <= i < |chunks| ==> chunks[i].Remaining() == DocsBetween(bytes, sep, bounds, i)
    ensures n <= 1 || BorderFree(sep) ==> DocsUpTo(bytes, sep, bounds, |chunks|) == Docs(bytes, sep)
  {
    hide Docs, Boundaries, BorderFree, DocumentIter.Remaining, FoundBehind;
    var ends: seq<nat>;
    if n <= 1 || bytes == [] || sep == [] {
      ends := [0, |bytes|];
      assert bytes[0..|bytes|] == bytes;
      assert DocsUpTo(bytes, sep, ends, 0) == [];
    } else {
      var found := FindBoundaries(bytes, sep, n);
      FirstBoundary(bytes, sep, found);
      BoundariesRise(bytes, sep, found);
      ends := Closed(bytes, found);
      assert forall b: nat :: b in ends <==> b in found || b == |bytes|;
      if BorderFree(sep) {
        ClosedBetween(bytes, sep, found);
      }
    }
    bounds := ends;
    chunks := IterBetween(bytes, sep, ends);
  }

  /** An iterator for every pair of neighbouring boundaries. */
  method IterBetween(bytes: Bytes, sep: Bytes, ends: seq<nat>) returns (chunks: seq<DocumentIter>)
    requires |ends| >= 1 && Rising(bytes, ends)
    ensures |ends| == |chunks| + 1 && forall c :: c in chunks ==> fresh(c) && c.Valid()
    ensures forall i :: 0 <= i < |chunks| ==> chunks[i].Remaining() == DocsBetween(bytes, sep, ends, i)
  {
    hide Docs, DocumentIter.Remaining;
    chunks := [];
    for i := 0 to |ends| - 1
      invariant |chunks| == i && forall c :: c in chunks ==> fresh(c) && c.Valid()
      invariant forall j :: 0 <= j < i ==> chunks[j].Remaining() == DocsBetween(bytes, sep, ends, j)
    {
      var c := new DocumentIter.NewRange(bytes, sep, ends[i], ends[i + 1]);
      chunks := chunks + [c];
    }
  }
}
