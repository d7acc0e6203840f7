/** JSON-lines documents: the lines up to the first that does not parse, serially and region by region. */
module JsonLines {
  import opened Common
  import opened Utf8
  import opened ByteSearch
  import opened Documents
  import opened DocumentChunks

  const NEWLINE: Bytes := [0x0A]

  /** The text a line holds, if it parses and has the field. */
  type Parser = Bytes -> Option<Bytes>

  /** The non-empty lines. */
  function Lines(s: Bytes): seq<Bytes> {
    Docs(s, NEWLINE)
  }

  /** The texts of the lines before the first that does not parse, which ends the iteration. */
  function Until(parse: Parser, lines: seq<Bytes>): seq<Bytes> {
    if lines == [] then []
    else
      match parse(lines[0])
      case None => []
      case Some(text) => [text] + Until(parse, lines[1..])
  }

  /** The texts still to come from a position on. */
  function From(parse: Parser, slice: Bytes, position: nat): seq<Bytes> {
    if position >= |slice| then [] else Until(parse, Lines(slice[position..]))
  }

  class JsonLinesSlice {
    const slice: Bytes
    const parse: Parser
    var position: nat

    ghost function Remaining(): seq<Bytes>
      reads this
    {
      From(parse, slice, position)
    }

    constructor (slice: Bytes, parse: Parser)
      ensures Remaining() == Until(parse, Lines(slice))
    {
      this.slice, this.parse, position := slice, parse, 0;
      new;
      assert slice[0..] == slice;
      NoLines();
    }

    /** Yields the first of the remaining documents; the first line that does not parse answers None. */
    method Next() returns (r: Option<Bytes>)
      modifies this
      ensures match r
        case None => old(Remaining()) == []
        case Some(doc) => old(Remaining()) == [doc] + Remaining()
    {
      hide From, FindFrom, Until, Lines;
      while position < |slice| && slice[position] == NEWLINE[0]
        invariant Remaining() == old(Remaining())
        decreases |slice| - position
      {
        SkipNewline(parse, slice, position);
        position := position + 1;
      }
      if position >= |slice| {
        NothingFrom(parse, slice, position);
        return None;
      }
      var found := FindFrom(slice, NEWLINE, position);
      var lineEnd := if found.Some? then found.value else |slice|;
      var line := slice[position..lineEnd];
      FirstLine(parse, slice, position, found);
      position := lineEnd + 1;
      // The line is never empty: newlines were skipped.
      r := parse(line);
    }

    /** Iterating to the end yields all of them, in order. */
    method Collect() returns (docs: seq<Bytes>)
      modifies this
      ensures docs == old(Remaining())
    {
      hide From;
      docs := [];
      while true
        invariant docs + Remaining() == old(Remaining())
        decreases |Remaining()|
      {
        var r := Next();
        if r.None? {
          return;
        }
        docs := docs + [r.value];
      }
    }
  }

  lemma NoLines()
    ensures Lines([]) == []
  {
  }

  lemma NothingFrom(parse: Parser, slice: Bytes, position: nat)
    requires position >= |slice|
    ensures From(parse, slice, position) == []
  {
  }

  lemma FromIs(parse: Parser, slice: Bytes, position: nat)
    requires position <= |slice|
    ensures From(parse, slice, position) == Until(parse, Lines(slice[position..]))
  {
    if position == |slice| {
      assert slice[position..] == [];
      NoLines();
    }
  }

  /** A newline at the start of a line is no line. */
  lemma SkipLines(slice: Bytes, position: nat)
    requires position < |slice| && slice[position] == NEWLINE[0]
    ensures Lines(slice[position..]) == Lines(slice[position + 1..])
  {
    var s := slice[position..];
    assert OccursAt(s, NEWLINE, 0);
    FirstIs(s, NEWLINE, 0, 0);
    DocsFirst(s, NEWLINE, 0);
    assert s[0 + |NEWLINE|..] == slice[position + 1..];
  }

  lemma SkipNewline(parse: Parser, slice: Bytes, position: nat)
    requires position < |slice| && slice[position] == NEWLINE[0]
    ensures From(parse, slice, position) == From(parse, slice, position + 1)
  {
    hide *;
    SkipLines(slice, position);
    FromIs(parse, slice, position);
    FromIs(parse, slice, position + 1);
  }

  lemma NewlineAt(slice: Bytes, at: nat)
    requires OccursAt(slice, NEWLINE, at)
    ensures at < |slice| && slice[at] == NEWLINE[0] && |NEWLINE| == 1 && NEWLINE != []
  {
    assert slice[at..at + 1][0] == slice[at];
  }

  lemma NewlineIsByte()
    ensures NEWLINE != []
  {
  }

  lemma LinesAre(s: Bytes)
    ensures Lines(s) == Docs(s, NEWLINE)
  {
  }

  lemma LineEndsAt(slice: Bytes, position: nat, at: nat)
    requires position < |slice| && slice[position] != NEWLINE[0] && FindFrom(slice, NEWLINE, position) == Some(at)
    ensures position < at < |slice|
    ensures Lines(slice[position..]) == [slice[position..at]] + Lines(slice[at + 1..])
  {
    hide *;
    var s := slice[position..];
    FindShift(slice, NEWLINE, position);
    NewlineAt(slice, at);
    DocsFirst(s, NEWLINE, at - position);
    LinesAre(s);
    LinesAre(slice[at + 1..]);
    assert s[at - position + 1..] == slice[at + 1..] && s[..at - position] == slice[position..at];
  }

  lemma LastLine(slice: Bytes, position: nat)
    requires position < |slice| && FindFrom(slice, NEWLINE, position) == None
    ensures Lines(slice[position..]) == [slice[position..|slice|]]
  {
    hide *;
    FindShift(slice, NEWLINE, position);
    NewlineIsByte();
    DocsNone(slice[position..], NEWLINE);
    LinesAre(slice[position..]);
    assert slice[position..|slice|] == slice[position..];
  }

  lemma UntilCons(parse: Parser, line: Bytes, rest: seq<Bytes>)
    ensures Until(parse, [line] + rest) == match parse(line) case None => [] case Some(text) => [text] + Until(parse, rest)
  {
    assert ([line] + rest)[1..] == rest;
  }

  /** The first line at a position where no newline stands, and what comes after it. */
  lemma FirstLine(parse: Parser, slice: Bytes, position: nat, found: Option<nat>)
    requires position < |slice| && slice[position] != NEWLINE[0] && found == FindFrom(slice, NEWLINE, position)
    ensures var lineEnd := if found.Some? then found.value else |slice|;
      && position < lineEnd <= |slice|
      && From(parse, slice, position) == match parse(slice[position..lineEnd]) case None => [] case Some(text) => [text] + From(parse, slice, lineEnd + 1)
  {
    hide Lines, Until, FindFrom, From;
    FromIs(parse, slice, position);
    match found
    case Some(at) =>
      LineEndsAt(slice, position, at);
      UntilCons(parse, slice[position..at], Lines(slice[at + 1..]));
      FromIs(parse, slice, at + 1);
    case None =>
      LastLine(slice, position);
      assert [slice[position..|slice|]] + [] == [slice[position..|slice|]];
      UntilCons(parse, slice[position..|slice|], []);
      NothingFrom(parse, slice, |slice| + 1);
      UntilNone(parse);
  }

  lemma UntilNone(parse: Parser)
    ensures Until(parse, []) == []
  {
  }

  // ---------------------------------------------------------------------------
  // Regions
  // ---------------------------------------------------------------------------

  /** The next newline at or after the probe; it ends the region. */
  function LineBoundary(): BoundaryFinder {
    (bytes: Bytes, probe: nat) =>
      match FindFrom(bytes, NEWLINE, probe)
      case None => None
      case Some(at) => Some((at + 1, at + 1))
  }

  lemma LineProper()
    ensures Proper(LineBoundary())
  {
  }

  function LineDocs(parse: Parser): Bytes -> seq<Bytes> {
    (s: Bytes) => Until(parse, Lines(s))
  }

  /** The documents of a buffer cut into regions of about `target` bytes. */
  function ChunkedLineDocs(bytes: Bytes, parse: Parser, target: nat): seq<Bytes> {
    LineProper();
    DocsOf(bytes, Ranges(bytes, LineBoundary(), target), LineDocs(parse))
  }

  function LineDocsFrom(bytes: Bytes, parse: Parser, target: nat, start: nat): seq<Bytes> {
    LineProper();
    DocsOf(bytes, Regions(bytes, LineBoundary(), target, start), LineDocs(parse))
  }

  lemma LineDocsCut(bytes: Bytes, parse: Parser, target: nat, start: nat, at: nat)
    requires start + target < |bytes| && FindFrom(bytes, NEWLINE, start + target) == Some(at)
    ensures start <= at < |bytes|
    ensures LineDocsFrom(bytes, parse, target, start) == Until(parse, Lines(bytes[start..at + 1])) + LineDocsFrom(bytes, parse, target, at + 1)
    ensures Lines(bytes[start..]) == Lines(bytes[start..at + 1]) + Lines(bytes[at + 1..])
  {
    hide Docs, FindFrom, Until;
    LineProper();
    var rs := Regions(bytes, LineBoundary(), target, start);
    assert rs == [Range(start, at + 1)] + Regions(bytes, LineBoundary(), target, at + 1);
    LinesCut(bytes, start, at);
  }

  lemma LinesCut(bytes: Bytes, start: nat, at: nat)
    requires start <= at && OccursAt(bytes, NEWLINE, at)
    ensures at < |bytes| && Lines(bytes[start..]) == Lines(bytes[start..at + 1]) + Lines(bytes[at + 1..])
  {
    hide Docs;
    var s := bytes[start..];
    OccursInSuffix(bytes, NEWLINE, start, at - start);
    DocsCutAfter(s, NEWLINE, at - start);
    assert s[..at - start + 1] == bytes[start..at + 1] && s[at - start + 1..] == bytes[at + 1..];
  }

  lemma LineDocsEnd(bytes: Bytes, parse: Parser, target: nat, start: nat)
    requires start <= |bytes| && (start + target >= |bytes| || FindFrom(bytes, NEWLINE, start + target) == None)
    ensures LineDocsFrom(bytes, parse, target, start) == Until(parse, Lines(bytes[start..]))
  {
    hide Docs, FindFrom, Until, Lines;
    LineProper();
    NoLines();
    UntilNone(parse);
    var rs := Regions(bytes, LineBoundary(), target, start);
    if start < |bytes| {
      assert rs == [Range(start, |bytes|)] && bytes[start..|bytes|] == bytes[start..];
      DocsOfOne(bytes, Range(start, |bytes|), LineDocs(parse));
    } else {
      assert bytes[start..] == [];
    }
  }

  lemma ChunkedIsFromStart(bytes: Bytes, parse: Parser, target: nat)
    ensures ChunkedLineDocs(bytes, parse, target) == LineDocsFrom(bytes, parse, target, 0)
  {
    LineProper();
    if bytes == [] {
      DocsOfOne(bytes, Range(0, 0), LineDocs(parse));
      assert bytes[0..0] == [];
      NoLines();
    }
  }

  // ---------------------------------------------------------------------------
  // Lines that do not parse
  // ---------------------------------------------------------------------------

  /** Once a line does not parse, none after it does. */
  ghost predicate FailuresLast(parse: Parser, lines: seq<Bytes>) {
    forall i, j :: 0 <= i < j < |lines| && parse(lines[i]) == None ==> parse(lines[j]) == None
  }

  /** The texts of all lines that parse. */
  function Parsed(parse: Parser, lines: seq<Bytes>): seq<Bytes> {
    if lines == [] then []
    else (match parse(lines[0]) case None => [] case Some(text) => [text]) + Parsed(parse, lines[1..])
  }

  lemma {:induction false} NoneParse(parse: Parser, lines: seq<Bytes>)
    ensures Parsed(parse, lines) == [] <==> forall i :: 0 <= i < |lines| ==> parse(lines[i]) == None
  {
    if lines != [] {
      NoneParse(parse, lines[1..]);
      assert forall i :: 0 < i < |lines| ==> lines[i] == lines[1..][i - 1];
    }
  }

  lemma FailuresLastCons(parse: Parser, lines: seq<Bytes>)
    requires lines != []
    ensures FailuresLast(parse, lines) <==>
      (parse(lines[0]) == None ==> Parsed(parse, lines[1..]) == []) && FailuresLast(parse, lines[1..])
  {
    var rest := lines[1..];
    NoneParse(parse, rest);
    assert forall i :: 0 < i < |lines| ==> lines[i] == rest[i - 1];
    assert forall i :: 0 <= i < |rest| ==> rest[i] == lines[i + 1];
    hide Parsed;
  }

  lemma {:induction false} ParsedIsUntil(parse: Parser, lines: seq<Bytes>)
    ensures Parsed(parse, lines) == Until(parse, lines) <==> FailuresLast(parse, lines)
  {
    hide FailuresLast;
    if lines != [] {
      FailuresLastCons(parse, lines);
      ParsedIsUntil(parse, lines[1..]);
      ParsedCons(parse, lines);
      if Parsed(parse, lines[1..]) == [] {
        UntilShorter(parse, lines[1..]);
      }
    } else {
      NoFailures(parse);
    }
  }

  lemma ParsedCons(parse: Parser, lines: seq<Bytes>)
    requires lines != []
    ensures parse(lines[0]).None? ==> Parsed(parse, lines) == Parsed(parse, lines[1..]) && Until(parse, lines) == []
    ensures parse(lines[0]).Some? ==> (Parsed(parse, lines) == Until(parse, lines) <==> Parsed(parse, lines[1..]) == Until(parse, lines[1..]))
  {
    var a, b := Parsed(parse, lines[1..]), Until(parse, lines[1..]);
    if parse(lines[0]).Some? {
      var head := [parse(lines[0]).value];
      assert (head + a)[1..] == a && (head + b)[1..] == b;
    }
  }

  lemma NoFailures(parse: Parser)
    ensures FailuresLast(parse, [])
  {
  }

  lemma UntilShorter(parse: Parser, lines: seq<Bytes>)
    requires Parsed(parse, lines) == []
    ensures Until(parse, lines) == []
  {
  }

  lemma {:induction false} ParsedPlus(parse: Parser, a: seq<Bytes>, b: seq<Bytes>)
    ensures Parsed(parse, a + b) == Parsed(parse, a) + Parsed(parse, b)
  {
    if a == [] {
      assert a + b == b;
    } else {
      assert (a + b)[1..] == a[1..] + b;
      ParsedPlus(parse, a[1..], b);
    }
  }

  lemma FailuresLastParts(parse: Parser, a: seq<Bytes>, b: seq<Bytes>)
    requires FailuresLast(parse, a + b)
    ensures FailuresLast(parse, a) && FailuresLast(parse, b)
  {
    var t := a + b;
    assert forall i :: 0 <= i < |a| ==> t[i] == a[i];
    assert forall i :: 0 <= i < |b| ==> t[|a| + i] == b[i];
  }

  /** Every region starts afresh after a failure; the regions yield all lines that parse wherever no line
      parses after one that does not. */
  lemma {:induction false} RegionsKeepLines(bytes: Bytes, parse: Parser, target: nat, start: nat)
    requires start <= |bytes| && FailuresLast(parse, Lines(bytes[start..]))
    ensures LineDocsFrom(bytes, parse, target, start) == Parsed(parse, Lines(bytes[start..]))
    decreases |bytes| - start
  {
    hide *;
    if start + target < |bytes| && FindFrom(bytes, NEWLINE, start + target).Some? {
      var at := FindFrom(bytes, NEWLINE, start + target).value;
      LineDocsCut(bytes, parse, target, start, at);
      var a, b := Lines(bytes[start..at + 1]), Lines(bytes[at + 1..]);
      FailuresLastParts(parse, a, b);
      RegionsKeepLines(bytes, parse, target, at + 1);
      ParsedIsUntil(parse, a);
      ParsedPlus(parse, a, b);
    } else {
      LineDocsEnd(bytes, parse, target, start);
      ParsedIsUntil(parse, Lines(bytes[start..]));
    }
  }

  // ---------------------------------------------------------------------------
  // Regions that yield what serial reading yields
  // ---------------------------------------------------------------------------

  /** The lines of each region. */
  function PartsOf(bytes: Bytes, rs: seq<Range>): (parts: seq<seq<Bytes>>)
    requires forall r :: r in rs ==> r.start <= r.end <= |bytes|
    ensures |parts| == |rs|
  {
    if rs == [] then [] else [Lines(bytes[rs[0].start..rs[0].end])] + PartsOf(bytes, rs[1..])
  }

  function RegionLines(bytes: Bytes, target: nat): seq<seq<Bytes>> {
    LineProper();
    PartsOf(bytes, Ranges(bytes, LineBoundary(), target))
  }

  function RegionLinesFrom(bytes: Bytes, target: nat, start: nat): seq<seq<Bytes>> {
    LineProper();
    PartsOf(bytes, Regions(bytes, LineBoundary(), target, start))
  }

  /** Every part read to its own first failure. */
  function UntilEach(parse: Parser, parts: seq<seq<Bytes>>): seq<Bytes> {
    if parts == [] then [] else Until(parse, parts[0]) + UntilEach(parse, parts[1..])
  }

  predicate Fails(parse: Parser, lines: seq<Bytes>) {
    exists i :: 0 <= i < |lines| && parse(lines[i]) == None
  }

  /** Nothing is read: there is no line, or the first one does not parse. */
  predicate Barren(parse: Parser, lines: seq<Bytes>) {
    lines == [] || parse(lines[0]) == None
  }

  /** After a part with a line that does not parse, no part yields anything. */
  predicate FailsOut(parse: Parser, parts: seq<seq<Bytes>>) {
    forall i, j :: 0 <= i < j < |parts| && Fails(parse, parts[i]) ==> Barren(parse, parts[j])
  }

  lemma {:induction false} UntilPlus(parse: Parser, a: seq<Bytes>, b: seq<Bytes>)
    ensures Until(parse, a + b) == Until(parse, a) + if Fails(parse, a) then [] else Until(parse, b)
  {
    if a == [] {
      assert a + b == b;
    } else {
      assert (a + b)[1..] == a[1..] + b;
      UntilPlus(parse, a[1..], b);
      FailsCons(parse, a);
    }
  }

  lemma FailsCons(parse: Parser, lines: seq<Bytes>)
    requires lines != []
    ensures Fails(parse, lines) <==> parse(lines[0]) == None || Fails(parse, lines[1..])
  {
    if i :| 0 <= i < |lines| && parse(lines[i]) == None {
      assert i > 0 ==> lines[1..][i - 1] == lines[i];
    }
    assert forall i :: 0 <= i < |lines| - 1 ==> lines[1..][i] == lines[i + 1];
  }

  lemma {:induction false} UntilEachNone(parse: Parser, parts: seq<seq<Bytes>>)
    ensures UntilEach(parse, parts) == [] <==> forall j :: 0 <= j < |parts| ==> Barren(parse, parts[j])
  {
    if parts != [] {
      UntilEachNone(parse, parts[1..]);
      assert forall j :: 0 < j < |parts| ==> parts[j] == parts[1..][j - 1];
      assert forall j :: 0 <= j < |parts| - 1 ==> parts[1..][j] == parts[j + 1];
    }
  }

  lemma FailsOutCons(parse: Parser, parts: seq<seq<Bytes>>)
    requires parts != []
    ensures FailsOut(parse, parts) <==>
      FailsOut(parse, parts[1..]) && (Fails(parse, parts[0]) ==> forall j :: 0 <= j < |parts[1..]| ==> Barren(parse, parts[1..][j]))
  {
    var rest := parts[1..];
    assert forall j :: 0 < j < |parts| ==> parts[j] == rest[j - 1];
    assert forall j :: 0 <= j < |rest| ==> rest[j] == parts[j + 1];
    hide Fails, Barren;
  }

  /** Reading part by part is reading the whole exactly when nothing is read after a part that fails. */
  lemma {:induction false} UntilEachIsUntil(parse: Parser, parts: seq<seq<Bytes>>)
    ensures UntilEach(parse, parts) == Until(parse, Concat(parts)) <==> FailsOut(parse, parts)
  {
    hide Fails, Barren, Until;
    if parts == [] {
      UntilNone(parse);
    } else {
      var rest := parts[1..];
      UntilEachIsUntil(parse, rest);
      UntilPlus(parse, parts[0], Concat(rest));
      FailsOutCons(parse, parts);
      UntilEachNone(parse, rest);
      NothingToFail(parse, rest);
      UntilEachCons(parse, parts);
      SameBehind(Until(parse, parts[0]), UntilEach(parse, rest), if Fails(parse, parts[0]) then [] else Until(parse, Concat(rest)));
    }
  }

  lemma SameBehind(a: seq<Bytes>, x: seq<Bytes>, y: seq<Bytes>)
    ensures a + x == a + y <==> x == y
  {
    assert (a + x)[|a|..] == x && (a + y)[|a|..] == y;
  }

  lemma UntilEachCons(parse: Parser, parts: seq<seq<Bytes>>)
    requires parts != []
    ensures UntilEach(parse, parts) == Until(parse, parts[0]) + UntilEach(parse, parts[1..])
  {
  }

  lemma NothingToFail(parse: Parser, parts: seq<seq<Bytes>>)
    ensures (forall j :: 0 <= j < |parts| ==> Barren(parse, parts[j])) ==> FailsOut(parse, parts)
  {
  }

  lemma {:induction false} DocsOfParts(bytes: Bytes, parse: Parser, rs: seq<Range>)
    requires forall r :: r in rs ==> r.start <= r.end <= |bytes|
    ensures DocsOf(bytes, rs, LineDocs(parse)) == UntilEach(parse, PartsOf(bytes, rs))
  {
    hide Lines, Until;
    if rs != [] {
      DocsOfParts(bytes, parse, rs[1..]);
    }
  }

  lemma RegionLinesCut(bytes: Bytes, target: nat, start: nat, at: nat)
    requires start + target < |bytes| && FindFrom(bytes, NEWLINE, start + target) == Some(at)
    ensures start <= at < |bytes|
    ensures Concat(RegionLinesFrom(bytes, target, start)) == Lines(bytes[start..at + 1]) + Concat(RegionLinesFrom(bytes, target, at + 1))
    ensures Lines(bytes[start..]) == Lines(bytes[start..at + 1]) + Lines(bytes[at + 1..])
  {
    hide Lines, FindFrom;
    LineProper();
    NewlineAt(bytes, at);
    var rs := Regions(bytes, LineBoundary(), target, start);
    assert rs == [Range(start, at + 1)] + Regions(bytes, LineBoundary(), target, at + 1);
    LinesCut(bytes, start, at);
  }

  lemma RegionLinesEnd(bytes: Bytes, target: nat, start: nat)
    requires start <= |bytes| && (start + target >= |bytes| || FindFrom(bytes, NEWLINE, start + target) == None)
    ensures Concat(RegionLinesFrom(bytes, target, start)) == Lines(bytes[start..])
  {
    hide FindFrom, Lines;
    LineProper();
    NoLines();
    var rs := Regions(bytes, LineBoundary(), target, start);
    if start < |bytes| {
      assert rs == [Range(start, |bytes|)] && bytes[start..|bytes|] == bytes[start..];
      assert PartsOf(bytes, rs) == [Lines(bytes[start..])];
      assert Concat([Lines(bytes[start..])]) == Lines(bytes[start..]) + [];
    } else {
      assert bytes[start..] == [];
    }
  }

  /** The regions' lines are the buffer's lines, for every region size. */
  lemma {:induction false} RegionsPartLines(bytes: Bytes, target: nat, start: nat)
    requires start <= |bytes|
    ensures Concat(RegionLinesFrom(bytes, target, start)) == Lines(bytes[start..])
    decreases |bytes| - start
  {
    hide *;
    if start + target < |bytes| && FindFrom(bytes, NEWLINE, start + target).Some? {
      var at := FindFrom(bytes, NEWLINE, start + target).value;
      RegionLinesCut(bytes, target, start, at);
      RegionsPartLines(bytes, target, at + 1);
    } else {
      RegionLinesEnd(bytes, target, start);
    }
  }

  lemma RegionLinesAre(bytes: Bytes, parse: Parser, target: nat)
    ensures ChunkedLineDocs(bytes, parse, target) == UntilEach(parse, RegionLines(bytes, target))
    ensures Concat(RegionLines(bytes, target)) == Lines(bytes)
  {
    hide Lines, Regions;
    LineProper();
    DocsOfParts(bytes, parse, Ranges(bytes, LineBoundary(), target));
    if bytes == [] {
      NoLines();
      assert bytes[0..0] == [];
      assert Concat([Lines([])]) == Lines([]) + [];
      assert PartsOf(bytes, [Range(0, 0)]) == [Lines([])];
    } else {
      RegionsPartLines(bytes, target, 0);
      assert bytes[0..] == bytes;
    }
  }

  /** Of one buffer, at one region size: region-wise reading is serial reading exactly when every region after one
      with a line that does not parse begins with such a line, or has none. */
  lemma ChunkedIsSerialIffFailsOut(bytes: Bytes, parse: Parser, target: nat)
    ensures ChunkedLineDocs(bytes, parse, target) == Until(parse, Lines(bytes)) <==> FailsOut(parse, RegionLines(bytes, target))
  {
    hide *;
    RegionLinesAre(bytes, parse, target);
    UntilEachIsUntil(parse, RegionLines(bytes, target));
  }

  // ---------------------------------------------------------------------------
  // Parsers for which every buffer is read alike
  // ---------------------------------------------------------------------------

  predicate IsLine(line: Bytes) {
    line != [] && NEWLINE[0] !in line
  }

  /** Some line does not parse and another one does. */
  ghost predicate Mixed(parse: Parser) {
    exists bad: Bytes, good: Bytes :: IsLine(bad) && IsLine(good) && parse(bad).None? && parse(good).Some?
  }

  lemma NewlineIn(s: Bytes, p: nat)
    ensures OccursAt(s, NEWLINE, p) <==> p < |s| && s[p] == NEWLINE[0]
  {
    if p < |s| {
      assert s[p..p + 1] == [s[p]];
    }
  }

  lemma {:induction false} LinesAreLines(s: Bytes)
    ensures forall line :: line in Lines(s) ==> IsLine(line)
    decreases |s|
  {
    hide FindFrom, OccursAt;
    if s == [] {
      NoLines();
    } else if s[0] == NEWLINE[0] {
      SkipLines(s, 0);
      LinesAreLines(s[1..]);
      assert s[0..] == s;
    } else {
      assert s[0..] == s;
      match FindFrom(s, NEWLINE, 0)
      case Some(at) =>
        LineEndsAt(s, 0, at);
        forall p: nat | p < at ensures s[p] != NEWLINE[0] { NewlineIn(s, p); }
        LinesAreLines(s[at + 1..]);
        hide Lines;
        assert forall line :: line in Lines(s) ==> line == s[0..at] || line in Lines(s[at + 1..]);
      case None =>
        LastLine(s, 0);
        forall p: nat | p < |s| ensures s[p] != NEWLINE[0] { NewlineIn(s, p); }
        assert s[0..|s|] == s;
        assert NEWLINE[0] !in s;
    }
  }

  function Newlines(n: nat): Bytes {
    seq(n, i => NEWLINE[0])
  }

  /** Newlines before the rest are skipped. */
  lemma {:induction false} LinesBehindNewlines(s: Bytes, from: nat, to: nat)
    requires from <= to <= |s| && forall p :: from <= p < to ==> s[p] == NEWLINE[0]
    ensures Lines(s[from..]) == Lines(s[to..])
    decreases |s| - from
  {
    hide Lines;
    if from < to {
      SkipLines(s, from);
      LinesBehindNewlines(s, from + 1, to);
    }
  }

  lemma FirstNewline(s: Bytes, from: nat, at: nat)
    requires from <= at < |s| && s[at] == NEWLINE[0] && forall p :: from <= p < at ==> s[p] != NEWLINE[0]
    ensures FindFrom(s, NEWLINE, from) == Some(at)
  {
    hide OccursAt, FindFrom;
    NewlineIn(s, at);
    forall p: nat | from <= p < at ensures !OccursAt(s, NEWLINE, p) { NewlineIn(s, p); }
    FirstIs(s, NEWLINE, from, at);
  }

  /** A line, and newlines after it up to the end. */
  lemma LineThenNewlines(s: Bytes, n: nat)
    requires 0 < n < |s| && IsLine(s[..n]) && forall p :: n <= p < |s| ==> s[p] == NEWLINE[0]
    ensures Lines(s) == [s[..n]]
  {
    hide Lines, FindFrom;
    assert forall p :: 0 <= p < n ==> s[p] in s[..n];
    FirstNewline(s, 0, n);
    LineEndsAt(s, 0, n);
    LinesBehindNewlines(s, n + 1, |s|);
    NoLines();
    assert s[0..] == s && s[|s|..] == [] && s[0..n] == s[..n];
  }

  /** A line that does not parse, enough newlines to fill the region, and a line that parses. */
  function BadThenGood(bad: Bytes, n: nat, good: Bytes): Bytes {
    bad + Newlines(n) + good
  }

  lemma BadThenGoodBytes(bad: Bytes, n: nat, good: Bytes)
    requires IsLine(bad) && IsLine(good)
    ensures var w, k := BadThenGood(bad, n, good), |bad| + n;
      && |w| == k + |good| && bad != [] && w[..|bad|] == bad && w[k..] == good
      && (forall p :: |bad| <= p < k ==> w[p] == NEWLINE[0])
      && (forall p :: 0 <= p < |w| && !(|bad| <= p < k) ==> w[p] != NEWLINE[0])
  {
    var w, k := BadThenGood(bad, n, good), |bad| + n;
    forall p | 0 <= p < |w| && !(|bad| <= p < k) ensures w[p] != NEWLINE[0] {
      assert w[p] == if p < |bad| then bad[p] else good[p - k];
    }
  }

  lemma BadThenGoodLines(bad: Bytes, n: nat, good: Bytes, from: nat)
    requires IsLine(bad) && IsLine(good) && |bad| <= from <= |bad| + n
    ensures Lines(BadThenGood(bad, n, good)[from..]) == [good]
  {
    hide Lines, BadThenGood, FindFrom, OccursAt;
    var w, k := BadThenGood(bad, n, good), |bad| + n;
    BadThenGoodBytes(bad, n, good);
    LinesBehindNewlines(w, from, k);
    forall p: nat | k <= p ensures !OccursAt(w, NEWLINE, p) { NewlineIn(w, p); }
    NoneIs(w, NEWLINE, k);
    LastLine(w, k);
    assert w[k..|w|] == w[k..];
  }

  lemma BadThenGoodSerial(bad: Bytes, n: nat, good: Bytes, parse: Parser)
    requires IsLine(bad) && IsLine(good) && parse(bad).None? && n > 0
    ensures Until(parse, Lines(BadThenGood(bad, n, good))) == []
  {
    hide Lines, BadThenGood, FindFrom;
    var w := BadThenGood(bad, n, good);
    BadThenGoodBytes(bad, n, good);
    FirstNewline(w, 0, |bad|);
    LineEndsAt(w, 0, |bad|);
    assert w[0..] == w && w[0..|bad|] == bad;
    UntilCons(parse, bad, Lines(w[|bad| + 1..]));
  }

  lemma BadThenGoodCut(bad: Bytes, n: nat, good: Bytes, target: nat) returns (at: nat)
    requires IsLine(bad) && IsLine(good) && target < n
    ensures FindFrom(BadThenGood(bad, n, good), NEWLINE, target) == Some(at) && |bad| <= at < |bad| + n
  {
    hide BadThenGood, OccursAt;
    var w := BadThenGood(bad, n, good);
    BadThenGoodBytes(bad, n, good);
    NewlineIn(w, |bad| + n - 1);
    at := FindFrom(w, NEWLINE, target).value;
    NewlineIn(w, at);
  }

  /** The second line is in a later region, and is read. */
  lemma BadThenGoodChunked(bad: Bytes, n: nat, good: Bytes, parse: Parser, target: nat)
    requires IsLine(bad) && IsLine(good) && parse(bad).None? && parse(good).Some? && target < n
    ensures ChunkedLineDocs(BadThenGood(bad, n, good), parse, target) == [parse(good).value]
  {
    hide *;
    var w := BadThenGood(bad, n, good);
    BadThenGoodBytes(bad, n, good);
    var at := BadThenGoodCut(bad, n, good, target);
    ChunkedIsFromStart(w, parse, target);
    assert 0 + target == target;
    LineDocsCut(w, parse, target, 0, at);
    var head := w[0..at + 1];
    assert head[..|bad|] == bad;
    LineThenNewlines(head, |bad|);
    ReadOne(parse, bad);
    ReadOne(parse, good);
    BadThenGoodLines(bad, n, good, at + 1);
    RegionsKeepLines(w, parse, target, at + 1);
  }

  lemma ReadOne(parse: Parser, line: Bytes)
    ensures var read := match parse(line) case None => [] case Some(text) => [text];
      Until(parse, [line]) == read && Parsed(parse, [line]) == read
    ensures FailuresLast(parse, [line])
  {
    assert [line][1..] == [];
  }

  lemma NotMixed(bytes: Bytes, parse: Parser, target: nat)
    requires !Mixed(parse)
    ensures ChunkedLineDocs(bytes, parse, target) == Until(parse, Lines(bytes))
  {
    hide Lines, ChunkedLineDocs, Until, Parsed, IsLine;
    LinesAreLines(bytes);
    assert FailuresLast(parse, Lines(bytes));
    assert bytes[0..] == bytes;
    hide FailuresLast, Mixed, LineDocsFrom;
    ChunkedIsFromStart(bytes, parse, target);
    RegionsKeepLines(bytes, parse, target, 0);
    ParsedIsUntil(parse, Lines(bytes));
  }

  /** At a region size, region-wise reading is serial reading for every buffer exactly when not some lines parse and
      others do not. */
  lemma ChunkedIsSerialIffNotMixed(parse: Parser, target: nat)
    ensures (forall bytes :: ChunkedLineDocs(bytes, parse, target) == Until(parse, Lines(bytes))) <==> !Mixed(parse)
  {
    hide Lines, ChunkedLineDocs, Until, IsLine, BadThenGood;
    if Mixed(parse) {
      var bad: Bytes, good: Bytes :| IsLine(bad) && IsLine(good) && parse(bad).None? && parse(good).Some?;
      BadThenGoodSerial(bad, target + 1, good, parse);
      BadThenGoodChunked(bad, target + 1, good, parse, target);
      assert ChunkedLineDocs(BadThenGood(bad, target + 1, good), parse, target) != [];
    } else {
      forall bytes ensures ChunkedLineDocs(bytes, parse, target) == Until(parse, Lines(bytes)) {
        NotMixed(bytes, parse, target);
      }
    }
  }

  /** The same at the region size the program takes for the buffer, with any number of threads. */
  lemma ReadIsSerialIffNotMixed(parse: Parser, threads: nat)
    requires threads > 0
    ensures (forall bytes :: ChunkedLineDocs(bytes, parse, ChunkTarget(|bytes|, threads)) == Until(parse, Lines(bytes))) <==> !Mixed(parse)
  {
    hide Lines, ChunkedLineDocs, Until, IsLine, BadThenGood, ChunkTarget;
    if Mixed(parse) {
      var bad: Bytes, good: Bytes :| IsLine(bad) && IsLine(good) && parse(bad).None? && parse(good).Some?;
      var n := MIN_CHUNK_BYTES + 1 + |bad| + |good|;
      var w := BadThenGood(bad, n, good);
      BadThenGoodBytes(bad, n, good);
      TargetGrows(|w|, threads);
      BadThenGoodSerial(bad, n, good, parse);
      BadThenGoodChunked(bad, n, good, parse, ChunkTarget(|w|, threads));
      assert ChunkedLineDocs(w, parse, ChunkTarget(|w|, threads)) != [];
    } else {
      forall bytes ensures ChunkedLineDocs(bytes, parse, ChunkTarget(|bytes|, threads)) == Until(parse, Lines(bytes)) {
        NotMixed(bytes, parse, ChunkTarget(|bytes|, threads));
      }
    }
  }
}
