/** Documents of a byte buffer: what lies between separators, and the iterator that yields them. */
module Documents {
  import opened Common
  import opened Utf8
  import opened ByteSearch

  /** The non-empty pieces between leftmost, non-overlapping separators; an empty separator never splits. */
  function Docs(s: Bytes, sep: Bytes): seq<Bytes>
    decreases |s|
  {
    if s == [] then []
    else if sep == [] then [s]
    else
      match FindFrom(s, sep, 0)
      case None => [s]
      case Some(at) => (if at > 0 then [s[..at]] else []) + Docs(s[at + |sep|..], sep)
  }

  /** No proper prefix of the separator is a suffix of it. */
  ghost predicate BorderFree(sep: Bytes) {
    forall k :: 0 < k < |sep| ==> !IsBorder(sep, k)
  }

  predicate IsBorder(sep: Bytes, k: nat) {
    k <= |sep| && sep[..k] == sep[|sep| - k..]
  }

  lemma OccursByte(s: Bytes, u: Bytes, p: int, i: nat)
    requires OccursAt(s, u, p) && i < |u|
    ensures s[p + i] == u[i]
  {
    assert s[p + i] == s[p..p + |u|][i];
  }

  /** Occurrences of a border-free separator never overlap. */
  lemma NoOverlap(s: Bytes, sep: Bytes, p: nat, q: nat)
    requires BorderFree(sep) && OccursAt(s, sep, p) && OccursAt(s, sep, q) && p < q
    ensures p + |sep| <= q
  {
    if q < p + |sep| {
      var k := p + |sep| - q;
      forall i | 0 <= i < k ensures sep[i] == sep[|sep| - k + i] {
        OccursByte(s, sep, q, i);
        OccursByte(s, sep, p, q - p + i);
      }
      assert sep[..k] == sep[|sep| - k..];
      assert IsBorder(sep, k);
    }
  }

  /** The first occurrence is the first occurrence. */
  lemma FirstIs(s: Bytes, u: Bytes, from: nat, at: nat)
    requires from <= at && OccursAt(s, u, at) && forall p :: from <= p < at ==> !OccursAt(s, u, p)
    ensures FindFrom(s, u, from) == Some(at)
  {
    var r := FindFrom(s, u, from);
    assert r.Some?;
  }

  lemma NoneIs(s: Bytes, u: Bytes, from: nat)
    requires forall p :: from <= p ==> !OccursAt(s, u, p)
    ensures FindFrom(s, u, from) == None
  {
  }

  /** Searching from a position is searching the suffix. */
  lemma FindShift(s: Bytes, u: Bytes, from: nat)
    requires from <= |s|
    ensures match FindFrom(s, u, from)
      case None => FindFrom(s[from..], u, 0) == None
      case Some(at) => at >= from && FindFrom(s[from..], u, 0) == Some(at - from)
  {
    hide OccursAt;
    forall p: int | from <= p ensures OccursAt(s[from..], u, p - from) <==> OccursAt(s, u, p) { OccursInSuffix(s, u, from, p - from); }
    match FindFrom(s, u, from)
    case None =>
      forall q: nat ensures !OccursAt(s[from..], u, q) { assert !OccursAt(s, u, from + q); OccursInSuffix(s, u, from, q); }
      NoneIs(s[from..], u, 0);
    case Some(at) =>
      forall q: nat | q < at - from ensures !OccursAt(s[from..], u, q) { assert !OccursAt(s, u, from + q); OccursInSuffix(s, u, from, q); }
      OccursInSuffix(s, u, from, at - from);
      FirstIs(s[from..], u, 0, at - from);
  }

  lemma DocsFirst(s: Bytes, sep: Bytes, at: nat)
    requires sep != [] && FindFrom(s, sep, 0) == Some(at) && at + |sep| <= |s|
    ensures Docs(s, sep) == (if at > 0 then [s[..at]] else []) + Docs(s[at + |sep|..], sep)
  {
    hide OccursAt, FindFrom;
    assert s != [];
  }

  lemma DocsNone(s: Bytes, sep: Bytes)
    requires sep != [] && FindFrom(s, sep, 0) == None
    ensures Docs(s, sep) == if s == [] then [] else [s]
  {
  }

  /** The documents before a separator occurrence, then those after it: for a border-free separator any
      occurrence is a place to cut. */
  lemma {:induction false} DocsCut(s: Bytes, sep: Bytes, e: nat)
    requires BorderFree(sep) && sep != [] && OccursAt(s, sep, e) && e + |sep| <= |s|
    ensures Docs(s, sep) == Docs(s[..e], sep) + Docs(s[e + |sep|..], sep)
    decreases |s|
  {
    hide *;
    var at := FirstUpTo(s, sep, e);
    DocsFirst(s, sep, at);
    if at == e {
      forall p: int | 0 <= p ensures !OccursAt(s[..e], sep, p) { OccursInPrefix(s, sep, e, p); }
      NoneIs(s[..e], sep, 0);
      DocsNone(s[..e], sep);
    } else {
      NoOverlap(s, sep, at, e);
      var from := at + |sep|;
      FirstInPrefix(s, sep, at, e);
      DocsFirst(s[..e], sep, at);
      OccursInSuffix(s, sep, from, e - from);
      DocsCut(s[from..], sep, e - from);
      assert s[..e][from..] == s[from..][..e - from];
      assert s[from..][e - from + |sep|..] == s[e + |sep|..];
      assert s[..e][..at] == s[..at];
    }
  }

  /** The first occurrence lies at or before any occurrence. */
  lemma FirstUpTo(s: Bytes, sep: Bytes, e: nat) returns (at: nat)
    requires OccursAt(s, sep, e)
    ensures FindFrom(s, sep, 0) == Some(at) && at <= e && OccursAt(s, sep, at) && at + |sep| <= |s|
    ensures forall p :: 0 <= p < at ==> !OccursAt(s, sep, p)
  {
    at := FindFrom(s, sep, 0).value;
  }

  lemma FirstInPrefix(s: Bytes, sep: Bytes, at: nat, e: nat)
    requires FindFrom(s, sep, 0) == Some(at) && at + |sep| <= e <= |s|
    ensures FindFrom(s[..e], sep, 0) == Some(at)
  {
    hide OccursAt;
    forall p: int | 0 <= p < at ensures !OccursAt(s[..e], sep, p) { OccursInPrefix(s, sep, e, p); }
    OccursInPrefix(s, sep, e, at);
    FirstIs(s[..e], sep, 0, at);
  }

  lemma NoDocs(sep: Bytes)
    ensures Docs([], sep) == []
  {
  }

  /** The same, keeping the separator with what it ends. */
  lemma DocsCutAfter(s: Bytes, sep: Bytes, e: nat)
    requires BorderFree(sep) && sep != [] && OccursAt(s, sep, e) && e + |sep| <= |s|
    ensures Docs(s, sep) == Docs(s[..e + |sep|], sep) + Docs(s[e + |sep|..], sep)
  {
    hide *;
    var head := s[..e + |sep|];
    NoDocs(sep);
    OccursInPrefix(s, sep, e + |sep|, e);
    DocsCut(s, sep, e);
    DocsCut(head, sep, e);
    assert head[..e] == s[..e] && head[e + |sep|..] == [];
  }

  lemma DocsWhole(s: Bytes)
    ensures Docs(s, []) == if s == [] then [] else [s]
  {
  }

  lemma FoundFits(s: Bytes, u: Bytes, at: nat)
    requires FindFrom(s, u, 0) == Some(at)
    ensures at + |u| <= |s|
  {
  }

  // ---------------------------------------------------------------------------
  // The iterator
  // ---------------------------------------------------------------------------

  class DocumentIter {
    const bytes: Bytes
    const separator: Bytes
    const end: nat
    var position: nat
    var finished: bool

    ghost predicate Valid()
      reads this
    {
      position <= end <= |bytes|
    }

    /** The documents still to come. */
    ghost function Remaining(): seq<Bytes>
      requires Valid()
      reads this
    {
      if finished then [] else Docs(bytes[position..end], separator)
    }

    constructor NewRange(bytes: Bytes, separator: Bytes, start: nat, end: nat)
      requires start <= end <= |bytes|
      ensures Valid() && Remaining() == Docs(bytes[start..end], separator)
    {
      this.bytes, this.separator, this.end := bytes, separator, end;
      position, finished := start, false;
    }

    /** Yields the first of the remaining documents, or None when there are none. */
    method Next() returns (r: Option<Bytes>)
      requires Valid()
      modifies this
      ensures Valid()
      ensures match r
        case None => old(Remaining()) == [] && Remaining() == []
        case Some(doc) => old(Remaining()) == [doc] + Remaining()
    {
      hide Docs, FindFrom, OccursAt;
      while true
        invariant Valid() && Remaining() == old(Remaining())
        decreases end - position
      {
        if finished || position >= end {
          NoDocs(separator);
          assert bytes[end..end] == [];
          return None;
        }
        var range := bytes[position..end];
        if separator == [] {
          DocsWhole(range);
          finished := true;
          return Some(range);
        }
        match FindFrom(range, separator, 0) {
          case Some(offset) =>
            FoundFits(range, separator, offset);
            DocsFirst(range, separator, offset);
            Advance(range, offset);
            var doc := bytes[position..position + offset];
            position := position + (offset + |separator|);
            if doc != [] {
              return Some(doc);
            }
          case None =>
            DocsNone(range, separator);
            finished := true;
            return Some(range);
        }
      }
    }

    lemma Advance(range: Bytes, offset: nat)
      requires Valid() && range == bytes[position..end] && offset + |separator| <= |range|
      ensures bytes[position..position + offset] == range[..offset]
      ensures bytes[position + (offset + |separator|)..end] == range[offset + |separator|..]
    {
    }

    /** Iterating to the end yields all of them, in order. */
    method Collect() returns (docs: seq<Bytes>)
      requires Valid()
      modifies this
      ensures docs == old(Remaining())
    {
      hide Remaining, Valid;
      docs := [];
      while true
        invariant Valid() && docs + Remaining() == old(Remaining())
        decreases |Remaining()|
      {
        var r := Next();
        if r.None? {
          return;
        }
        docs := docs + [r.value];
      }
    }
  }
}
