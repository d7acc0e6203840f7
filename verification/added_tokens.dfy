/** Added-token matching: leftmost-longest occurrences, and the whitespace strips around them. */
module AddedTokens {
  import opened Common
  import opened Utf8
  import opened SpModel

  datatype Match = Match(start: nat, end: nat, token: nat)

  /** Contents are non-empty text. */
  predicate TokensOk(specs: seq<AddedToken>) {
    forall i :: 0 <= i < |specs| ==> specs[i].content != [] && Valid(specs[i].content)
  }

  // ---------------------------------------------------------------------------
  // Leftmost-longest matches
  // ---------------------------------------------------------------------------

  predicate TokenAt(specs: seq<AddedToken>, text: Bytes, i: nat, p: int) {
    i < |specs| && specs[i].content != [] && OccursAt(text, specs[i].content, p)
  }

  /** Token `i` is taken rather than `j`: it is longer, or equally long and listed no later. */
  predicate Preferred(specs: seq<AddedToken>, i: nat, j: nat)
    requires i < |specs| && j < |specs|
  {
    |specs[i].content| > |specs[j].content| || (|specs[i].content| == |specs[j].content| && i <= j)
  }

  /** No token occurs from `from` up to `to`. */
  ghost predicate NoTokenIn(specs: seq<AddedToken>, text: Bytes, from: nat, to: nat) {
    forall i: nat, p: nat :: from <= p < to ==> !TokenAt(specs, text, i, p)
  }

  /** The leftmost occurrence at or after `at`, the longest one there, the first listed of these. */
  ghost predicate LeftmostLongest(specs: seq<AddedToken>, text: Bytes, at: nat, x: Match) {
    && at <= x.start && TokenAt(specs, text, x.token, x.start) && x.end == x.start + |specs[x.token].content|
    && NoTokenIn(specs, text, at, x.start)
    && (forall i: nat :: TokenAt(specs, text, i, x.start) ==> Preferred(specs, x.token, i))
  }

  /** The longest token among the first `n` that occurs at `p`; the first of equal ones. */
  function LongestAt(specs: seq<AddedToken>, text: Bytes, p: nat, n: nat): (r: Option<nat>)
    requires n <= |specs|
    ensures r.Some? ==> r.value < n && TokenAt(specs, text, r.value, p)
    ensures r.None? ==> forall i :: 0 <= i < n ==> !TokenAt(specs, text, i, p)
    ensures r.Some? ==> forall i: nat :: i < n && TokenAt(specs, text, i, p) ==> Preferred(specs, r.value, i)
  {
    if n == 0 then None
    else
      var rest := LongestAt(specs, text, p, n - 1);
      if TokenAt(specs, text, n - 1, p) && (rest.None? || |specs[n - 1].content| > |specs[rest.value].content|) then Some(n - 1)
      else rest
  }

  /** The first match at or after `at`. */
  function NextMatch(specs: seq<AddedToken>, text: Bytes, at: nat): (r: Option<Match>)
    requires at <= |text|
    ensures r.Some? ==>
      && at <= r.value.start < r.value.end <= |text| && TokenAt(specs, text, r.value.token, r.value.start)
      && r.value.end == r.value.start + |specs[r.value.token].content|
    ensures r.Some? ==> LeftmostLongest(specs, text, at, r.value)
    ensures r.None? ==> NoTokenIn(specs, text, at, |text| + 1)
    decreases |text| - at
  {
    if at == |text| then None
    else
      match LongestAt(specs, text, at, |specs|)
      case Some(i) => Some(Match(at, at + |specs[i].content|, i))
      case None => NextMatch(specs, text, at + 1)
  }

  /** All matches from `at` on, each search resuming where the last match ended. */
  function Matches(specs: seq<AddedToken>, text: Bytes, at: nat): seq<Match>
    requires at <= |text|
    decreases |text| - at
  {
    match NextMatch(specs, text, at)
    case None => []
    case Some(x) => [x] + Matches(specs, text, x.end)
  }

  /** One leftmost-longest match after the other, each from where the one before ended, and none behind the last. */
  ghost predicate AllLeftmostLongest(specs: seq<AddedToken>, text: Bytes, at: nat, xs: seq<Match>) {
    && (forall k: nat :: k < |xs| ==> LeftmostLongest(specs, text, Resume(at, xs, k), xs[k]))
    && NoTokenIn(specs, text, Resume(at, xs, |xs|), |text| + 1)
  }

  /** Where the search for the `k`-th match starts. */
  function Resume(at: nat, xs: seq<Match>, k: nat): nat
    requires k <= |xs|
  {
    if k == 0 then at else xs[k - 1].end
  }

  lemma LeftmostLongestUnique(specs: seq<AddedToken>, text: Bytes, at: nat, x: Match, y: Match)
    requires LeftmostLongest(specs, text, at, x) && LeftmostLongest(specs, text, at, y)
    ensures x == y
  {
  }

  lemma AllLeftmostLongestCons(specs: seq<AddedToken>, text: Bytes, at: nat, x: Match, xs: seq<Match>)
    ensures AllLeftmostLongest(specs, text, at, [x] + xs) <==> LeftmostLongest(specs, text, at, x) && AllLeftmostLongest(specs, text, x.end, xs)
  {
    hide LeftmostLongest, NoTokenIn;
    var all := [x] + xs;
    assert forall k: nat :: k <= |xs| ==> Resume(at, all, k + 1) == Resume(x.end, xs, k);
    if AllLeftmostLongest(specs, text, at, all) {
      assert LeftmostLongest(specs, text, Resume(at, all, 0), all[0]);
      forall k: nat | k < |xs| ensures LeftmostLongest(specs, text, Resume(x.end, xs, k), xs[k]) {
        assert LeftmostLongest(specs, text, Resume(at, all, k + 1), all[k + 1]);
      }
    }
    if LeftmostLongest(specs, text, at, x) && AllLeftmostLongest(specs, text, x.end, xs) {
      forall k: nat | k < |all| ensures LeftmostLongest(specs, text, Resume(at, all, k), all[k]) {
        if k > 0 {
          assert LeftmostLongest(specs, text, Resume(x.end, xs, k - 1), xs[k - 1]);
        }
      }
    }
  }

  /** The matches are the leftmost-longest ones, without overlap, and all of them. */
  lemma {:induction false} MatchesAreLeftmostLongest(specs: seq<AddedToken>, text: Bytes, at: nat, xs: seq<Match>)
    requires at <= |text|
    ensures AllLeftmostLongest(specs, text, at, xs) <==> xs == Matches(specs, text, at)
    decreases |text| - at
  {
    hide LeftmostLongest, AllLeftmostLongest, NoTokenIn;
    var next := NextMatch(specs, text, at);
    if xs == [] {
      NoMatches(specs, text, at);
    } else {
      AllLeftmostLongestCons(specs, text, at, xs[0], xs[1..]);
      assert xs == [xs[0]] + xs[1..];
      if next.Some? {
        if LeftmostLongest(specs, text, at, xs[0]) {
          LeftmostLongestUnique(specs, text, at, xs[0], next.value);
        }
        MatchesAreLeftmostLongest(specs, text, next.value.end, xs[1..]);
      } else {
        NotPastEnd(specs, text, at, xs[0]);
      }
    }
  }

  lemma NoMatches(specs: seq<AddedToken>, text: Bytes, at: nat)
    requires at <= |text|
    ensures AllLeftmostLongest(specs, text, at, []) <==> NextMatch(specs, text, at).None?
  {
    hide NextMatch;
  }

  lemma NotPastEnd(specs: seq<AddedToken>, text: Bytes, at: nat, x: Match)
    requires NoTokenIn(specs, text, at, |text| + 1)
    ensures !LeftmostLongest(specs, text, at, x)
  {
  }

  function Shift(x: Match, k: nat): Match {
    Match(x.start + k, x.end + k, x.token)
  }

  function ShiftAll(xs: seq<Match>, k: nat): seq<Match> {
    if xs == [] then [] else [Shift(xs[0], k)] + ShiftAll(xs[1..], k)
  }

  /** No occurrence of a token has `p` strictly inside. */
  ghost predicate Unstraddled(specs: seq<AddedToken>, text: Bytes, p: nat) {
    forall i: nat, s: nat :: TokenAt(specs, text, i, s) ==> !(s < p < s + |specs[i].content|)
  }

  lemma {:induction false} LongestAtAgree(specs: seq<AddedToken>, a: Bytes, p: nat, b: Bytes, q: nat, n: nat)
    requires n <= |specs|
    requires forall i :: 0 <= i < n ==> (TokenAt(specs, a, i, p) <==> TokenAt(specs, b, i, q))
    ensures LongestAt(specs, a, p, n) == LongestAt(specs, b, q, n)
  {
    if n > 0 {
      LongestAtAgree(specs, a, p, b, q, n - 1);
    }
  }

  lemma LongestInPrefix(specs: seq<AddedToken>, text: Bytes, p: nat, q: nat)
    requires p <= |text| && q < p && Unstraddled(specs, text, p)
    ensures LongestAt(specs, text[..p], q, |specs|) == LongestAt(specs, text, q, |specs|)
  {
    forall i: nat | i < |specs| ensures TokenAt(specs, text[..p], i, q) <==> TokenAt(specs, text, i, q) {
      if specs[i].content != [] {
        OccursInPrefix(text, specs[i].content, p, q);
      }
    }
    LongestAtAgree(specs, text[..p], q, text, q, |specs|);
  }

  lemma LongestInSuffix(specs: seq<AddedToken>, text: Bytes, p: nat, q: nat)
    requires p <= |text|
    ensures LongestAt(specs, text[p..], q, |specs|) == LongestAt(specs, text, q + p, |specs|)
  {
    forall i: nat | i < |specs| ensures TokenAt(specs, text[p..], i, q) <==> TokenAt(specs, text, i, q + p) {
      OccursInSuffix(text, specs[i].content, p, q);
    }
    LongestAtAgree(specs, text[p..], q, text, q + p, |specs|);
  }

  lemma {:induction false} NextMatchInSuffix(specs: seq<AddedToken>, text: Bytes, p: nat, at: nat)
    requires p + at <= |text|
    ensures NextMatch(specs, text, at + p) ==
            match NextMatch(specs, text[p..], at) { case None => None case Some(x) => Some(Shift(x, p)) }
    decreases |text| - at
  {
    hide LeftmostLongest, NoTokenIn, Preferred, TokenAt;
    if p + at < |text| {
      LongestInSuffix(specs, text, p, at);
      if LongestAt(specs, text, at + p, |specs|).None? {
        NextMatchInSuffix(specs, text, p, at + 1);
      }
    }
  }

  /** Matching a suffix is matching the text from there. */
  lemma {:induction false} MatchesInSuffix(specs: seq<AddedToken>, text: Bytes, p: nat, at: nat)
    requires p + at <= |text|
    ensures Matches(specs, text, at + p) == ShiftAll(Matches(specs, text[p..], at), p)
    decreases |text| - at
  {
    hide NextMatch;
    NextMatchInSuffix(specs, text, p, at);
    match NextMatch(specs, text[p..], at)
    case None =>
    case Some(x) =>
      MatchesInSuffix(specs, text, p, x.end);
      assert ([x] + Matches(specs, text[p..], x.end))[1..] == Matches(specs, text[p..], x.end);
  }

  /** Up to an unstraddled point the prefix sees the same next match; past it, none. */
  lemma {:induction false} NextMatchInPrefix(specs: seq<AddedToken>, text: Bytes, p: nat, at: nat)
    requires at <= p <= |text| && Unstraddled(specs, text, p)
    ensures var x := NextMatch(specs, text, at);
      && (x.Some? && x.value.start < p ==> NextMatch(specs, text[..p], at) == x && x.value.end <= p)
      && (!(x.Some? && x.value.start < p) ==> NextMatch(specs, text[..p], at).None? && NextMatch(specs, text, p) == x)
    decreases p - at
  {
    hide LeftmostLongest, NoTokenIn, Preferred;
    if at < p {
      LongestInPrefix(specs, text, p, at);
      if LongestAt(specs, text, at, |specs|).None? {
        NextMatchInPrefix(specs, text, p, at + 1);
      }
    }
  }

  /** Leftmost-longest matching restarts identically at a point no occurrence straddles. */
  lemma {:induction false} MatchesCut(specs: seq<AddedToken>, text: Bytes, p: nat, at: nat)
    requires at <= p <= |text| && Unstraddled(specs, text, p)
    ensures Matches(specs, text, at) == Matches(specs, text[..p], at) + ShiftAll(Matches(specs, text[p..], 0), p)
    decreases p - at
  {
    hide NextMatch, Unstraddled;
    NextMatchInPrefix(specs, text, p, at);
    var x := NextMatch(specs, text, at);
    if x.Some? && x.value.start < p {
      MatchesCut(specs, text, p, x.value.end);
    } else {
      MatchesInSuffix(specs, text, p, 0);
    }
  }

  // ---------------------------------------------------------------------------
  // Whitespace strips
  // ---------------------------------------------------------------------------

  /** The Unicode White_Space characters, in UTF-8. */
  predicate IsWhitespace(c: Bytes) {
    || (|c| == 1 && (0x09 <= c[0] <= 0x0D || c[0] == 0x20))
    || (|c| == 2 && c[0] == 0xC2 && (c[1] == 0x85 || c[1] == 0xA0))
    || (|c| == 3 && c[0] == 0xE1 && c[1] == 0x9A && c[2] == 0x80)
    || (|c| == 3 && c[0] == 0xE2 && c[1] == 0x80 && (0x80 <= c[2] <= 0x8A || c[2] == 0xA8 || c[2] == 0xA9 || c[2] == 0xAF))
    || (|c| == 3 && c[0] == 0xE2 && c[1] == 0x81 && c[2] == 0x9F)
    || (|c| == 3 && c[0] == 0xE3 && c[1] == 0x80 && c[2] == 0x80)
  }

  /** Bytes of leading whitespace: what `trim_start` drops. */
  function LeadingWs(s: Bytes): (n: nat)
    ensures n <= |s|
    decreases |s|
  {
    var n := CharLen(s);
    if n > 0 && IsWhitespace(s[..n]) then n + LeadingWs(s[n..]) else 0
  }

  /** Start of the last character. */
  function LastStart(s: Bytes): (p: nat)
    requires s != []
    ensures p < |s|
    ensures forall k :: p < k < |s| ==> IsCont(s[k])
    ensures p > 0 ==> !IsCont(s[p])
  {
    if |s| == 1 || !IsCont(s[|s| - 1]) then |s| - 1 else LastStart(s[..|s| - 1])
  }

  /** Length of what `trim_end` keeps. */
  function TrimmedLen(s: Bytes): (n: nat)
    ensures n <= |s|
    decreases |s|
  {
    if s == [] then 0
    else if IsWhitespace(s[LastStart(s)..]) then TrimmedLen(s[..LastStart(s)])
    else |s|
  }

  /** The characters of the White_Space property, by code point. */
  lemma WhitespaceCodePoints(c: nat)
    requires IsScalar(c)
    ensures IsWhitespace(Encode(c)) <==>
      || 0x9 <= c <= 0xD || c in {0x20, 0x85, 0xA0, 0x1680} || 0x2000 <= c <= 0x200A
      || c in {0x2028, 0x2029, 0x202F, 0x205F, 0x3000}
  {
  }

  /** Whitespace characters and nothing else. */
  ghost predicate Blank(s: Bytes) {
    exists chars: seq<Bytes> :: Concat(chars) == s && forall c :: c in chars ==> IsWhitespace(c)
  }

  lemma BlankNone()
    ensures Blank([])
  {
    var none: seq<Bytes> := [];
    assert Concat(none) == [];
  }

  lemma BlankCons(c: Bytes, t: Bytes)
    requires IsWhitespace(c) && Blank(t)
    ensures Blank(c + t)
  {
    hide IsWhitespace;
    var chars: seq<Bytes> :| Concat(chars) == t && forall c :: c in chars ==> IsWhitespace(c);
    assert ([c] + chars)[1..] == chars;
    assert Concat([c] + chars) == c + t;
  }

  lemma BlankSnoc(t: Bytes, c: Bytes)
    requires IsWhitespace(c) && Blank(t)
    ensures Blank(t + c)
  {
    hide IsWhitespace;
    var chars: seq<Bytes> :| Concat(chars) == t && forall c :: c in chars ==> IsWhitespace(c);
    ConcatSnoc(chars, c);
  }

  lemma WhitespaceIsChar(c: Bytes, s: Bytes)
    requires IsWhitespace(c)
    ensures StartsWith(s, c) ==> CharLen(s) == |c| && s[..|c|] == c
    ensures EndsWith(s, c) ==> LastStart(s) == |s| - |c| && s[|s| - |c|..] == c
  {
    if StartsWith(s, c) {
      assert forall k :: 0 <= k < |c| ==> s[k] == c[k];
    }
    if EndsWith(s, c) {
      assert forall k :: 0 <= k < |c| ==> s[|s| - |c| + k] == c[k];
      LastStartIs(s, |s| - |c|);
    }
  }

  lemma {:induction false} LastStartIs(s: Bytes, p: nat)
    requires p < |s| && !IsCont(s[p]) && forall k :: p < k < |s| ==> IsCont(s[k])
    ensures LastStart(s) == p
  {
    if |s| > 1 && IsCont(s[|s| - 1]) {
      LastStartIs(s[..|s| - 1], p);
    }
  }

  /** `trim_start` drops whitespace, and all of it. */
  lemma {:induction false} LeadingWsIsAll(s: Bytes)
    ensures Blank(s[..LeadingWs(s)])
    ensures forall c :: IsWhitespace(c) ==> !StartsWith(s[LeadingWs(s)..], c)
    decreases |s|
  {
    hide CharLen, IsWhitespace, Blank;
    var n := CharLen(s);
    if n > 0 && IsWhitespace(s[..n]) {
      LeadingWsIsAll(s[n..]);
      BlankCons(s[..n], s[n..][..LeadingWs(s[n..])]);
      assert s[..LeadingWs(s)] == s[..n] + s[n..][..LeadingWs(s[n..])];
      assert s[LeadingWs(s)..] == s[n..][LeadingWs(s[n..])..];
    } else {
      BlankNone();
      assert s[0..] == s;
      forall c | IsWhitespace(c) ensures !StartsWith(s, c) {
        WhitespaceIsChar(c, s);
        WhitespaceSome(c);
      }
    }
  }

  lemma WhitespaceSome(c: Bytes)
    requires IsWhitespace(c)
    ensures c != []
  {
  }

  /** `trim_end` drops whitespace, and all of it. */
  lemma {:induction false} TrimmedIsAll(s: Bytes)
    ensures Blank(s[TrimmedLen(s)..])
    ensures forall c :: IsWhitespace(c) ==> !EndsWith(s[..TrimmedLen(s)], c)
    decreases |s|
  {
    hide CharLen, IsWhitespace, Blank, LastStart;
    if s != [] && IsWhitespace(s[LastStart(s)..]) {
      var p := LastStart(s);
      TrimmedIsAll(s[..p]);
      BlankSnoc(s[..p][TrimmedLen(s[..p])..], s[p..]);
      assert s[TrimmedLen(s)..] == s[..p][TrimmedLen(s[..p])..] + s[p..];
      assert s[..TrimmedLen(s)] == s[..p][..TrimmedLen(s[..p])];
    } else {
      BlankNone();
      assert s[..|s|] == s;
      forall c | IsWhitespace(c) ensures !EndsWith(s, c) {
        WhitespaceIsChar(c, s);
        WhitespaceSome(c);
      }
    }
  }

  /** A boundary past the whitespace run sees the same run. */
  lemma {:induction false} LeadingWsPrefix(s: Bytes, k: nat)
    requires Valid(s) && Boundary(s, k)
    ensures LeadingWs(s[..k]) <= LeadingWs(s)
    ensures LeadingWs(s) < k ==> LeadingWs(s[..k]) == LeadingWs(s)
    decreases |s|
  {
    hide CharLen, IsWhitespace, Valid, Boundary;
    if k > 0 {
      BoundaryPast(s, k);
      ValidTail(s);
      var n := CharLen(s);
      CharLenTake(s);
      CharLenPrefix(s[..n], s[..k][n..]);
      assert s[..k] == s[..n] + s[..k][n..];
      assert s[..k][..n] == s[..n];
      assert s[..k][n..] == s[n..][..k - n];
      LeadingWsPrefix(s[n..], k - n);
    } else {
      assert CharLen(s[..k]) == 0;
    }
  }

  /** Trimming the end of a suffix is trimming the whole, down to where the suffix starts. */
  lemma {:induction false} TrimmedSuffix(s: Bytes, k: nat)
    requires Valid(s) && Boundary(s, k)
    ensures TrimmedLen(s[k..]) == if TrimmedLen(s) >= k then TrimmedLen(s) - k else 0
    decreases |s|
  {
    hide CharLen, IsWhitespace, Valid, LastStart, IsCont;
    if k < |s| {
      LastCharOfSuffix(s, k);
      if IsWhitespace(s[LastStart(s)..]) {
        TrimmedSuffix(s[..LastStart(s)], k);
      }
    }
  }

  /** A suffix that starts on a character ends with the same character. */
  lemma LastCharOfSuffix(s: Bytes, k: nat)
    requires Valid(s) && Boundary(s, k) && k < |s|
    ensures var p := LastStart(s);
      && k <= p < |s| && LastStart(s[k..]) == p - k
      && s[k..][p - k..] == s[p..] && s[k..][..p - k] == s[..p][k..]
      && Valid(s[..p]) && Boundary(s[..p], k)
  {
    hide CharLen, Valid, LastStart;
    LastStartSuffix(s, k);
    ValidSplit(s, LastStart(s));
    SuffixParts(s, k, LastStart(s));
  }

  lemma SuffixParts(s: Bytes, k: nat, p: nat)
    requires k <= p <= |s|
    ensures s[k..][p - k..] == s[p..] && s[k..][..p - k] == s[..p][k..]
  {
  }

  lemma LastStartSuffix(s: Bytes, k: nat)
    requires k < |s| && !IsCont(s[k])
    ensures !IsCont(s[LastStart(s)])
    ensures k <= LastStart(s) && LastStart(s[k..]) == LastStart(s) - k
  {
    var p := LastStart(s);
    assert p >= k;
    assert p == k || p > k;
    assert !IsCont(s[p]);
    assert s[k..][p - k] == s[p];
  }
}
