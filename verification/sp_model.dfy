/** The SentencePiece model: its tables, character initialisation, and the space/▁ mapping. */
module SpModel {
  import opened Common
  import opened Utf8
  import opened MergeSpec
  import opened MergePriority

  datatype WordSplit = SpaceRuns | EveryMark | NoSplit

  datatype PrependScheme = PrependNever | PrependAlways | PrependFirst

  datatype Metaspace = Metaspace(prepend: PrependScheme, split: bool)

  /** Normalizer steps; those the raw fast path never accepts are one case. */
  datatype NormOp = Prepend(prefix: Bytes) | Replace(pattern: Bytes, content: Bytes) | OtherOp

  datatype AddedToken = AddedToken(content: Bytes, id: Token, lstrip: bool, rstrip: bool)

  datatype Model = Model(
    merges: map<(Token, Token), (Token, nat)>,
    vocab: seq<Bytes>,
    vocabInv: map<Bytes, Token>,
    byteFallback: map<byte, Token>,
    addedTokens: seq<AddedToken>,
    normAddedTokens: seq<AddedToken>,
    normOps: seq<NormOp>,
    metaspace: Option<Metaspace>)
  {
    /** The explicit-rank merge table as rules. */
    function Rules(): MergeSpec.Rules {
      (a: Token, b: Token) =>
        if (a, b) in merges then Rule(merges[(a, b)].1, merges[(a, b)].0) else NoRule
    }

    function Spelling(): MergeSpec.Spelling {
      (t: Token) => if t < |vocab| then vocab[t] else []
    }

    /** What the loader guarantees of the tables: lookups invert the vocabulary, a merge spells its
        parts, and a merged piece is text. */
    ghost predicate WellFormed() {
      && (forall s :: s in vocabInv ==> vocabInv[s] < |vocab| && vocab[vocabInv[s]] == s)
      && (forall b :: b in byteFallback ==> byteFallback[b] < |vocab| && vocab[byteFallback[b]] == [b])
      && (forall a: Token, b: Token :: (a, b) in merges ==> MergeWellFormed(a, b))
    }

    ghost predicate MergeWellFormed(a: Token, b: Token)
      requires (a, b) in merges
    {
      var (t, rank) := merges[(a, b)];
      && t < |vocab| && rank < NO_RANK
      && vocab[t] == Spelling()(a) + Spelling()(b)
      && Spelling()(a) != [] && Spelling()(b) != [] && Valid(vocab[t])
    }
  }

  lemma WellFormedConsistent(m: Model)
    requires m.WellFormed()
    ensures Consistent(m.Rules(), m.Spelling())
  {
    forall a: Token, b: Token | m.Rules()(a, b).Rule?
      ensures m.Spelling()(m.Rules()(a, b).token) == m.Spelling()(a) + m.Spelling()(b)
    {
      assert m.MergeWellFormed(a, b);
    }
  }

  // ---------------------------------------------------------------------------
  // What the merge table does
  // ---------------------------------------------------------------------------

  /** The pair at `i` is in the table. */
  predicate InTable(m: Model, s: seq<Token>, i: int) {
    0 <= i < |s| - 1 && (s[i], s[i + 1]) in m.merges
  }

  /** The pair of the least stored rank, the leftmost of equal ones, is replaced by its stored token, and merging goes on. */
  lemma LeastStoredMerges(m: Model, s: seq<Token>, i: nat)
    requires InTable(m, s, i)
    requires forall j :: InTable(m, s, j) ==>
      var r, r' := m.merges[(s[i], s[i + 1])].1, m.merges[(s[j], s[j + 1])].1; r < r' || (r == r' && i <= j)
    ensures MergeAll(m.Rules(), s) == MergeAll(m.Rules(), s[..i] + [m.merges[(s[i], s[i + 1])].0] + s[i + 2..])
  {
    forall j | MergesAt(m.Rules(), s, j) && j != i ensures Before(m.Rules(), s, i, j) {
      assert InTable(m, s, j);
    }
    MergeAllStep(m.Rules(), s, i);
  }

  /** With no pair in the table nothing is merged. */
  lemma NoneStoredMerges(m: Model, s: seq<Token>)
    requires forall j :: !InTable(m, s, j)
    ensures MergeAll(m.Rules(), s) == s
  {
    forall j ensures !MergesAt(m.Rules(), s, j) {
      assert !InTable(m, s, j);
    }
    MergeAllDone(m.Rules(), s);
  }

  /** The table holds, for every pair of the list, the token and the rank of its first entry. Ranks grow along the list;
      lines that name unknown pieces take up a rank and are no entries. */
  ghost predicate HoldsList(m: Model, entries: seq<Entry>, ranks: seq<nat>) {
    && |ranks| == |entries| && (forall j, k :: 0 <= j < k < |ranks| ==> ranks[j] < ranks[k])
    && (forall a: Token, b: Token :: (a, b) in m.merges ==> exists k: nat :: k < |entries| && entries[k].left == a && entries[k].right == b)
    && (forall k: nat :: k < |entries| ==> (entries[k].left, entries[k].right) in m.merges)
    && (forall k: nat :: k < |entries| && (forall j: nat :: j < k ==> entries[j].left != entries[k].left || entries[j].right != entries[k].right) ==>
          m.merges[(entries[k].left, entries[k].right)] == (entries[k].merged, ranks[k]))
  }

  lemma RuleOfList(m: Model, entries: seq<Entry>, ranks: seq<nat>, a: Token, b: Token)
    requires HoldsList(m, entries, ranks)
    ensures m.Rules()(a, b).Rule? <==> ListRules(entries)(a, b).Rule?
    ensures ListRules(entries)(a, b).Rule? ==>
      var k := ListRules(entries)(a, b).rank; k < |ranks| && m.Rules()(a, b) == Rule(ranks[k], ListRules(entries)(a, b).token)
  {
    hide FirstIndex;
    var f := FirstIndex(entries, a, b);
    assert f.Some? ==> entries[f.value].left == a && entries[f.value].right == b;
  }

  /** Then the model merges every input in the order of the list. */
  lemma MergesInListOrder(m: Model, entries: seq<Entry>, ranks: seq<nat>, s: seq<Token>)
    requires HoldsList(m, entries, ranks)
    ensures MergeAll(m.Rules(), s) == MergeAll(ListRules(entries), s)
  {
    hide HoldsList, ListRules, MergeAll, Model.Rules;
    var r1, r2 := m.Rules(), ListRules(entries);
    forall a, b ensures r1(a, b).Rule? == r2(a, b).Rule? && (r1(a, b).Rule? ==> r1(a, b).token == r2(a, b).token) {
      RuleOfList(m, entries, ranks, a, b);
    }
    forall a, b, c, d | r1(a, b).Rule? && r1(c, d).Rule?
      ensures r1(a, b).rank < r1(c, d).rank <==> r2(a, b).rank < r2(c, d).rank
    {
      RuleOfList(m, entries, ranks, a, b);
      RuleOfList(m, entries, ranks, c, d);
      RanksGrow(m, entries, ranks);
    }
    SameOrderMerges(r1, r2, s);
  }

  lemma RanksGrow(m: Model, entries: seq<Entry>, ranks: seq<nat>)
    requires HoldsList(m, entries, ranks)
    ensures forall j, k :: 0 <= j < k < |ranks| ==> ranks[j] < ranks[k]
  {
  }

  // ---------------------------------------------------------------------------
  // Character initialisation
  // ---------------------------------------------------------------------------

  function FallbackTokens(m: Model, s: Bytes): seq<Token> {
    if s == [] then []
    else (if s[0] in m.byteFallback then [m.byteFallback[s[0]]] else []) + FallbackTokens(m, s[1..])
  }

  /** Initial symbols of the ▁ marker. */
  function SpaceInit(m: Model): seq<Token> {
    if MARK in m.vocabInv then [m.vocabInv[MARK]] else FallbackTokens(m, MARK)
  }

  /** Initial symbols of one character; a character without tokens is dropped. */
  function InitChar(m: Model, raw: bool, c: Bytes): seq<Token> {
    if raw && c == [SPACE] then SpaceInit(m)
    else if c in m.vocabInv then [m.vocabInv[c]]
    else FallbackTokens(m, c)
  }

  function InitSymbols(m: Model, raw: bool, s: Bytes): seq<Token>
    decreases |s|
  {
    if CharLen(s) == 0 then []
    else InitChar(m, raw, s[..CharLen(s)]) + InitSymbols(m, raw, s[CharLen(s)..])
  }

  /** Every byte by itself, in order; one without a token is left out. */
  lemma {:induction false} FallbackPlus(m: Model, a: Bytes, b: Bytes)
    ensures FallbackTokens(m, a + b) == FallbackTokens(m, a) + FallbackTokens(m, b)
  {
    if a == [] {
      assert a + b == b;
    } else {
      assert (a + b)[1..] == a[1..] + b;
      FallbackPlus(m, a[1..], b);
    }
  }

  lemma FallbackOne(m: Model, b: byte)
    ensures FallbackTokens(m, [b]) == if b in m.byteFallback then [m.byteFallback[b]] else []
  {
    assert [b][1..] == [];
  }

  /** What the first character contributes: its piece, or else the tokens of its bytes; a raw space counts as ▁. */
  lemma FirstCharInit(m: Model, raw: bool, c: Bytes, t: Bytes)
    requires CharLen(c) == |c| > 0
    ensures var d := if raw && c == [0x20] then [0xE2, 0x96, 0x81] else c;
      InitSymbols(m, raw, c + t) == (if d in m.vocabInv then [m.vocabInv[d]] else FallbackTokens(m, d)) + InitSymbols(m, raw, t)
  {
    InitCons(m, raw, c, t);
  }

  /** The character has a piece, or a byte token for each of its bytes. */
  predicate HasTokens(m: Model, c: Bytes) {
    c in m.vocabInv || forall b :: b in c ==> b in m.byteFallback
  }

  /** Initialisation drops no character of the text. */
  predicate Covered(m: Model, raw: bool, s: Bytes)
    decreases |s|
  {
    CharLen(s) > 0 ==>
      && HasTokens(m, MarkChar(raw, s[..CharLen(s)]))
      && Covered(m, raw, s[CharLen(s)..])
  }

  /** In raw mode a space reads as ▁. */
  function MarkChar(raw: bool, c: Bytes): Bytes {
    if raw && c == [SPACE] then MARK else c
  }

  function MarkSpaces(raw: bool, s: Bytes): Bytes {
    if s == [] then []
    else (if raw && s[0] == SPACE then MARK else [s[0]]) + MarkSpaces(raw, s[1..])
  }

  lemma {:induction false} MarkSpacesPlus(raw: bool, a: Bytes, b: Bytes)
    ensures MarkSpaces(raw, a + b) == MarkSpaces(raw, a) + MarkSpaces(raw, b)
  {
    if a == [] {
      assert a + b == b;
    } else {
      assert (a + b)[1..] == a[1..] + b;
      MarkSpacesPlus(raw, a[1..], b);
    }
  }

  lemma {:induction false} MarkSpacesId(s: Bytes)
    ensures MarkSpaces(false, s) == s
  {
    if s != [] {
      MarkSpacesId(s[1..]);
    }
  }

  lemma {:induction false} MarkSpacesNoSpace(raw: bool, s: Bytes)
    requires SPACE !in s
    ensures MarkSpaces(raw, s) == s
  {
    if s != [] {
      MarkSpacesNoSpace(raw, s[1..]);
    }
  }

  /** A whole character maps as a character: only the one-byte space is touched. */
  lemma MarkSpacesChar(raw: bool, s: Bytes)
    requires CharLen(s) > 0
    ensures MarkSpaces(raw, s[..CharLen(s)]) == MarkChar(raw, s[..CharLen(s)])
  {
    var c := s[..CharLen(s)];
    if |c| == 1 {
      assert c == [c[0]] && c[1..] == [];
    } else {
      assert SPACE !in c;
      MarkSpacesNoSpace(raw, c);
    }
  }

  lemma {:induction false} FallbackSpells(m: Model, s: Bytes)
    requires m.WellFormed() && forall b :: b in s ==> b in m.byteFallback
    ensures Spell(m.Spelling(), FallbackTokens(m, s)) == s
  {
    if s != [] {
      FallbackSpells(m, s[1..]);
      assert FallbackTokens(m, s)[1..] == FallbackTokens(m, s[1..]);
    }
  }

  lemma InitCharSpells(m: Model, raw: bool, c: Bytes)
    requires m.WellFormed() && HasTokens(m, MarkChar(raw, c))
    ensures Spell(m.Spelling(), InitChar(m, raw, c)) == MarkChar(raw, c)
  {
    var c' := MarkChar(raw, c);
    assert InitChar(m, raw, c) == if c' in m.vocabInv then [m.vocabInv[c']] else FallbackTokens(m, c');
    if c' in m.vocabInv {
      assert [m.vocabInv[c']][1..] == [];
      assert Spell(m.Spelling(), [m.vocabInv[c']]) == c' + [];
    } else {
      FallbackSpells(m, c');
    }
  }

  /** The initial symbols spell the mark-mapped text. */
  lemma {:induction false} InitSpells(m: Model, raw: bool, s: Bytes)
    requires m.WellFormed() && Valid(s) && Covered(m, raw, s)
    ensures Spell(m.Spelling(), InitSymbols(m, raw, s)) == MarkSpaces(raw, s)
    decreases |s|
  {
    hide CharLen, HasTokens, InitChar, MarkChar;
    if s == [] {
      assert CharLen(s) == 0;
    } else {
      var n := CharLen(s);
      InitSpells(m, raw, s[n..]);
      InitCharSpells(m, raw, s[..n]);
      SpellPlus(m.Spelling(), InitChar(m, raw, s[..n]), InitSymbols(m, raw, s[n..]));
      assert s == s[..n] + s[n..];
      MarkSpacesPlus(raw, s[..n], s[n..]);
      MarkSpacesChar(raw, s);
    }
  }

  /** Initialisation is local to characters. */
  lemma {:induction false} InitPlus(m: Model, raw: bool, a: Bytes, b: Bytes)
    requires Valid(a)
    ensures InitSymbols(m, raw, a + b) == InitSymbols(m, raw, a) + InitSymbols(m, raw, b)
    decreases |a|
  {
    hide CharLen, InitChar;
    if a == [] {
      assert a + b == b;
      assert CharLen(a) == 0;
    } else {
      var n := CharLen(a);
      CharLenPrefix(a, b);
      assert (a + b)[..n] == a[..n] && (a + b)[n..] == a[n..] + b;
      InitPlus(m, raw, a[n..], b);
    }
  }

  lemma {:induction false} CoveredPlus(m: Model, raw: bool, a: Bytes, b: Bytes)
    requires Valid(a)
    ensures Covered(m, raw, a + b) <==> Covered(m, raw, a) && Covered(m, raw, b)
    decreases |a|
  {
    hide CharLen, HasTokens, MarkChar;
    if a == [] {
      assert a + b == b;
      assert CharLen(a) == 0;
    } else {
      var n := CharLen(a);
      CharLenPrefix(a, b);
      assert (a + b)[..n] == a[..n] && (a + b)[n..] == a[n..] + b;
      CoveredPlus(m, raw, a[n..], b);
    }
  }

  /** Raw-mode symbols of a text are the normalized-mode symbols of the text with its spaces mapped. */
  lemma {:induction false} InitRawIsInitMapped(m: Model, s: Bytes)
    requires Valid(s)
    ensures InitSymbols(m, true, s) == InitSymbols(m, false, MarkSpaces(true, s))
    decreases |s|
  {
    hide *;
    if s == [] {
      InitNone(m);
    } else {
      var n := CharLen(s);
      ValidTail(s);
      var c, rest := s[..n], s[n..];
      InitRawIsInitMapped(m, rest);
      assert s == c + rest;
      MarkSpacesPlus(true, c, rest);
      MarkSpacesChar(true, s);
      MarkCharLen(true, s);
      MarkCharSome(true, s);
      CharLenTake(s);
      InitCons(m, true, c, rest);
      InitCons(m, false, MarkChar(true, c), MarkSpaces(true, rest));
      InitCharMapped(m, c);
    }
  }

  lemma MarkCharSome(raw: bool, s: Bytes)
    requires CharLen(s) > 0
    ensures MarkChar(raw, s[..CharLen(s)]) != []
  {
  }

  lemma InitNone(m: Model)
    ensures MarkSpaces(true, []) == [] && InitSymbols(m, true, []) == [] == InitSymbols(m, false, [])
  {
  }

  lemma InitCons(m: Model, raw: bool, c: Bytes, t: Bytes)
    requires CharLen(c) == |c| > 0
    ensures InitSymbols(m, raw, c + t) == InitChar(m, raw, c) + InitSymbols(m, raw, t)
  {
    hide CharLen, InitChar;
    CharLenPrefix(c, t);
    assert (c + t)[..|c|] == c && (c + t)[|c|..] == t;
  }

  lemma InitCharMapped(m: Model, c: Bytes)
    ensures InitChar(m, true, c) == InitChar(m, false, MarkChar(true, c))
  {
  }

  lemma MarkCharLen(raw: bool, s: Bytes)
    requires CharLen(s) > 0
    ensures var c := MarkChar(raw, s[..CharLen(s)]); CharLen(c) == |c|
  {
    CharLenTake(s);
  }

  /** Mapping spaces keeps text valid. */
  lemma {:induction false} MarkSpacesValid(raw: bool, s: Bytes)
    requires Valid(s)
    ensures Valid(MarkSpaces(raw, s))
    decreases |s|
  {
    hide CharLen;
    if s != [] {
      var n := CharLen(s);
      MarkSpacesValid(raw, s[n..]);
      assert s == s[..n] + s[n..];
      MarkSpacesPlus(raw, s[..n], s[n..]);
      MarkSpacesChar(raw, s);
      MarkCharLen(raw, s);
      ValidCons(MarkChar(raw, s[..n]), MarkSpaces(raw, s[n..]));
    }
  }

  // ---------------------------------------------------------------------------
  // Marks
  // ---------------------------------------------------------------------------

  /** Byte width of the unit mark at `pos`, 0 when there is none: ▁, and in raw mode also a space. */
  function MarkWidth(s: Bytes, pos: nat, raw: bool): (w: nat)
    requires pos < |s|
    ensures w == 0 || (w == 1 && raw && s[pos] == SPACE) || (w == 3 && pos + 3 <= |s| && s[pos..pos + 3] == MARK)
  {
    if raw && s[pos] == SPACE then 1
    else if s[pos] == 0xE2 && |s| - pos >= 3 && s[pos + 1] == 0x96 && s[pos + 2] == 0x81 then 3
    else 0
  }

  predicate IsMark(s: Bytes, pos: int, raw: bool) {
    0 <= pos < |s| && MarkWidth(s, pos, raw) > 0
  }

  /** A mark is the ▁ character, and in raw mode a space; it is as wide as the character. */
  lemma MarkIs(s: Bytes, pos: nat, raw: bool)
    requires pos < |s|
    ensures IsMark(s, pos, raw) <==> StartsWith(s[pos..], [0xE2, 0x96, 0x81]) || (raw && s[pos] == 0x20)
    ensures IsMark(s, pos, raw) ==> MarkWidth(s, pos, raw) == if s[pos] == 0x20 then 1 else 3
  {
    if pos + 3 <= |s| {
      assert s[pos..][..3] == [s[pos], s[pos + 1], s[pos + 2]];
    }
  }

  /** The text ends with a mark. */
  predicate EndsInMark(s: Bytes, raw: bool) {
    (raw && EndsWith(s, [SPACE])) || EndsWith(s, MARK)
  }
}
