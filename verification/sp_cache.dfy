/** The per-thread unit cache: a token arena, a direct-mapped front table, and two maps into the arena. */
module SpCache {
  import opened Common
  import opened Utf8
  import opened MergeSpec
  import opened SpModel
  import opened SpEncodeSpec
  import MergeScan
  import BpeMerge

  const TWO_34: nat := 0x4_0000_0000
  const LEN_UNIT: nat := 0x1_00_0000_0000_0000_0000_0000_0000_0000
  const SHORT_ENTRY_BYTES: nat := 48
  const LONG_ENTRY_BYTES: nat := 48

  // ---------------------------------------------------------------------------
  // Packed keys
  // ---------------------------------------------------------------------------

  /** The bytes as a little-endian number. */
  function Low(s: Bytes): nat {
    if s == [] then 0 else s[0] as nat + 0x100 * Low(s[1..])
  }

  /** `pack_pretoken_key`: bytes in the low 15 lanes, length in the top byte; nothing above 15 bytes. */
  function PackKey(s: Bytes): Option<nat> {
    if |s| > 15 then None else Some(Low(s) + |s| * LEN_UNIT)
  }

  function Pow256(n: nat): nat {
    if n == 0 then 1 else 0x100 * Pow256(n - 1)
  }

  lemma {:induction false} LowBelow(s: Bytes)
    ensures Low(s) < Pow256(|s|)
  {
    if s != [] {
      LowBelow(s[1..]);
    }
  }

  lemma {:induction false} LowInjective(s: Bytes, t: Bytes)
    requires |s| == |t| && Low(s) == Low(t)
    ensures s == t
  {
    if s != [] {
      assert s[0] == t[0] && Low(s[1..]) == Low(t[1..]);
      LowInjective(s[1..], t[1..]);
      assert s == [s[0]] + s[1..] && t == [t[0]] + t[1..];
    }
  }

  lemma {:induction false} Pow256Grows(n: nat, k: nat)
    requires n <= k
    ensures Pow256(n) <= Pow256(k)
  {
    if n < k {
      Pow256Grows(n, k - 1);
    }
  }

  lemma Pow256Is15()
    ensures Pow256(15) == LEN_UNIT
  {
    assert Pow256(3) == 0x100_0000;
    assert Pow256(6) == 0x1_0000_0000_0000;
    assert Pow256(9) == 0x100_0000_0000_0000_0000;
    assert Pow256(12) == 0x1_0000_0000_0000_0000_0000_0000;
  }

  /** Keys of short strings are distinct, and zero only for the empty string. */
  lemma PackKeyInjective(s: Bytes, t: Bytes)
    requires PackKey(s).Some? && PackKey(s) == PackKey(t)
    ensures s == t
    ensures PackKey(s) == Some(0) ==> s == []
  {
    LowBelow(s);
    LowBelow(t);
    Pow256Grows(|s|, 15);
    Pow256Grows(|t|, 15);
    Pow256Is15();
    hide Low;
    assert |s| == |t|;
    LowInjective(s, t);
  }

  // ---------------------------------------------------------------------------
  // What entries denote
  // ---------------------------------------------------------------------------

  type Span = (nat, nat)

  /** The span is an in-bounds slice of the arena holding `tokens`. */
  ghost predicate Denotes(arena: seq<Token>, span: Span, tokens: seq<Token>) {
    span.0 + span.1 <= |arena| && arena[span.0..span.0 + span.1] == tokens
  }

  ghost predicate ShortOk(encode: Bytes -> seq<Token>, arena: seq<Token>, short: map<nat, Span>) {
    forall s: Bytes :: s != [] && PackKey(s).Some? && PackKey(s).value in short ==> Denotes(arena, short[PackKey(s).value], encode(s))
  }

  ghost predicate LongOk(encode: Bytes -> seq<Token>, arena: seq<Token>, long: map<Bytes, Span>) {
    forall s: Bytes :: s in long ==> Denotes(arena, long[s], encode(s))
  }

  /** A front slot answers for the string whose key it holds; key 0 is empty. */
  ghost predicate FrontOk(encode: Bytes -> seq<Token>, arena: seq<Token>, keys: seq<nat>, vals: seq<Span>, index: nat -> nat) {
    && |keys| == |vals| && (forall k :: index(k) < |keys|)
    && forall s: Bytes :: s != [] && PackKey(s).Some? && keys[index(PackKey(s).value)] == PackKey(s).value ==>
         Denotes(arena, vals[index(PackKey(s).value)], encode(s))
  }

  /** The estimate of `long`: key bytes and a fixed cost per entry. */
  function LongBytes(log: seq<Bytes>): nat {
    if log == [] then 0 else LongBytes(log[..|log| - 1]) + |log[|log| - 1]| + LONG_ENTRY_BYTES
  }

  ghost predicate Logged(long: map<Bytes, Span>, log: seq<Bytes>) {
    && (forall s :: s in long <==> s in log)
    && (forall i, j :: 0 <= i < j < |log| ==> log[i] != log[j])
  }

  lemma EntriesGrow(encode: Bytes -> seq<Token>, arena: seq<Token>, more: seq<Token>, short: map<nat, Span>, long: map<Bytes, Span>,
                    keys: seq<nat>, vals: seq<Span>, index: nat -> nat)
    requires ShortOk(encode, arena, short) && LongOk(encode, arena, long) && FrontOk(encode, arena, keys, vals, index)
    ensures ShortOk(encode, arena + more, short) && LongOk(encode, arena + more, long) && FrontOk(encode, arena + more, keys, vals, index)
  {
    forall span: Span, tokens | Denotes(arena, span, tokens) ensures Denotes(arena + more, span, tokens) {
    }
    hide Denotes, PackKey;
  }

  lemma ShortInsert(encode: Bytes -> seq<Token>, arena: seq<Token>, short: map<nat, Span>, s: Bytes, span: Span)
    requires ShortOk(encode, arena, short) && PackKey(s).Some? && Denotes(arena, span, encode(s))
    ensures ShortOk(encode, arena, short[PackKey(s).value := span])
  {
    forall t: Bytes | t != [] && PackKey(t) == PackKey(s) ensures t == s { PackKeyInjective(t, s); }
    hide Denotes, PackKey;
  }

  lemma FrontInsert(encode: Bytes -> seq<Token>, arena: seq<Token>, keys: seq<nat>, vals: seq<Span>, index: nat -> nat, s: Bytes, span: Span)
    requires FrontOk(encode, arena, keys, vals, index) && PackKey(s).Some? && Denotes(arena, span, encode(s))
    ensures var i := index(PackKey(s).value); FrontOk(encode, arena, keys[i := PackKey(s).value], vals[i := span], index)
  {
    forall t: Bytes | t != [] && PackKey(t) == PackKey(s) ensures t == s { PackKeyInjective(t, s); }
    hide Denotes, PackKey;
  }

  lemma EmptyFront(encode: Bytes -> seq<Token>, keys: seq<nat>, vals: seq<Span>, index: nat -> nat)
    requires |keys| == |vals| && (forall k :: index(k) < |keys|)
    requires forall i :: 0 <= i < |keys| ==> keys[i] == 0
    ensures FrontOk(encode, [], keys, vals, index)
  {
    forall s: Bytes | s != [] && PackKey(s).Some? ensures PackKey(s).value != 0 { PackKeyInjective(s, s); }
    hide PackKey;
  }

  // ---------------------------------------------------------------------------
  // The encoding of a unit
  // ---------------------------------------------------------------------------

  function WithPrefix(virtualPrefix: bool, unit: Bytes): Bytes {
    if virtualPrefix then [SPACE] + unit else unit
  }

  lemma {:induction false} FallbackLength(m: Model, s: Bytes)
    ensures |FallbackTokens(m, s)| <= |s|
  {
    if s != [] { FallbackLength(m, s[1..]); }
  }

  /** At most three tokens a byte: a raw space may become the three bytes of ▁. */
  lemma {:induction false} InitLength(m: Model, raw: bool, s: Bytes)
    ensures |InitSymbols(m, raw, s)| <= 3 * |s|
    decreases |s|
  {
    if CharLen(s) > 0 {
      var n := CharLen(s);
      FallbackLength(m, MARK);
      FallbackLength(m, s[..n]);
      hide CharLen, FallbackTokens;
      InitLength(m, raw, s[n..]);
    }
  }

  lemma FreshLength(m: Model, raw: bool, s: Bytes)
    ensures |Chunk(m, raw, s)| <= 3 * |s|
  {
    InitLength(m, raw, s);
    MergeAllStuck(m.Rules(), InitSymbols(m, raw, s));
  }

  lemma RulesFit(m: Model)
    requires m.WellFormed()
    ensures MergeScan.RanksFit(m.Rules())
  {
    forall a: Token, b: Token | m.Rules()(a, b).Rule? ensures m.Rules()(a, b).rank < NO_RANK {
      assert m.MergeWellFormed(a, b);
    }
  }

  method MergeUnit(m: Model, raw: bool, key: Bytes) returns (symbols: seq<Token>)
    requires m.WellFormed()
    ensures symbols == Chunk(m, raw, key)
  {
    var init := InitSymbols(m, raw, key);
    RulesFit(m);
    var buffer := new Token[|init|](i requires 0 <= i < |init| => init[i]);
    assert buffer[..] == init;
    var len := BpeMerge.MergeSymbols(m.Rules(), buffer);
    symbols := buffer[..len];
  }

  /** For units of at most `unit` tokens, `n` tokens in all, lengths fit a u32, and so do offsets: the budget keeps the
      arena below 2^32 tokens, or the arena has room for all. */
  ghost predicate FitOffsets(budget: nat, maxEncoding: nat, arenaLen: nat, unit: nat, n: nat) {
    && unit < TWO_32
    && (budget + 4 * (if maxEncoding < unit then unit else maxEncoding) < TWO_34 || arenaLen + n <= TWO_32)
  }

  lemma OffsetsStillFit(budget: nat, maxEncoding: nat, arenaLen: nat, maxEncoding': nat, arenaLen': nat, tokens: nat, unit: nat, k: nat, n: nat)
    requires FitOffsets(budget, maxEncoding, arenaLen, unit, n + k) && tokens <= k && tokens <= unit
    requires arenaLen' <= arenaLen + tokens && (maxEncoding' <= maxEncoding || maxEncoding' <= tokens)
    ensures FitOffsets(budget, maxEncoding', arenaLen', unit, n)
  {
  }

  /** The maps with one more entry, in the one that the key belongs to. */
  ghost predicate OneMore(key: Bytes, span: Span, short: map<nat, Span>, long: map<Bytes, Span>, short': map<nat, Span>, long': map<Bytes, Span>) {
    if PackKey(key).Some? then short' == short[PackKey(key).value := span] && long' == long
    else short' == short && long' == long[key := span]
  }

  class EncodeState {
    var arena: seq<Token>
    const frontKeys: array<nat>
    const frontVals: array<Span>
    const frontIndex: nat -> nat
    var short: map<nat, Span>
    var long: map<Bytes, Span>
    const budget: nat
    var longBytesUsed: nat
    var maxEncoding: nat
    /** The keys of `long`, in the order inserted since the last wipe. */
    ghost var longLog: seq<Bytes>
    ghost const m: Model
    ghost const raw: bool

    ghost predicate Valid()
      reads this, frontKeys, frontVals
    {
      && ShortOk(Fresh(), arena, short) && LongOk(Fresh(), arena, long)
      && FrontOk(Fresh(), arena, frontKeys[..], frontVals[..], frontIndex)
      && Logged(long, longLog) && longBytesUsed == LongBytes(longLog)
    }

    ghost function Fresh(): Bytes -> seq<Token> {
      (s: Bytes) => Chunk(m, raw, s)
    }

    /** Spans of the next `n` tokens, in units of at most `unit` tokens, fit the u32 fields they are stored in. */
    ghost predicate OffsetsFit(unit: nat, n: nat)
      reads this
    {
      FitOffsets(budget, maxEncoding, |arena|, unit, n)
    }

    /** Estimated bytes of the growing caches. */
    function Footprint(): nat
      reads this
    {
      |short| * SHORT_ENTRY_BYTES + longBytesUsed + |arena| * 4
    }

    constructor (ghost m: Model, ghost raw: bool, budget: nat, frontSize: nat, frontIndex: nat -> nat)
      requires forall k :: frontIndex(k) < frontSize
      ensures Valid() && this.m == m && this.raw == raw && this.budget == budget
      ensures fresh(frontKeys) && fresh(frontVals) && arena == [] && maxEncoding == 0 && Footprint() == 0
    {
      arena, short, long, longBytesUsed, maxEncoding := [], map[], map[], 0, 0;
      this.m, this.raw, this.budget, this.frontIndex := m, raw, budget, frontIndex;
      longLog := [];
      frontKeys := new nat[frontSize](i => 0);
      frontVals := new Span[frontSize](i => (0, 0));
      new;
      EmptyFront(Fresh(), frontKeys[..], frontVals[..], frontIndex);
    }

    /** Back to empty; the front keys go too, since their values are slices of the arena. */
    method Wipe()
      requires Valid()
      modifies this, frontKeys
      ensures Valid() && arena == [] && Footprint() == 0 && maxEncoding == old(maxEncoding)
      ensures short == map[] && long == map[]
    {
      arena, short, long, longBytesUsed := [], map[], map[], 0;
      longLog := [];
      for i := 0 to frontKeys.Length
        invariant forall k :: 0 <= k < i ==> frontKeys[k] == 0
        invariant arena == [] && short == map[] && long == map[] && longBytesUsed == 0 && longLog == []
        invariant maxEncoding == old(maxEncoding) && frontVals[..] == old(frontVals[..])
        modifies frontKeys
      {
        frontKeys[i] := 0;
      }
      EmptyFront(Fresh(), frontKeys[..], frontVals[..], frontIndex);
    }

    /** The front table, then the map the key belongs to; a map hit refreshes the front slot. */
    method Lookup(key: Bytes) returns (found: Option<Span>)
      requires Valid() && key != []
      modifies frontKeys, frontVals
      ensures Valid()
      ensures found.Some? ==> Denotes(arena, found.value, Chunk(m, raw, key))
      ensures found.None? && PackKey(key).Some? ==> PackKey(key).value !in short
      ensures found.None? && PackKey(key).None? ==> key !in long
    {
      var packed := PackKey(key);
      if packed.None? {
        return if key in long then Some(long[key]) else None;
      }
      var i := frontIndex(packed.value);
      if frontKeys[i] == packed.value {
        assert frontKeys[..][i] == frontKeys[i] && frontVals[..][i] == frontVals[i];
        return Some(frontVals[i]);
      }
      if packed.value !in short {
        return None;
      }
      FillFront(key, short[packed.value]);
      return Some(short[packed.value]);
    }

    method FillFront(key: Bytes, span: Span)
      requires Valid() && PackKey(key).Some? && Denotes(arena, span, Fresh()(key))
      modifies frontKeys, frontVals
      ensures Valid()
    {
      FrontInsert(Fresh(), arena, frontKeys[..], frontVals[..], frontIndex, key, span);
      hide ShortOk, LongOk, FrontOk, Denotes, PackKey, Logged;
      var k := PackKey(key).value;
      var i := frontIndex(k);
      assert i < frontKeys.Length && frontKeys.Length == frontVals.Length by { FrontBounds(k); }
      frontKeys[i] := k;
      frontVals[i] := span;
      assert frontKeys[..] == old(frontKeys[..])[i := k] && frontVals[..] == old(frontVals[..])[i := span];
    }

    lemma FrontBounds(k: nat)
      requires Valid()
      ensures frontIndex(k) < frontKeys.Length == frontVals.Length
    {
    }

    predicate OverBudget()
      reads this
    {
      Footprint() > budget + maxEncoding * 4
    }

    /** Append the fresh encoding of an absent key and record it. */
    method Record(key: Bytes, symbols: seq<Token>)
      requires Valid() && key != [] && symbols == Chunk(m, raw, key)
      requires |symbols| < TWO_32 && (symbols == [] || |arena| < TWO_32)
      requires if PackKey(key).Some? then PackKey(key).value !in short else key !in long
      modifies this, frontKeys, frontVals
      ensures Valid()
      ensures arena == old(arena) + symbols
      ensures exists span :: OneMore(key, span, old(short), old(long), short, long)
      ensures maxEncoding == if old(maxEncoding) < |symbols| then |symbols| else old(maxEncoding)
      ensures Footprint() <= old(Footprint()) + 4 * |symbols| + |key| + SHORT_ENTRY_BYTES
    {
      hide *;
      EntryBytesAlike();
      var span := Append(symbols);
      FreshIs(key);
      if PackKey(key).Some? {
        AddShort(key, span);
      } else {
        AddLong(key, span);
      }
      IsOneMore(key, span, old(short), old(long), short, long);
    }

    method Append(symbols: seq<Token>) returns (span: Span)
      requires Valid() && |symbols| < TWO_32 && (symbols == [] || |arena| < TWO_32)
      modifies `arena, `maxEncoding
      ensures Valid() && arena == old(arena) + symbols && Denotes(arena, span, symbols)
      ensures maxEncoding == if old(maxEncoding) < |symbols| then |symbols| else old(maxEncoding)
      ensures Footprint() == old(Footprint()) + 4 * |symbols|
    {
      span := (|arena| % TWO_32, |symbols| % TWO_32);
      EntriesGrow(Fresh(), arena, symbols, short, long, frontKeys[..], frontVals[..], frontIndex);
      hide ShortOk, LongOk, FrontOk, Logged;
      arena := arena + symbols;
      maxEncoding := if maxEncoding < |symbols| then |symbols| else maxEncoding;
    }

    method AddShort(key: Bytes, span: Span)
      requires Valid() && PackKey(key).Some? && PackKey(key).value !in short && Denotes(arena, span, Fresh()(key))
      modifies `short, frontKeys, frontVals
      ensures Valid() && Footprint() == old(Footprint()) + SHORT_ENTRY_BYTES
      ensures short == old(short)[PackKey(key).value := span]
    {
      ShortInsert(Fresh(), arena, short, key, span);
      hide ShortOk, LongOk, FrontOk, Logged, Denotes, PackKey;
      short := short[PackKey(key).value := span];
      FillFront(key, span);
    }

    method AddLong(key: Bytes, span: Span)
      requires Valid() && PackKey(key).None? && key !in long && Denotes(arena, span, Fresh()(key))
      modifies `long, `longLog, `longBytesUsed
      ensures Valid() && Footprint() == old(Footprint()) + |key| + LONG_ENTRY_BYTES
      ensures long == old(long)[key := span]
    {
      hide ShortOk, LongOk, FrontOk, Logged, LongBytes, Denotes, PackKey;
      LongInsert(Fresh(), arena, long, key, span);
      LogInsert(long, longLog, key, span);
      longBytesUsed := longBytesUsed + |key| + LONG_ENTRY_BYTES;
      long := long[key := span];
      longLog := longLog + [key];
    }

    lemma FreshIs(key: Bytes)
      ensures Fresh()(key) == Chunk(m, raw, key)
    {
    }

    /** A miss: wipe if over budget, merge, record. */
    method Miss(m: Model, raw: bool, key: Bytes) returns (tokens: seq<Token>)
      requires Valid() && m == this.m && raw == this.raw && m.WellFormed()
      requires key != [] && OffsetsFit(|Chunk(m, raw, key)|, |Chunk(m, raw, key)|)
      requires if PackKey(key).Some? then PackKey(key).value !in short else key !in long
      modifies this, frontKeys, frontVals
      ensures Valid() && tokens == Chunk(m, raw, key)
      ensures arena == (if old(OverBudget()) then [] else old(arena)) + tokens
      ensures !old(OverBudget()) ==> exists span :: OneMore(key, span, old(short), old(long), short, long)
      ensures old(OverBudget()) ==> exists span :: OneMore(key, span, map[], map[], short, long)
      ensures Footprint() <= budget + 4 * old(maxEncoding) + 4 * |tokens| + |key| + SHORT_ENTRY_BYTES
      ensures maxEncoding <= old(maxEncoding) || maxEncoding <= |tokens|
    {
      hide Valid, Denotes, PackKey, Chunk, Fresh;
      if OverBudget() {
        Wipe();
        tokens := MergeUnit(m, raw, key);
        Record(key, tokens);
      } else {
        tokens := MergeUnit(m, raw, key);
        Record(key, tokens);
      }
    }

    /** One unit through the cache: the tokens are those of the uncached encoding, hit or miss. */
    method EncodeUnit(m: Model, raw: bool, unit: Bytes, virtualPrefix: bool) returns (tokens: seq<Token>)
      requires Valid() && m == this.m && raw == this.raw && m.WellFormed()
      requires unit != []
      requires var n := |Chunk(m, raw, WithPrefix(virtualPrefix, unit))|; OffsetsFit(n, n)
      modifies this, frontKeys, frontVals
      ensures Valid()
      ensures tokens == Chunk(m, raw, WithPrefix(virtualPrefix, unit))
      ensures Footprint() == old(Footprint()) ||
              Footprint() <= budget + 4 * old(maxEncoding) + 4 * |tokens| + |WithPrefix(virtualPrefix, unit)| + SHORT_ENTRY_BYTES
      ensures |arena| <= old(|arena|) + |tokens|
      ensures !old(OverBudget()) ==> old(arena) <= arena && old(short.Keys) <= short.Keys && old(long.Keys) <= long.Keys
      ensures maxEncoding <= old(maxEncoding) || maxEncoding <= |tokens|
    {
      var key := WithPrefix(virtualPrefix, unit);
      assert key != [];
      hide Valid, Denotes, PackKey, WithPrefix, Chunk, Fresh;
      var found := Lookup(key);
      if found.Some? {
        return arena[found.value.0..found.value.0 + found.value.1];
      }
      tokens := Miss(m, raw, key);
    }
  }

  lemma IsOneMore(key: Bytes, span: Span, short: map<nat, Span>, long: map<Bytes, Span>, short': map<nat, Span>, long': map<Bytes, Span>)
    requires if PackKey(key).Some? then short' == short[PackKey(key).value := span] && long' == long
             else short' == short && long' == long[key := span]
    ensures OneMore(key, span, short, long, short', long')
  {
  }

  lemma EntryBytesAlike()
    ensures LONG_ENTRY_BYTES <= SHORT_ENTRY_BYTES
  {
  }

  lemma LongInsert(encode: Bytes -> seq<Token>, arena: seq<Token>, long: map<Bytes, Span>, key: Bytes, span: Span)
    requires LongOk(encode, arena, long) && Denotes(arena, span, encode(key))
    ensures LongOk(encode, arena, long[key := span])
  {
    hide Denotes;
  }

  lemma LogInsert(long: map<Bytes, Span>, log: seq<Bytes>, key: Bytes, span: Span)
    requires Logged(long, log) && key !in long
    ensures Logged(long[key := span], log + [key])
    ensures LongBytes(log + [key]) == LongBytes(log) + |key| + LONG_ENTRY_BYTES
  {
    assert (log + [key])[..|log|] == log;
  }
}
