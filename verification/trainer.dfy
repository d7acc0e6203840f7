/** Training: incremental counts, a priority queue and a stale-tolerant index pick the merges that recounting
    all words from scratch would pick, and the encoder redoes them. */
module Trainer {
  import opened Utf8
  import opened MergeSpec
  import opened TrainerWords
  import opened TrainerUpdate
  import opened TrainerTies
  import opened TrainerReplay

  // ---------------------------------------------------------------------------
  // Training by recounting
  // ---------------------------------------------------------------------------

  /** The words after some merges, each replaced throughout. */
  function WordsAfter(words: seq<Word>, ids: seq<Pair>, base: nat): seq<Word> {
    if ids == [] then words
    else ReplaceIn(WordsAfter(words, ids[..|ids| - 1], base), ids[|ids| - 1], base + |ids| - 1)
  }

  /** The pair a fresh count ranks first: the most frequent one, ties broken by the least key. */
  ghost predicate IsBest(words: seq<Word>, key: Key, p: Pair) {
    && PairCount(words, p) > 0
    && forall q :: q != p ==> PairCount(words, q) < PairCount(words, p) || (PairCount(words, q) == PairCount(words, p) && PairLess(key, p, q))
  }

  ghost predicate NoPairs(words: seq<Word>) {
    forall q :: PairCount(words, q) == 0
  }

  /** Every merge is the best pair of the words it was chosen for, as long as these have pairs at all. */
  ghost predicate BestSteps(words: seq<Word>, ids: seq<Pair>, base: nat, key: Key) {
    forall j :: 0 <= j < |ids| ==> IsBest(WordsAfter(words, ids[..j], base), key, ids[j]) || NoPairs(WordsAfter(words, ids[..j], base))
  }

  lemma {:induction false} WordsAfterReplay(words: seq<Word>, ids: seq<Pair>, base: nat)
    ensures |WordsAfter(words, ids, base)| == |words|
    ensures forall k :: 0 <= k < |words| ==> WordsAfter(words, ids, base)[k] == Word(Replay(words[k].symbols, ids, base), words[k].count)
  {
    if ids != [] {
      WordsAfterReplay(words, ids[..|ids| - 1], base);
    }
  }

  lemma WordsAfterSnoc(words: seq<Word>, ids: seq<Pair>, base: nat, p: Pair)
    ensures WordsAfter(words, ids + [p], base) == ReplaceIn(WordsAfter(words, ids, base), p, base + |ids|)
  {
    assert (ids + [p])[..|ids|] == ids;
  }

  lemma BestSnoc(words: seq<Word>, ids: seq<Pair>, base: nat, key: Key, p: Pair)
    requires BestSteps(words, ids, base, key)
    requires IsBest(WordsAfter(words, ids, base), key, p) || NoPairs(WordsAfter(words, ids, base))
    ensures BestSteps(words, ids + [p], base, key)
  {
    hide IsBest, NoPairs, WordsAfter;
    var more := ids + [p];
    forall j | 0 <= j < |more| ensures IsBest(WordsAfter(words, more[..j], base), key, more[j]) || NoPairs(WordsAfter(words, more[..j], base)) {
      assert more[..j] == if j < |ids| then ids[..j] else ids;
    }
  }

  // ---------------------------------------------------------------------------
  // The queue
  // ---------------------------------------------------------------------------

  /** Priorities (0 when absent) are fresh counts for every pair not merged yet; merged pairs are gone for good
      and never rise above 0; every queued pair is in the index. */
  ghost predicate QueueOk(words: seq<Word>, queue: Counts, ids: seq<Pair>, index: Index) {
    && (forall q :: q !in ids ==> Get(queue, q) == PairCount(words, q))
    && (forall q :: q in ids ==> PairCount(words, q) == 0 && Get(queue, q) <= 0)
    && (forall q :: q in queue ==> q in index)
  }

  /** The queue training starts with. */
  ghost predicate FreshQueue(words: seq<Word>, queue: Counts) {
    && (forall q :: q in queue <==> exists k :: 0 <= k < |words| && Occurs(words[k].symbols, q))
    && (forall q :: Get(queue, q) == PairCount(words, q))
  }

  /** How a merge moves the queue: the merged pair leaves, every recorded change is added, and what is recorded for the
      first time is pushed. */
  ghost predicate Moved(words: seq<Word>, prev: Counts, p: Pair, x: Token, queue: Counts) {
    && (forall q :: q in queue <==> q in prev - {p} || Touches(words, p, x, q))
    && (forall q :: Get(queue, q) == Get(prev - {p}, q) + Delta(words, p, x, q))
  }

  /** The queue after some merges, used-up pairs and all. */
  ghost predicate QueueAfter(was: seq<Word>, ids: seq<Pair>, base: nat, queue: Counts)
    decreases |ids|
  {
    if ids == [] then FreshQueue(was, queue)
    else
      var k := |ids| - 1;
      exists prev :: QueueAfter(was, ids[..k], base, prev) && Moved(WordsAfter(was, ids[..k], base), prev, ids[k], base + k, queue)
  }

  /** The `j`-th merge is the top of the queue it was popped from. */
  ghost predicate TopAt(was: seq<Word>, ids: seq<Pair>, base: nat, key: Key, j: nat)
    requires j < |ids|
  {
    exists queue :: QueueAfter(was, ids[..j], base, queue) && IsTop(queue, key, ids[j])
  }

  /** Every merge is the top of the queue, also when no pair is left and used-up ones are popped again. */
  ghost predicate TopSteps(was: seq<Word>, ids: seq<Pair>, base: nat, key: Key) {
    forall j: nat :: j < |ids| ==> TopAt(was, ids, base, key, j)
  }

  lemma QueueSnoc(was: seq<Word>, ids: seq<Pair>, base: nat, prev: Counts, p: Pair, queue: Counts)
    requires QueueAfter(was, ids, base, prev) && Moved(WordsAfter(was, ids, base), prev, p, base + |ids|, queue)
    ensures QueueAfter(was, ids + [p], base, queue)
  {
    hide Moved, WordsAfter;
    assert (ids + [p])[..|ids|] == ids;
  }

  lemma TopSnoc(was: seq<Word>, ids: seq<Pair>, base: nat, key: Key, queue: Counts, p: Pair)
    requires TopSteps(was, ids, base, key) && QueueAfter(was, ids, base, queue) && IsTop(queue, key, p)
    ensures TopSteps(was, ids + [p], base, key)
  {
    hide QueueAfter, IsTop;
    var more := ids + [p];
    forall j: nat | j < |more| ensures TopAt(was, more, base, key, j) {
      if j < |ids| {
        assert TopAt(was, ids, base, key, j);
        assert more[..j] == ids[..j];
      } else {
        assert more[..j] == ids;
      }
    }
  }

  lemma TopIsBest(words: seq<Word>, queue: Counts, ids: seq<Pair>, index: Index, key: Key, p: Pair)
    requires QueueOk(words, queue, ids, index) && IsTop(queue, key, p)
    ensures IsBest(words, key, p) || NoPairs(words)
    ensures queue[p] > 0 ==> IsBest(words, key, p) && p !in ids
  {
    hide PairCount, PairLess;
    forall q ensures PairCount(words, q) <= Get(queue, q) || PairCount(words, q) == 0 {}
    if queue[p] > 0 {
      assert p !in ids;
    }
  }

  lemma ReplacedCount(words: seq<Word>, p: Pair, x: Token, q: Pair)
    requires WordsOk(words, x) && q.0 < x && q.1 < x && !Has(p, x) && PairCount(ReplaceIn(words, p, x), q) > 0
    ensures PairCount(words, q) > 0 && q != p
  {
    hide PairCount, Occurs;
    var after := ReplaceIn(words, p, x);
    forall w | w in after ensures w.count > 0 {
      var k :| 0 <= k < |after| && after[k] == w;
    }
    PairCountZero(after, q);
    var k :| 0 <= k < |after| && Occurs(after[k].symbols, q);
    ReplacePairs(words[k].symbols, p, x, q);
    PairCountZero(words, q);
  }

  lemma Requeued(words: seq<Word>, queue: Counts, ids: seq<Pair>, index: Index, index': Index, changes: Counts, queue': Counts, p: Pair, x: Token)
    requires QueueOk(words, queue, ids, index) && WordsOk(words, x) && p.0 < x && p.1 < x
    requires forall q :: q in ids ==> q.0 < x && q.1 < x
    requires Summed(words, ReplaceIn(words, p, x), changes, p)
    requires forall q :: q in changes || q in index ==> q in index'
    requires forall q :: Get(queue', q) == Get(queue - {p}, q) + Get(changes, q)
    requires forall q :: q in queue' ==> q in queue || q in changes
    ensures QueueOk(ReplaceIn(words, p, x), queue', ids + [p], index')
  {
    hide PairCount, ReplaceIn, WordsOk;
    var after := ReplaceIn(words, p, x);
    forall q | q in ids + [p] ensures PairCount(after, q) == 0 && Get(queue', q) <= 0 {
      assert q == p || q in ids;
      if PairCount(after, q) > 0 {
        ReplacedCount(words, p, x, q);
      }
    }
  }

  /** The summed changes applied to the queue: a queued pair's priority moves, another is pushed. */
  method ApplyChanges(queue: Counts, changes: Counts) returns (queue': Counts)
    ensures forall q :: Get(queue', q) == Get(queue, q) + Get(changes, q)
    ensures forall q :: q in queue' <==> q in queue || q in changes
  {
    queue' := queue;
    var todo := changes.Keys;
    while todo != {}
      invariant todo <= changes.Keys
      invariant forall q :: q in queue' <==> q in queue || (q in changes && q !in todo)
      invariant forall q :: Get(queue', q) == Get(queue, q) + if q in todo then 0 else Get(changes, q)
      decreases |todo|
    {
      var q :| q in todo;
      if q in queue' {
        queue' := queue'[q := queue'[q] + changes[q]];
      } else {
        queue' := queue'[q := changes[q]];
      }
      todo := todo - {q};
    }
  }

  // ---------------------------------------------------------------------------
  // The token table
  // ---------------------------------------------------------------------------

  /** Every learned token spells the concatenation of the pair it was merged from. */
  ghost predicate TableOk(symbols: seq<Bytes>, merges: seq<(Bytes, Bytes)>, ids: seq<Pair>, base: nat) {
    && |symbols| == base + |ids| && |merges| == |ids|
    && forall j :: 0 <= j < |ids| ==>
         && ids[j].0 < base + j && ids[j].1 < base + j
         && merges[j] == (symbols[ids[j].0], symbols[ids[j].1])
         && symbols[base + j] == merges[j].0 + merges[j].1
  }

  lemma TableStep(symbols: seq<Bytes>, merges: seq<(Bytes, Bytes)>, ids: seq<Pair>, base: nat, p: Pair)
    requires TableOk(symbols, merges, ids, base) && p.0 < |symbols| && p.1 < |symbols|
    ensures TableOk(symbols + [symbols[p.0] + symbols[p.1]], merges + [(symbols[p.0], symbols[p.1])], ids + [p], base)
  {
  }

  lemma TableFacts(symbols: seq<Bytes>, merges: seq<(Bytes, Bytes)>, ids: seq<Pair>, base: nat)
    requires TableOk(symbols, merges, ids, base)
    ensures |symbols| == base + |ids| && |merges| == |ids|
    ensures forall q :: q in ids ==> q.0 < |symbols| && q.1 < |symbols|
    ensures base + |ids| <= NO_RANK ==> Ordered(ids, base)
  {
  }

  lemma SpellingJoins(symbols: seq<Bytes>, merges: seq<(Bytes, Bytes)>, ids: seq<Pair>, base: nat)
    requires TableOk(symbols, merges, ids, base)
    ensures var spell := SpellingOf(symbols); forall j :: 0 <= j < |ids| ==> spell(base + j) == spell(ids[j].0) + spell(ids[j].1)
  {
  }

  /** The learned merge table is byte-consistent. */
  lemma LearnedConsistent(symbols: seq<Bytes>, merges: seq<(Bytes, Bytes)>, ids: seq<Pair>, base: nat)
    requires TableOk(symbols, merges, ids, base) && base + |ids| <= NO_RANK
    ensures Consistent(LearnedRules(ids, base), SpellingOf(symbols))
  {
    var spell := SpellingOf(symbols);
    var rules := LearnedRules(ids, base);
    hide FirstMerge, SpellingOf;
    assert forall j :: 0 <= j < |ids| ==> spell(base + j) == spell(ids[j].0) + spell(ids[j].1) by { SpellingJoins(symbols, merges, ids, base); }
    forall a: Token, b: Token | rules(a, b).Rule? ensures spell(rules(a, b).token) == spell(a) + spell(b) {
      var j := FirstMerge(ids, (a, b)).value;
      assert ids[j] == (a, b);
    }
  }

  // ---------------------------------------------------------------------------
  // The training run
  // ---------------------------------------------------------------------------

  function WordOf(entry: (Bytes, nat)): (w: Word)
    ensures |w.symbols| == |entry.0| && w.count == entry.1
    ensures forall i :: 0 <= i < |entry.0| ==> w.symbols[i] == entry.0[i] as nat
    ensures forall t :: t in w.symbols ==> t < 256
  {
    Word(seq(|entry.0|, i requires 0 <= i < |entry.0| => entry.0[i] as nat), entry.1)
  }

  function WordsOf(corpus: seq<(Bytes, nat)>): (words: seq<Word>)
    ensures |words| == |corpus| && forall k :: 0 <= k < |corpus| ==> words[k] == WordOf(corpus[k])
  {
    seq(|corpus|, k requires 0 <= k < |corpus| => WordOf(corpus[k]))
  }

  function InitialSymbols(specials: seq<Bytes>): (symbols: seq<Bytes>)
    ensures |symbols| == 256 + |specials| && forall b :: 0 <= b < 256 ==> symbols[b] == [b as byte]
    ensures symbols[256..] == specials
  {
    seq(256, b requires 0 <= b < 256 => [b as byte]) + specials
  }

  // ---------------------------------------------------------------------------
  // The words keep their bytes
  // ---------------------------------------------------------------------------

  /** What the tokens of a table spell. */
  function SpellingOf(symbols: seq<Bytes>): Spelling {
    (t: Token) => if t < |symbols| then symbols[t] else []
  }

  lemma {:induction false} BytesSpelled(spell: Spelling, s: seq<Token>, bytes: Bytes)
    requires |s| == |bytes| && forall i :: 0 <= i < |s| ==> spell(s[i]) == [bytes[i]]
    ensures Spell(spell, s) == bytes
  {
    if s != [] {
      BytesSpelled(spell, s[1..], bytes[1..]);
    }
  }

  lemma {:induction false} ReplaceSpells(spell: Spelling, s: seq<Token>, p: Pair, x: Token)
    requires spell(x) == spell(p.0) + spell(p.1)
    ensures Spell(spell, ReplaceAll(s, p, x)) == Spell(spell, s)
    decreases |s|
  {
    if |s| >= 2 {
      if (s[0], s[1]) == p {
        ReplaceSpells(spell, s[2..], p, x);
        assert s[1..][1..] == s[2..];
        assert ([x] + ReplaceAll(s[2..], p, x))[1..] == ReplaceAll(s[2..], p, x);
      } else {
        ReplaceSpells(spell, s[1..], p, x);
        assert ([s[0]] + ReplaceAll(s[1..], p, x))[1..] == ReplaceAll(s[1..], p, x);
      }
    }
  }

  lemma {:induction false} ReplaySpells(spell: Spelling, s: seq<Token>, ids: seq<Pair>, base: nat)
    requires forall j :: 0 <= j < |ids| ==> spell(base + j) == spell(ids[j].0) + spell(ids[j].1)
    ensures Spell(spell, Replay(s, ids, base)) == Spell(spell, s)
  {
    if ids != [] {
      var k := |ids| - 1;
      ReplaySpells(spell, s, ids[..k], base);
      ReplaceSpells(spell, Replay(s, ids[..k], base), ids[k], base + k);
    }
  }

  lemma BytesThemselves(specials: seq<Bytes>, symbols: seq<Bytes>)
    requires InitialSymbols(specials) <= symbols
    ensures forall b: byte :: SpellingOf(symbols)(b as Token) == [b]
  {
    forall b: byte ensures SpellingOf(symbols)(b as Token) == [b] {
      assert symbols[b as int] == InitialSymbols(specials)[b as int];
    }
  }

  /** The tokens a word is left with spell the word. */
  lemma WordSpelled(corpus: seq<(Bytes, nat)>, specials: seq<Bytes>, symbols: seq<Bytes>, merges: seq<(Bytes, Bytes)>, ids: seq<Pair>, k: nat)
    requires TableOk(symbols, merges, ids, 256 + |specials|) && InitialSymbols(specials) <= symbols && k < |corpus|
    ensures |WordsAfter(WordsOf(corpus), ids, 256 + |specials|)| == |corpus|
    ensures Spell(SpellingOf(symbols), WordsAfter(WordsOf(corpus), ids, 256 + |specials|)[k].symbols) == corpus[k].0
  {
    var spell, base := SpellingOf(symbols), 256 + |specials|;
    WordsAfterReplay(WordsOf(corpus), ids, base);
    hide Spell, Replay, WordsAfter, WordOf, TableOk, SpellingOf;
    SpellingJoins(symbols, merges, ids, base);
    BytesThemselves(specials, symbols);
    ReplaySpells(spell, WordOf(corpus[k]).symbols, ids, base);
    BytesSpelled(spell, WordOf(corpus[k]).symbols, corpus[k].0);
  }

  /** List each word under the pairs it contains. */
  method BuildIndex(words: seq<Word>, x: Token) returns (index: Index)
    requires WordsOk(words, x)
    ensures Indexed(words, index) && InRange(|words|, x, index)
  {
    hide Indexed, InRange, Occurs, Found;
    index := map[];
    IndexNone(words, x);
    for n := 0 to |words|
      invariant Indexed(words[..n], index) && InRange(n, x, index)
    {
      var symbols := words[n].symbols;
      Widen(n, x, index);
      for i := 0 to |symbols| - 1
        invariant Indexed(words[..n], index) && InRange(n + 1, x, index)
        invariant forall j :: 0 <= j < i ==> n in Found(index, (symbols[j], symbols[j + 1]))
      {
        assert symbols[i] in symbols && symbols[i + 1] in symbols;
        var pair := (symbols[i], symbols[i + 1]);
        IndexAdd(words[..n], n, x, index, pair);
        index := index[pair := Found(index, pair) + {n}];
      }
      WordIndexed(words, n, index);
    }
    assert words[..|words|] == words;
  }

  lemma IndexNone(words: seq<Word>, x: Token)
    ensures Indexed(words[..0], map[]) && InRange(0, x, map[])
  {
  }

  lemma Widen(n: nat, x: Token, index: Index)
    requires InRange(n, x, index)
    ensures InRange(n + 1, x, index)
  {
  }

  lemma IndexAdd(words: seq<Word>, n: nat, x: Token, index: Index, pair: Pair)
    requires Indexed(words, index) && InRange(n + 1, x, index) && pair.0 < x && pair.1 < x
    ensures var more := index[pair := Found(index, pair) + {n}];
      && Indexed(words, more) && InRange(n + 1, x, more) && n in Found(more, pair)
      && forall q: Pair, k: nat :: k in Found(index, q) ==> k in Found(more, q)
  {
    hide Occurs;
    var more := index[pair := Found(index, pair) + {n}];
    forall q: Pair ensures Found(more, q) == if q == pair then Found(index, q) + {n} else Found(index, q) {}
    forall q: Pair, k: nat | k in Found(more, q) ensures k < n + 1 {
      assert k == n || k in Found(index, q);
    }
  }

  lemma WordIndexed(words: seq<Word>, n: nat, index: Index)
    requires n < |words| && Indexed(words[..n], index)
    requires forall j :: 0 <= j < |words[n].symbols| - 1 ==> n in Found(index, (words[n].symbols[j], words[n].symbols[j + 1]))
    ensures Indexed(words[..n + 1], index)
  {
    forall q: Pair, k: nat | k < n + 1 && Occurs(words[..n + 1][k].symbols, q) ensures k in Found(index, q) {
      if k < n {
        assert Occurs(words[..n][k].symbols, q);
      } else {
        var i :| PairAt(words[n].symbols, i, q);
      }
    }
  }

  lemma QueueStart(words: seq<Word>, x: Token, queue: Counts, index: Index)
    requires WordsOk(words, x) && Indexed(words, index)
    requires forall q :: Get(queue, q) == PairCount(words, q)
    requires forall q :: q in queue <==> exists k :: 0 <= k < |words| && Occurs(words[k].symbols, q)
    ensures QueueOk(words, queue, [], index) && FreshQueue(words, queue)
  {
    hide PairCount, Occurs;
    forall q | q in queue ensures q in index {
      var k: nat :| k < |words| && Occurs(words[k].symbols, q);
      assert k in Found(index, q);
    }
  }

  lemma ReplaceWordsOk(words: seq<Word>, p: Pair, x: Token)
    requires WordsOk(words, x)
    ensures WordsOk(ReplaceIn(words, p, x), x + 1)
  {
    forall k | 0 <= k < |words| {
      ReplaceSymbols(words[k].symbols, p, x, x + 1);
    }
  }

  /** The order the ids of a tie are compared in. */
  ghost predicate TieOrder(ties: TieBreaking, key: Key) {
    && Injective(key)
    && (forall id :: id >= 256 ==> key(id) == id)
    && (forall b :: b < 256 ==> key(b) < 256)
    && (ties.RawTokenIds? ==> forall b :: key(b) == b)
    && (ties.HuggingFace? ==> forall a, b :: a < 256 && b < 256 ==> (key(a) < key(b) <==> Codepoint(a) < Codepoint(b)))
  }

  lemma TieKeyOrder(ties: TieBreaking, rank: seq<nat>)
    requires |rank| == 256 && forall b :: 0 <= b < 256 ==> rank[b] < 256
    requires forall a, b :: 0 <= a < 256 && 0 <= b < 256 ==> (rank[a] < rank[b] <==> Codepoint(a) < Codepoint(b))
    requires forall a, b :: 0 <= a < b < 256 ==> rank[a] != rank[b]
    ensures TieOrder(ties, TieKey(ties, rank))
  {
    hide Codepoint;
    TieKeyInjective(ties, rank);
  }

  /** The order ids are compared in: bytes by their codepoint, or by value, and before the ids that follow them. */
  predicate IdBefore(ties: TieBreaking, a: Token, b: Token) {
    if ties.HuggingFace? && a < 256 && b < 256 then Codepoint(a) < Codepoint(b) else a < b
  }

  lemma KeyIsOrder(ties: TieBreaking, key: Key, p: Pair, q: Pair)
    requires TieOrder(ties, key)
    ensures PairLess(key, p, q) <==> IdBefore(ties, p.0, q.0) || (p.0 == q.0 && IdBefore(ties, p.1, q.1))
  {
    hide Codepoint;
  }

  /** The best pair, written out: more frequent than any other, or as frequent and least by its first id, then its second. */
  lemma BestWrittenOut(ties: TieBreaking, key: Key, words: seq<Word>, p: Pair)
    requires TieOrder(ties, key)
    ensures IsBest(words, key, p) <==> PairCount(words, p) > 0 && forall q :: q != p ==>
      || PairCount(words, q) < PairCount(words, p)
      || (PairCount(words, q) == PairCount(words, p) && (IdBefore(ties, p.0, q.0) || (p.0 == q.0 && IdBefore(ties, p.1, q.1))))
  {
    hide PairCount, TieOrder, IdBefore, PairLess;
    forall q ensures PairLess(key, p, q) <==> IdBefore(ties, p.0, q.0) || (p.0 == q.0 && IdBefore(ties, p.1, q.1)) {
      KeyIsOrder(ties, key, p, q);
    }
  }

  /** The same for the top of a queue. */
  lemma TopWrittenOut(ties: TieBreaking, key: Key, queue: Counts, p: Pair)
    requires TieOrder(ties, key)
    ensures IsTop(queue, key, p) <==> p in queue && forall q :: q in queue && q != p ==>
      || queue[q] < queue[p]
      || (queue[q] == queue[p] && (IdBefore(ties, p.0, q.0) || (p.0 == q.0 && IdBefore(ties, p.1, q.1))))
  {
    hide TieOrder, IdBefore, PairLess;
    forall q ensures PairLess(key, p, q) <==> IdBefore(ties, p.0, q.0) || (p.0 == q.0 && IdBefore(ties, p.1, q.1)) {
      KeyIsOrder(ties, key, p, q);
    }
  }

  /** What training keeps at every step. */
  ghost predicate Trained(was: seq<Word>, words: seq<Word>, ids: seq<Pair>, base: nat, key: Key, queue: Counts, index: Index) {
    && words == WordsAfter(was, ids, base) && BestSteps(was, ids, base, key)
    && TopSteps(was, ids, base, key) && QueueAfter(was, ids, base, queue)
    && WordsOk(words, base + |ids|) && QueueOk(words, queue, ids, index)
    && Indexed(words, index) && InRange(|words|, base + |ids|, index)
  }

  lemma TrainedStart(words: seq<Word>, base: nat, key: Key, queue: Counts, index: Index)
    requires WordsOk(words, base) && QueueOk(words, queue, [], index) && Indexed(words, index) && InRange(|words|, base, index)
    requires FreshQueue(words, queue)
    ensures Trained(words, words, [], base, key, queue, index)
  {
  }

  lemma ChosenIsIndexed(was: seq<Word>, words: seq<Word>, ids: seq<Pair>, base: nat, key: Key, queue: Counts, index: Index, p: Pair)
    requires Trained(was, words, ids, base, key, queue, index) && IsTop(queue, key, p)
    ensures p in index && p.0 < base + |ids| && p.1 < base + |ids|
    ensures WordsOk(words, base + |ids|) && Indexed(words, index) && InRange(|words|, base + |ids|, index)
  {
  }

  lemma TrainedStep(was: seq<Word>, words: seq<Word>, ids: seq<Pair>, base: nat, key: Key, queue: Counts, index: Index, p: Pair,
                    changes: Counts, index': Index, queue': Counts)
    requires Trained(was, words, ids, base, key, queue, index) && IsTop(queue, key, p)
    requires forall q :: q in ids ==> q.0 < base + |ids| && q.1 < base + |ids|
    requires var after := ReplaceIn(words, p, base + |ids|);
      Summed(words, after, changes, p) && Indexed(after, index') && InRange(|words|, base + |ids| + 1, index')
    requires forall q :: q in changes || q in index ==> q in index'
    requires forall q :: Get(changes, q) == Delta(words, p, base + |ids|, q)
    requires forall q :: q in changes <==> Touches(words, p, base + |ids|, q)
    requires forall q :: Get(queue', q) == Get(queue - {p}, q) + Get(changes, q)
    requires forall q :: q in queue' <==> q in queue - {p} || q in changes
    ensures Trained(was, ReplaceIn(words, p, base + |ids|), ids + [p], base, key, queue', index')
  {
    hide *;
    ChosenIsIndexed(was, words, ids, base, key, queue, index, p);
    TrainedFacts(was, words, ids, base, key, queue, index);
    TopIsBest(words, queue, ids, index, key, p);
    BestSnoc(was, ids, base, key, p);
    WordsAfterSnoc(was, ids, base, p);
    ReplaceWordsOk(words, p, base + |ids|);
    Requeued(words, queue, ids, index, index', changes, queue', p, base + |ids|);
    TopSnoc(was, ids, base, key, queue, p);
    assert Moved(words, queue, p, base + |ids|, queue') by { MovedIntro(words, queue, p, base + |ids|, queue', changes); }
    QueueSnoc(was, ids, base, queue, p, queue');
    TrainedIntro(was, ReplaceIn(words, p, base + |ids|), ids + [p], base, key, queue', index');
  }

  lemma MovedIntro(words: seq<Word>, prev: Counts, p: Pair, x: Token, queue: Counts, changes: Counts)
    requires forall q :: Get(changes, q) == Delta(words, p, x, q)
    requires forall q :: q in changes <==> Touches(words, p, x, q)
    requires forall q :: Get(queue, q) == Get(prev - {p}, q) + Get(changes, q)
    requires forall q :: q in queue <==> q in prev - {p} || q in changes
    ensures Moved(words, prev, p, x, queue)
  {
    hide Get, Delta, Touches;
  }

  lemma TrainedFacts(was: seq<Word>, words: seq<Word>, ids: seq<Pair>, base: nat, key: Key, queue: Counts, index: Index)
    requires Trained(was, words, ids, base, key, queue, index)
    ensures words == WordsAfter(was, ids, base) && BestSteps(was, ids, base, key)
    ensures TopSteps(was, ids, base, key) && QueueAfter(was, ids, base, queue)
    ensures WordsOk(words, base + |ids|) && QueueOk(words, queue, ids, index)
  {
  }

  lemma TrainedIntro(was: seq<Word>, words: seq<Word>, ids: seq<Pair>, base: nat, key: Key, queue: Counts, index: Index)
    requires words == WordsAfter(was, ids, base) && BestSteps(was, ids, base, key)
    requires TopSteps(was, ids, base, key) && QueueAfter(was, ids, base, queue)
    requires WordsOk(words, base + |ids|) && QueueOk(words, queue, ids, index)
    requires Indexed(words, index) && InRange(|words|, base + |ids|, index)
    ensures Trained(was, words, ids, base, key, queue, index)
  {
  }

  lemma TrainedEnd(was: seq<Word>, words: seq<Word>, ids: seq<Pair>, base: nat, key: Key, queue: Counts, index: Index)
    requires Trained(was, words, ids, base, key, queue, index)
    ensures words == WordsAfter(was, ids, base) && BestSteps(was, ids, base, key)
    ensures TopSteps(was, ids, base, key) && QueueAfter(was, ids, base, queue)
    ensures queue == map[] ==> NoPairs(words)
  {
    assert queue == map[] ==> forall p :: p !in queue;
  }

  lemma CorpusOk(corpus: seq<(Bytes, nat)>, base: nat)
    requires base >= 256 && forall e :: e in corpus ==> e.0 != [] && e.1 > 0
    ensures WordsOk(WordsOf(corpus), base)
    ensures forall w :: w in WordsOf(corpus) ==> w.symbols != []
  {
    forall k | 0 <= k < |corpus| ensures corpus[k].0 != [] && corpus[k].1 > 0 {
      assert corpus[k] in corpus;
    }
  }

  /** One merge: the chosen pair is replaced in every word, and the queue and the index follow. */
  method TrainStep(words: array<Word>, queue: Counts, index: Index, key: Key, x: Token, ghost was: seq<Word>, ghost ids: seq<Pair>, ghost base: nat)
    returns (pair: Pair, queue': Counts, index': Index)
    requires Trained(was, words[..], ids, base, key, queue, index) && Injective(key) && queue != map[] && x == base + |ids|
    requires forall q :: q in ids ==> q.0 < x && q.1 < x
    modifies words
    ensures pair.0 < x && pair.1 < x && Trained(was, words[..], ids + [pair], base, key, queue', index')
  {
    hide *;
    var rest;
    pair, rest := ChoosePair(queue, key);
    ChosenIsIndexed(was, words[..], ids, base, key, queue, index, pair);
    ghost var before := words[..];
    var changes;
    changes, index' := UpdateWords(words, index, pair, x);
    queue' := ApplyChanges(rest, changes);
    TrainedStep(was, before, ids, base, key, queue, index, pair, changes, index', queue');
  }

  /** What determines the outcome of a training: every merge is the top of its queue, the table spells the merges, and
      training stops when the vocabulary is full or the queue empty. */
  ghost predicate Outcome(corpus: seq<(Bytes, nat)>, vocabSize: nat, specials: seq<Bytes>, ties: TieBreaking,
                          symbols: seq<Bytes>, merges: seq<(Bytes, Bytes)>, ids: seq<Pair>, key: Key) {
    var base := 256 + |specials|;
    && TieOrder(ties, key) && TopSteps(WordsOf(corpus), ids, base, key)
    && TableOk(symbols, merges, ids, base) && InitialSymbols(specials) <= symbols
    && (|symbols| <= vocabSize || ids == [])
    && (|symbols| >= vocabSize || QueueAfter(WordsOf(corpus), ids, base, map[]))
  }

  /** `train_bpe` over the corpus in any order of its entries: the merges are those of recounting from scratch,
      the words are left as the merges leave them, and the table spells every merge. */
  method Train(corpus: seq<(Bytes, nat)>, vocabSize: nat, specials: seq<Bytes>, ties: TieBreaking)
    returns (symbols: seq<Bytes>, merges: seq<(Bytes, Bytes)>, words: array<Word>, ghost ids: seq<Pair>, ghost key: Key)
    requires forall e :: e in corpus ==> e.0 != [] && e.1 > 0
    ensures Outcome(corpus, vocabSize, specials, ties, symbols, merges, ids, key)
    ensures BestSteps(WordsOf(corpus), ids, 256 + |specials|, key)
    ensures words[..] == WordsAfter(WordsOf(corpus), ids, 256 + |specials|)
    ensures |symbols| >= vocabSize || NoPairs(words[..])
    ensures words.Length == |corpus|
    ensures forall k :: 0 <= k < |corpus| ==> Spell(SpellingOf(symbols), words[k].symbols) == corpus[k].0
    ensures |symbols| <= NO_RANK ==>
              forall k :: 0 <= k < |corpus| ==> words[k].symbols == MergeAll(LearnedRules(ids, 256 + |specials|), WordOf(corpus[k]).symbols)
  {
    hide *;
    var base: nat := 256 + |specials|;
    ghost var was := WordsOf(corpus);
    CorpusOk(corpus, base);
    words := new Word[|corpus|](k requires 0 <= k < |corpus| => WordOf(corpus[k]));
    assert words[..] == was;
    var index := BuildIndex(words[..], base);
    var queue := CountPairs(words[..]);
    QueueStart(was, base, queue, index);
    symbols := InitialSymbols(specials);
    var rank := BuildByteToHfRank();
    TieKeyOrder(ties, rank[..]);
    var order := TieKey(ties, rank[..]);
    key := order;
    merges, ids := [], [];
    TrainedStart(was, base, key, queue, index);
    TableStart(symbols, base);
    while queue != map[] && |symbols| < vocabSize
      invariant Trained(was, words[..], ids, base, key, queue, index)
      invariant TableOk(symbols, merges, ids, base) && InitialSymbols(specials) <= symbols
      invariant |symbols| <= vocabSize || ids == []
      decreases vocabSize - |symbols|
    {
      KeyFacts(ties, key);
      TableFacts(symbols, merges, ids, base);
      var pair, queue', index' := TrainStep(words, queue, index, order, |symbols|, was, ids, base);
      TableStep(symbols, merges, ids, base, pair);
      merges := merges + [(symbols[pair.0], symbols[pair.1])];
      symbols := symbols + [symbols[pair.0] + symbols[pair.1]];
      queue, index, ids := queue', index', ids + [pair];
    }
    TrainedEnd(was, words[..], ids, base, key, queue, index);
    TableFacts(symbols, merges, ids, base);
    WordsAfterReplay(was, ids, base);
    if |symbols| <= NO_RANK {
      WordsRedone(corpus, ids, base);
    }
    OutcomeIntro(corpus, vocabSize, specials, ties, symbols, merges, ids, key, queue);
    forall k | 0 <= k < |corpus| ensures Spell(SpellingOf(symbols), words[k].symbols) == corpus[k].0 {
      WordSpelled(corpus, specials, symbols, merges, ids, k);
      assert words[..][k] == words[k];
    }
  }

  lemma OutcomeIntro(corpus: seq<(Bytes, nat)>, vocabSize: nat, specials: seq<Bytes>, ties: TieBreaking,
                     symbols: seq<Bytes>, merges: seq<(Bytes, Bytes)>, ids: seq<Pair>, key: Key, queue: Counts)
    requires TieOrder(ties, key) && TopSteps(WordsOf(corpus), ids, 256 + |specials|, key)
    requires TableOk(symbols, merges, ids, 256 + |specials|) && InitialSymbols(specials) <= symbols
    requires QueueAfter(WordsOf(corpus), ids, 256 + |specials|, queue)
    requires (|symbols| <= vocabSize || ids == []) && (|symbols| >= vocabSize || queue == map[])
    ensures Outcome(corpus, vocabSize, specials, ties, symbols, merges, ids, key)
  {
  }

  lemma TableStart(symbols: seq<Bytes>, base: nat)
    requires |symbols| == base
    ensures TableOk(symbols, [], [], base)
  {
  }

  lemma KeyFacts(ties: TieBreaking, key: Key)
    requires TieOrder(ties, key)
    ensures Injective(key)
  {
  }

  // ---------------------------------------------------------------------------
  // Trainer and encoder
  // ---------------------------------------------------------------------------

  /** Encoding a training word with the learned ids, lowest first, gives the trainer's own segmentation of it. */
  lemma EncoderRedoesTraining(words: seq<Word>, ids: seq<Pair>, base: nat, k: nat)
    requires k < |words| && Ordered(ids, base) && forall t :: t in words[k].symbols ==> t < base
    ensures |WordsAfter(words, ids, base)| == |words|
    ensures WordsAfter(words, ids, base)[k].symbols == MergeAll(LearnedRules(ids, base), words[k].symbols)
  {
    WordsAfterReplay(words, ids, base);
    ReplayIsMergeAll(words[k].symbols, ids, base);
  }

  lemma WordsRedone(corpus: seq<(Bytes, nat)>, ids: seq<Pair>, base: nat)
    requires Ordered(ids, base) && base >= 256
    ensures var after := WordsAfter(WordsOf(corpus), ids, base);
      |after| == |corpus| && forall k :: 0 <= k < |corpus| ==> after[k].symbols == MergeAll(LearnedRules(ids, base), WordOf(corpus[k]).symbols)
  {
    hide WordsAfter, MergeAll, LearnedRules, Ordered;
    WordsAfterReplay(WordsOf(corpus), ids, base);
    forall k | 0 <= k < |corpus| ensures WordsAfter(WordsOf(corpus), ids, base)[k].symbols == MergeAll(LearnedRules(ids, base), WordOf(corpus[k]).symbols) {
      EncoderRedoesTraining(WordsOf(corpus), ids, base, k);
    }
  }
}
