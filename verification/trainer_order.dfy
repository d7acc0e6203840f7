/** The learned merges do not depend on the order the training words come in. */
module TrainerOrder {
  import opened Utf8
  import opened MergeSpec
  import opened TrainerWords
  import opened TrainerUpdate
  import opened TrainerTies
  import opened Trainer

  /** Some word of the second list is the last of the first; what is left of both is the same again. */
  lemma PickOut(a: seq<Word>, b: seq<Word>) returns (i: nat)
    requires multiset(a) == multiset(b) && a != []
    ensures i < |b| && b[i] == a[|a| - 1]
    ensures b == b[..i] + ([b[i]] + b[i + 1..])
    ensures multiset(a[..|a| - 1]) == multiset(b[..i] + b[i + 1..])
  {
    var k := |a| - 1;
    Without(a, k);
    assert a[..k] + a[k + 1..] == a[..k];
    assert a[k] in multiset(b);
    i :| 0 <= i < |b| && b[i] == a[k];
    Without(b, i);
    Cancel(multiset(a[..k]), multiset(b[..i] + b[i + 1..]), a[k]);
  }

  lemma Cancel(m: multiset<Word>, n: multiset<Word>, w: Word)
    requires m + multiset{w} == n + multiset{w}
    ensures m == n
  {
    assert m == (m + multiset{w}) - multiset{w};
    assert n == (n + multiset{w}) - multiset{w};
  }

  lemma Without(s: seq<Word>, i: nat)
    requires i < |s|
    ensures s == s[..i] + ([s[i]] + s[i + 1..])
    ensures multiset(s) == multiset(s[..i] + s[i + 1..]) + multiset{s[i]}
  {
    var u, v := s[..i], s[i + 1..];
    assert s == u + ([s[i]] + v);
    assert multiset(u + ([s[i]] + v)) == multiset(u) + multiset([s[i]] + v);
  }

  /** A sum over the words, in order. */
  function SumOver(words: seq<Word>, f: Word -> int): int {
    if words == [] then 0 else SumOver(words[..|words| - 1], f) + f(words[|words| - 1])
  }

  lemma {:induction false} SumOverPlus(a: seq<Word>, b: seq<Word>, f: Word -> int)
    ensures SumOver(a + b, f) == SumOver(a, f) + SumOver(b, f)
  {
    if b == [] {
      assert a + b == a;
    } else {
      var k := |b| - 1;
      assert (a + b)[..|a| + k] == a + b[..k];
      SumOverPlus(a, b[..k], f);
    }
  }

  lemma SumOverMiddle(a: seq<Word>, w: Word, b: seq<Word>, f: Word -> int)
    ensures SumOver(a + ([w] + b), f) == SumOver(a + b, f) + f(w)
  {
    SumOverPlus(a, [w] + b, f);
    SumOverPlus([w], b, f);
    SumOverPlus(a, b, f);
    assert [w][..0] == [];
  }

  /** Sums do not depend on the order of the words. */
  lemma {:induction false} SumOverShuffled(a: seq<Word>, b: seq<Word>, f: Word -> int)
    requires multiset(a) == multiset(b)
    ensures SumOver(a, f) == SumOver(b, f)
    decreases |a|
  {
    if a == [] {
      assert b == [] by { assert |multiset(b)| == 0; }
    } else {
      var i := PickOut(a, b);
      SumOverShuffled(a[..|a| - 1], b[..i] + b[i + 1..], f);
      SumOverMiddle(b[..i], b[i], b[i + 1..], f);
    }
  }

  function OccOf(q: Pair): Word -> int {
    (w: Word) => Occ(w.symbols, w.count, q)
  }

  function ChangeOf(p: Pair, x: Token, q: Pair): Word -> int {
    (w: Word) => Sum(WordLog(w, p, x), q)
  }

  lemma {:induction false} PairCountIsSum(words: seq<Word>, q: Pair)
    ensures PairCount(words, q) == SumOver(words, OccOf(q))
  {
    hide Occ;
    if words != [] {
      PairCountIsSum(words[..|words| - 1], q);
    }
  }

  lemma {:induction false} DeltaIsSum(words: seq<Word>, p: Pair, x: Token, q: Pair)
    ensures Delta(words, p, x, q) == SumOver(words, ChangeOf(p, x, q))
  {
    hide Sum, WordLog;
    if words != [] {
      DeltaIsSum(words[..|words| - 1], p, x, q);
    }
  }

  /** Counts do not depend on the order of the words. */
  lemma PairCountShuffled(a: seq<Word>, b: seq<Word>, q: Pair)
    requires multiset(a) == multiset(b)
    ensures PairCount(a, q) == PairCount(b, q)
  {
    PairCountIsSum(a, q);
    PairCountIsSum(b, q);
    SumOverShuffled(a, b, OccOf(q));
  }

  /** Nor do the changes a merge records. */
  lemma ChangesShuffled(a: seq<Word>, b: seq<Word>, p: Pair, x: Token, q: Pair)
    requires multiset(a) == multiset(b)
    ensures Delta(a, p, x, q) == Delta(b, p, x, q) && (Touches(a, p, x, q) <==> Touches(b, p, x, q))
  {
    hide Touched, WordLog;
    DeltaIsSum(a, p, x, q);
    DeltaIsSum(b, p, x, q);
    SumOverShuffled(a, b, ChangeOf(p, x, q));
    forall w ensures w in a <==> w in b {
      SameWords(a, b, w);
    }
  }

  lemma SameWords(a: seq<Word>, b: seq<Word>, w: Word)
    requires multiset(a) == multiset(b)
    ensures w in a <==> w in b
  {
    assert w in multiset(a) <==> w in a;
    assert w in multiset(b) <==> w in b;
  }

  lemma ReplaceInPlus(a: seq<Word>, b: seq<Word>, p: Pair, x: Token)
    ensures ReplaceIn(a + b, p, x) == ReplaceIn(a, p, x) + ReplaceIn(b, p, x)
  {
  }

  /** Replacing a pair in shuffled words gives shuffled words. */
  lemma {:induction false} ReplaceShuffled(a: seq<Word>, b: seq<Word>, p: Pair, x: Token)
    requires multiset(a) == multiset(b)
    ensures multiset(ReplaceIn(a, p, x)) == multiset(ReplaceIn(b, p, x))
    decreases |a|
  {
    hide ReplaceIn, Replaced;
    if a == [] {
      assert b == [] by { assert |multiset(b)| == 0; }
    } else {
      var k := |a| - 1;
      var i := PickOut(a, b);
      ReplaceShuffled(a[..k], b[..i] + b[i + 1..], p, x);
      assert a == a[..k] + [a[k]];
      ReplaceInPlus(a[..k], [a[k]], p, x);
      ReplaceInPlus(b[..i], [b[i]] + b[i + 1..], p, x);
      ReplaceInPlus([b[i]], b[i + 1..], p, x);
      ReplaceInPlus(b[..i], b[i + 1..], p, x);
    }
  }

  /** Words, and the same words in another order, stay so through the same merges. */
  lemma {:induction false} AfterShuffled(a: seq<Word>, b: seq<Word>, ids: seq<Pair>, base: nat)
    requires multiset(a) == multiset(b)
    ensures multiset(WordsAfter(a, ids, base)) == multiset(WordsAfter(b, ids, base))
  {
    if ids != [] {
      var k := |ids| - 1;
      AfterShuffled(a, b, ids[..k], base);
      ReplaceShuffled(WordsAfter(a, ids[..k], base), WordsAfter(b, ids[..k], base), ids[k], base + k);
    }
  }

  // ---------------------------------------------------------------------------
  // The queue
  // ---------------------------------------------------------------------------

  lemma SameFreshQueue(a: seq<Word>, b: seq<Word>, qa: Counts, qb: Counts)
    requires multiset(a) == multiset(b) && FreshQueue(a, qa) && FreshQueue(b, qb)
    ensures qa == qb
  {
    hide PairCount, Occurs;
    forall q: Pair ensures Get(qa, q) == Get(qb, q) && (q in qa <==> q in qb) {
      PairCountShuffled(a, b, q);
      OccursShuffled(a, b, q);
      OccursShuffled(b, a, q);
    }
    SameMap(qa, qb);
  }

  lemma OccursShuffled(a: seq<Word>, b: seq<Word>, q: Pair)
    requires multiset(a) == multiset(b)
    ensures (exists k :: 0 <= k < |a| && Occurs(a[k].symbols, q)) ==> exists k :: 0 <= k < |b| && Occurs(b[k].symbols, q)
  {
    if k :| 0 <= k < |a| && Occurs(a[k].symbols, q) {
      SameWords(a, b, a[k]);
      var j :| 0 <= j < |b| && b[j] == a[k];
    }
  }

  lemma SameMap(m: Counts, n: Counts)
    requires forall q :: Get(m, q) == Get(n, q) && (q in m <==> q in n)
    ensures m == n
  {
    assert forall q :: q in m ==> m[q] == Get(m, q);
    assert forall q :: q in n ==> n[q] == Get(n, q);
  }

  lemma SameMoved(a: seq<Word>, b: seq<Word>, prev: Counts, p: Pair, x: Token, qa: Counts, qb: Counts)
    requires multiset(a) == multiset(b) && Moved(a, prev, p, x, qa) && Moved(b, prev, p, x, qb)
    ensures qa == qb
  {
    hide Delta, Touches;
    forall q: Pair ensures Get(qa, q) == Get(qb, q) && (q in qa <==> q in qb) {
      ChangesShuffled(a, b, p, x, q);
    }
    SameMap(qa, qb);
  }

  /** Words, and the same words in another order, bring the same queue through the same merges. */
  lemma {:induction false} SameQueue(a: seq<Word>, b: seq<Word>, ids: seq<Pair>, base: nat, qa: Counts, qb: Counts)
    requires multiset(a) == multiset(b) && QueueAfter(a, ids, base, qa) && QueueAfter(b, ids, base, qb)
    ensures qa == qb
    decreases |ids|
  {
    hide Moved, WordsAfter, FreshQueue;
    if ids == [] {
      SameFreshQueue(a, b, qa, qb);
    } else {
      var k := |ids| - 1;
      var pa :| QueueAfter(a, ids[..k], base, pa) && Moved(WordsAfter(a, ids[..k], base), pa, ids[k], base + k, qa);
      var pb :| QueueAfter(b, ids[..k], base, pb) && Moved(WordsAfter(b, ids[..k], base), pb, ids[k], base + k, qb);
      SameQueue(a, b, ids[..k], base, pa, pb);
      AfterShuffled(a, b, ids[..k], base);
      SameMoved(WordsAfter(a, ids[..k], base), WordsAfter(b, ids[..k], base), pa, ids[k], base + k, qa, qb);
    }
  }

  /** A queue has one top. */
  lemma TopIsUnique(queue: Counts, key: Key, p: Pair, q: Pair)
    requires IsTop(queue, key, p) && IsTop(queue, key, q)
    ensures p == q
  {
  }

  /** Two trainings on the same words in different orders learn the same merges. */
  lemma {:induction false} OrderDoesNotMatter(a: seq<Word>, b: seq<Word>, ids: seq<Pair>, ids': seq<Pair>, base: nat, key: Key, n: nat)
    requires multiset(a) == multiset(b) && n <= |ids| && n <= |ids'|
    requires TopSteps(a, ids, base, key) && TopSteps(b, ids', base, key)
    ensures ids[..n] == ids'[..n]
  {
    hide QueueAfter, IsTop;
    if n > 0 {
      var k := n - 1;
      OrderDoesNotMatter(a, b, ids, ids', base, key, k);
      assert TopAt(a, ids, base, key, k) && TopAt(b, ids', base, key, k);
      var qa :| QueueAfter(a, ids[..k], base, qa) && IsTop(qa, key, ids[k]);
      var qb :| QueueAfter(b, ids'[..k], base, qb) && IsTop(qb, key, ids'[k]);
      SameQueue(a, b, ids[..k], base, qa, qb);
      TopIsUnique(qa, key, ids[k], ids'[k]);
      assert ids[..n] == ids[..k] + [ids[k]] && ids'[..n] == ids'[..k] + [ids'[k]];
    }
  }

  /** However the remap is tabulated, it orders pairs the same way. */
  lemma SameTieOrder(ties: TieBreaking, key: Key, key': Key, p: Pair, q: Pair)
    requires TieOrder(ties, key) && TieOrder(ties, key')
    ensures PairLess(key, p, q) <==> PairLess(key', p, q)
  {
    hide *;
    KeyIsOrder(ties, key, p, q);
    KeyIsOrder(ties, key', p, q);
  }

  lemma SameTop(ties: TieBreaking, key: Key, key': Key, queue: Counts, p: Pair)
    requires TieOrder(ties, key) && TieOrder(ties, key') && IsTop(queue, key', p)
    ensures IsTop(queue, key, p)
  {
    hide TieOrder, PairLess;
    forall q ensures PairLess(key, p, q) <==> PairLess(key', p, q) {
      SameTieOrder(ties, key, key', p, q);
    }
  }

  lemma SameTopSteps(ties: TieBreaking, key: Key, key': Key, words: seq<Word>, ids: seq<Pair>, base: nat)
    requires TieOrder(ties, key) && TieOrder(ties, key') && TopSteps(words, ids, base, key')
    ensures TopSteps(words, ids, base, key)
  {
    hide TieOrder, IsTop, QueueAfter;
    forall j: nat | j < |ids| ensures TopAt(words, ids, base, key, j) {
      assert TopAt(words, ids, base, key', j);
      var queue :| QueueAfter(words, ids[..j], base, queue) && IsTop(queue, key', ids[j]);
      SameTop(ties, key, key', queue, ids[j]);
    }
  }

  /** A training that has run its queue empty is not outrun by another one. */
  lemma NoneLeftBehind(a: seq<Word>, b: seq<Word>, ids: seq<Pair>, ids': seq<Pair>, base: nat, key: Key)
    requires multiset(a) == multiset(b) && |ids| < |ids'| && ids == ids'[..|ids|]
    requires QueueAfter(a, ids, base, map[])
    ensures !TopSteps(b, ids', base, key)
  {
    hide QueueAfter;
    if TopSteps(b, ids', base, key) {
      assert TopAt(b, ids', base, key, |ids|);
      var queue :| QueueAfter(b, ids'[..|ids|], base, queue) && IsTop(queue, key, ids'[|ids|]);
      SameQueue(a, b, ids, base, map[], queue);
    }
  }

  /** The merges determine the table. */
  lemma {:induction false} SameTable(symbols: seq<Bytes>, merges: seq<(Bytes, Bytes)>, symbols': seq<Bytes>, merges': seq<(Bytes, Bytes)>,
                                     ids: seq<Pair>, base: nat, n: nat)
    requires TableOk(symbols, merges, ids, base) && TableOk(symbols', merges', ids, base)
    requires symbols[..base] == symbols'[..base] && n <= |ids|
    ensures symbols[..base + n] == symbols'[..base + n] && merges[..n] == merges'[..n]
  {
    if n > 0 {
      var k := n - 1;
      SameTable(symbols, merges, symbols', merges', ids, base, k);
      assert symbols[ids[k].0] == symbols[..base + k][ids[k].0] && symbols[ids[k].1] == symbols[..base + k][ids[k].1];
      assert symbols'[ids[k].0] == symbols'[..base + k][ids[k].0] && symbols'[ids[k].1] == symbols'[..base + k][ids[k].1];
      assert symbols[..base + n] == symbols[..base + k] + [symbols[base + k]];
      assert symbols'[..base + n] == symbols'[..base + k] + [symbols'[base + k]];
    }
  }

  lemma SamePrefix(symbols: seq<Bytes>, merges: seq<(Bytes, Bytes)>, symbols': seq<Bytes>, merges': seq<(Bytes, Bytes)>,
                   ids: seq<Pair>, initial: seq<Bytes>)
    requires TableOk(symbols, merges, ids, |initial|) && TableOk(symbols', merges', ids, |initial|)
    requires initial <= symbols && initial <= symbols'
    ensures symbols == symbols' && merges == merges'
  {
    SameTable(symbols, merges, symbols', merges', ids, |initial|, |ids|);
    assert symbols[..|symbols|] == symbols && symbols'[..|symbols'|] == symbols';
    assert merges[..|merges|] == merges && merges'[..|merges'|] == merges';
  }

  /** Training on a corpus in any order of its words, with ties broken by ids, learns the same merges and the same table,
      to the last one, used-up pairs included. */
  lemma CorpusOrderDoesNotMatter(corpus: seq<(Bytes, nat)>, corpus': seq<(Bytes, nat)>, vocabSize: nat, specials: seq<Bytes>, ties: TieBreaking,
                                 symbols: seq<Bytes>, merges: seq<(Bytes, Bytes)>, ids: seq<Pair>, key: Key,
                                 symbols': seq<Bytes>, merges': seq<(Bytes, Bytes)>, ids': seq<Pair>, key': Key)
    requires multiset(WordsOf(corpus)) == multiset(WordsOf(corpus'))
    requires Outcome(corpus, vocabSize, specials, ties, symbols, merges, ids, key)
    requires Outcome(corpus', vocabSize, specials, ties, symbols', merges', ids', key')
    ensures ids == ids' && symbols == symbols' && merges == merges'
  {
    hide TieOrder, TopSteps, QueueAfter, WordsOf, TableOk, InitialSymbols;
    var a, b, base := WordsOf(corpus), WordsOf(corpus'), 256 + |specials|;
    TableFacts(symbols, merges, ids, base);
    TableFacts(symbols', merges', ids', base);
    SameTopSteps(ties, key, key', b, ids', base);
    var n := if |ids| < |ids'| then |ids| else |ids'|;
    OrderDoesNotMatter(a, b, ids, ids', base, key, n);
    assert ids[..|ids|] == ids && ids'[..|ids'|] == ids';
    if |ids| < |ids'| {
      NoneLeftBehind(a, b, ids, ids', base, key);
    } else if |ids'| < |ids| {
      NoneLeftBehind(b, a, ids', ids, base, key);
    }
    SamePrefix(symbols, merges, symbols', merges', ids, InitialSymbols(specials));
  }
}
