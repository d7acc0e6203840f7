/** Updating all words that contain a pair, with the stale-tolerant index and the summed count changes. */
module TrainerUpdate {
  import opened MergeSpec
  import opened TrainerWords

  type Counts = map<Pair, int>

  /** Which words a pair is contained in; entries of words it has left stay behind. */
  type Index = map<Pair, set<nat>>

  function Get(m: Counts, q: Pair): int {
    if q in m then m[q] else 0
  }

  function Found(m: Index, q: Pair): set<nat> {
    if q in m then m[q] else {}
  }

  // ---------------------------------------------------------------------------
  // Counting from scratch
  // ---------------------------------------------------------------------------

  /** How often a pair occurs in the words, each word weighted by its count. */
  function PairCount(words: seq<Word>, q: Pair): nat {
    if words == [] then 0
    else PairCount(words[..|words| - 1], q) + Occ(words[|words| - 1].symbols, words[|words| - 1].count, q)
  }

  // ---------------------------------------------------------------------------
  // What an update records, all words together
  // ---------------------------------------------------------------------------

  /** The recorded changes of the words in `on`, summed. */
  function DeltaOn(words: seq<Word>, on: set<nat>, p: Pair, x: Token, q: Pair): int {
    if words == [] then 0
    else
      var k := |words| - 1;
      DeltaOn(words[..k], on, p, x, q) + if k in on then Sum(WordLog(words[k], p, x), q) else 0
  }

  function Delta(words: seq<Word>, p: Pair, x: Token, q: Pair): int {
    if words == [] then 0
    else Delta(words[..|words| - 1], p, x, q) + Sum(WordLog(words[|words| - 1], p, x), q)
  }

  ghost predicate Touches(words: seq<Word>, p: Pair, x: Token, q: Pair) {
    exists w :: w in words && Touched(WordLog(w, p, x), q)
  }

  ghost predicate TouchesOn(words: seq<Word>, on: set<nat>, p: Pair, x: Token, q: Pair) {
    exists k: nat :: k in on && k < |words| && Touched(WordLog(words[k], p, x), q)
  }

  /** The changes are those of the words in `on`. */
  ghost predicate ChangesOn(words: seq<Word>, on: set<nat>, p: Pair, x: Token, changes: Counts) {
    forall q :: Get(changes, q) == DeltaOn(words, on, p, x, q) && (q in changes <==> TouchesOn(words, on, p, x, q))
  }

  lemma {:induction false} DeltaOnNone(words: seq<Word>, p: Pair, x: Token, q: Pair)
    ensures DeltaOn(words, {}, p, x, q) == 0
  {
    if words != [] {
      DeltaOnNone(words[..|words| - 1], p, x, q);
    }
  }

  lemma {:induction false} DeltaOnMore(words: seq<Word>, on: set<nat>, i: nat, p: Pair, x: Token, q: Pair)
    requires i !in on
    ensures DeltaOn(words, on + {i}, p, x, q) == DeltaOn(words, on, p, x, q) + if i < |words| then Sum(WordLog(words[i], p, x), q) else 0
  {
    hide WordLog, Sum;
    if words != [] {
      var k := |words| - 1;
      DeltaOnMore(words[..k], on, i, p, x, q);
      assert i < k ==> words[..k][i] == words[i];
    }
  }

  /** Words that do not contain the pair record nothing. */
  lemma {:induction false} DeltaOnAll(words: seq<Word>, on: set<nat>, p: Pair, x: Token, q: Pair)
    requires forall k: nat :: k < |words| && k !in on ==> WordLog(words[k], p, x) == []
    ensures DeltaOn(words, on, p, x, q) == Delta(words, p, x, q)
  {
    hide WordLog;
    if words != [] {
      var k := |words| - 1;
      forall j: nat | j < |words[..k]| && j !in on ensures WordLog(words[..k][j], p, x) == [] {
        assert words[..k][j] == words[j];
      }
      DeltaOnAll(words[..k], on, p, x, q);
    }
  }

  lemma ChangesNone(words: seq<Word>, p: Pair, x: Token)
    ensures ChangesOn(words, {}, p, x, map[])
  {
    forall q ensures DeltaOn(words, {}, p, x, q) == 0 {
      DeltaOnNone(words, p, x, q);
    }
  }

  lemma ChangesStep(words: seq<Word>, on: set<nat>, i: nat, p: Pair, x: Token, changes: Counts, changes': Counts)
    requires ChangesOn(words, on, p, x, changes) && i !in on && i < |words|
    requires forall q :: Get(changes', q) == Get(changes, q) + Sum(WordLog(words[i], p, x), q)
    requires forall q :: q in changes' <==> q in changes || Touched(WordLog(words[i], p, x), q)
    ensures ChangesOn(words, on + {i}, p, x, changes')
  {
    hide WordLog, Sum, Touched, Get;
    forall q ensures Get(changes', q) == DeltaOn(words, on + {i}, p, x, q) && (q in changes' <==> TouchesOn(words, on + {i}, p, x, q)) {
      DeltaOnMore(words, on, i, p, x, q);
      assert i in on + {i};
    }
  }

  lemma ChangesAll(words: seq<Word>, on: set<nat>, p: Pair, x: Token, changes: Counts)
    requires ChangesOn(words, on, p, x, changes)
    requires forall k: nat :: k < |words| && k !in on ==> !Occurs(words[k].symbols, p)
    ensures forall q :: Get(changes, q) == Delta(words, p, x, q)
    ensures forall q :: q in changes <==> Touches(words, p, x, q)
  {
    hide Sum, Get, Occurs, LogFrom;
    forall k: nat | k < |words| && k !in on ensures WordLog(words[k], p, x) == [] {
      NothingLogged(words[k].symbols, 0, p, x, words[k].count);
    }
    hide WordLog;
    forall q ensures Get(changes, q) == Delta(words, p, x, q) {
      DeltaOnAll(words, on, p, x, q);
    }
    forall q | Touches(words, p, x, q) ensures TouchesOn(words, on, p, x, q) {
      var w :| w in words && Touched(WordLog(w, p, x), q);
      var k :| 0 <= k < |words| && words[k] == w;
    }
    forall q | TouchesOn(words, on, p, x, q) ensures Touches(words, p, x, q) {
      var k: nat :| k in on && k < |words| && Touched(WordLog(words[k], p, x), q);
      assert words[k] in words;
    }
  }

  lemma {:induction false} PairCountUpdate(words: seq<Word>, i: nat, w: Word, q: Pair)
    requires i < |words|
    ensures PairCount(words[i := w], q) == PairCount(words, q) + Occ(w.symbols, w.count, q) - Occ(words[i].symbols, words[i].count, q)
  {
    var k := |words| - 1;
    if i < k {
      PairCountUpdate(words[..k], i, w, q);
      assert words[i := w][..k] == words[..k][i := w];
    } else {
      assert words[i := w][..k] == words[..k];
    }
  }

  lemma {:induction false} PairCountZero(words: seq<Word>, q: Pair)
    requires forall w :: w in words ==> w.count > 0
    ensures PairCount(words, q) > 0 <==> exists k :: 0 <= k < |words| && Occurs(words[k].symbols, q)
  {
    if words != [] {
      var k := |words| - 1;
      assert words[k] in words;
      PairCountZero(words[..k], q);
      OccPositive(words[k].symbols, words[k].count, q);
      assert Occurs(words[k].symbols, q) ==> exists j :: 0 <= j < |words| && Occurs(words[j].symbols, q);
      if exists j :: 0 <= j < |words| && Occurs(words[j].symbols, q) {
        var j :| 0 <= j < |words| && Occurs(words[j].symbols, q);
        assert j < k ==> Occurs(words[..k][j].symbols, q);
      }
    }
  }

  lemma OccSnoc(s: seq<Token>, i: nat, c: nat, q: Pair)
    requires i + 1 < |s|
    ensures Occ(s[..i + 2], c, q) == Occ(s[..i + 1], c, q) + If((s[i], s[i + 1]) == q, c)
  {
    OccPlus(s[..i + 1], [s[i + 1]], c, q);
    assert s[..i + 2] == s[..i + 1] + [s[i + 1]];
  }

  /** `count_pairs`. */
  method CountPairs(words: seq<Word>) returns (counts: Counts)
    requires forall w :: w in words ==> w.symbols != []
    ensures forall q :: Get(counts, q) == PairCount(words, q)
    ensures forall q :: q in counts <==> exists k :: 0 <= k < |words| && Occurs(words[k].symbols, q)
  {
    hide Occ, Occurs;
    counts := map[];
    for n := 0 to |words|
      invariant forall q :: Get(counts, q) == PairCount(words[..n], q)
      invariant forall q :: q in counts <==> exists k :: 0 <= k < n && Occurs(words[k].symbols, q)
    {
      assert words[n] in words && words[..n + 1][..n] == words[..n];
      counts := CountWord(counts, words[n]);
    }
    assert words[..|words|] == words;
  }

  method CountWord(counts: Counts, w: Word) returns (counts': Counts)
    requires w.symbols != []
    ensures forall q :: Get(counts', q) == Get(counts, q) + Occ(w.symbols, w.count, q)
    ensures forall q :: q in counts' <==> q in counts || Occurs(w.symbols, q)
  {
    hide Occ;
    counts' := counts;
    OccShort(w.symbols, w.count);
    for i := 0 to |w.symbols| - 1
      invariant forall q :: Get(counts', q) == Get(counts, q) + Occ(w.symbols[..i + 1], w.count, q)
      invariant forall q :: q in counts' <==> q in counts || exists j :: j < i && PairAt(w.symbols, j, q)
    {
      assert PairAt(w.symbols, i, (w.symbols[i], w.symbols[i + 1]));
      var pair := (w.symbols[i], w.symbols[i + 1]);
      ghost var seen, more := w.symbols[..i + 1], w.symbols[..i + 2];
      forall q ensures Occ(more, w.count, q) == Occ(seen, w.count, q) + If(pair == q, w.count) {
        OccSnoc(w.symbols, i, w.count, q);
      }
      counts' := counts'[pair := Get(counts', pair) + w.count];
    }
    assert w.symbols[..|w.symbols|] == w.symbols;
  }

  lemma OccShort(s: seq<Token>, c: nat)
    requires s != []
    ensures forall q :: Occ(s[..1], c, q) == 0
  {
  }

  // ---------------------------------------------------------------------------
  // The index
  // ---------------------------------------------------------------------------

  /** Every word is listed under every pair it contains. */
  ghost predicate Indexed(words: seq<Word>, index: Index) {
    forall q: Pair, k: nat :: k < |words| && Occurs(words[k].symbols, q) ==> k in Found(index, q)
  }

  ghost predicate InRange(n: nat, x: Token, index: Index) {
    && (forall q: Pair, k: nat :: k in Found(index, q) ==> k < n)
    && (forall q :: q in index ==> q.0 < x && q.1 < x)
  }

  ghost predicate WordsOk(words: seq<Word>, x: Token) {
    forall k :: 0 <= k < |words| ==> words[k].symbols != [] && words[k].count > 0 && forall t :: t in words[k].symbols ==> t < x
  }

  function Replaced(w: Word, p: Pair, x: Token): Word {
    Word(ReplaceAll(w.symbols, p, x), w.count)
  }

  function ReplaceIn(words: seq<Word>, p: Pair, x: Token): (r: seq<Word>)
    ensures |r| == |words| && forall k :: 0 <= k < |words| ==> r[k] == Replaced(words[k], p, x)
  {
    seq(|words|, k requires 0 <= k < |words| => Replaced(words[k], p, x))
  }

  // ---------------------------------------------------------------------------
  // Recording changes
  // ---------------------------------------------------------------------------

  /** The recording callback over one word's changes: counts are summed, and gained pairs list the word. */
  method Record(changes: Counts, contained: Index, i: nat, log: seq<Change>) returns (changes': Counts, contained': Index)
    ensures forall q :: Get(changes', q) == Get(changes, q) + Sum(log, q)
    ensures forall q :: q in changes' <==> q in changes || Touched(log, q)
    ensures forall q: Pair, k: nat :: k in Found(contained', q) <==> k in Found(contained, q) || (k == i && Gained(log, q))
    ensures forall q :: q in contained' <==> q in contained || Gained(log, q)
  {
    hide Sum, Gained, Touched, Get, Found;
    changes', contained' := changes, contained;
    LogNone(log);
    for n := 0 to |log|
      invariant forall q :: Get(changes', q) == Get(changes, q) + Sum(log[..n], q)
      invariant forall q :: q in changes' <==> q in changes || Touched(log[..n], q)
      invariant forall q: Pair, k: nat :: k in Found(contained', q) <==> k in Found(contained, q) || (k == i && Gained(log[..n], q))
      invariant forall q :: q in contained' <==> q in contained || Gained(log[..n], q)
    {
      var ch := log[n];
      forall q ensures Sum(log[..n + 1], q) == Sum(log[..n], q) + If(ch.pair == q, ch.delta)
        && (Gained(log[..n + 1], q) <==> Gained(log[..n], q) || (ch.pair == q && ch.delta > 0))
        && (Touched(log[..n + 1], q) <==> Touched(log[..n], q) || ch.pair == q)
      {
        LogSnoc(log, n, q);
      }
      ghost var before := contained';
      FoundPut(before, ch.pair, i);
      if ch.delta > 0 {
        contained' := contained'[ch.pair := Found(contained', ch.pair) + {i}];
      }
      assert forall q: Pair, k: nat :: k in Found(contained', q) <==> k in Found(before, q) || (ch.delta > 0 && k == i && q == ch.pair);
      GetPut(changes', ch.pair, Get(changes', ch.pair) + ch.delta);
      changes' := changes'[ch.pair := Get(changes', ch.pair) + ch.delta];
    }
    assert log[..|log|] == log;
  }

  lemma FoundPut(m: Index, p: Pair, i: nat)
    ensures forall q: Pair, k: nat :: k in Found(m[p := Found(m, p) + {i}], q) <==> k in Found(m, q) || (k == i && q == p)
  {
  }

  lemma GetPut(m: Counts, p: Pair, c: int)
    ensures forall q :: Get(m[p := c], q) == if q == p then c else Get(m, q)
  {
    forall q ensures Get(m[p := c], q) == if q == p then c else Get(m, q) {
    }
  }

  lemma LogNone(log: seq<Change>)
    ensures forall q :: Sum(log[..0], q) == 0 && !Gained(log[..0], q) && !Touched(log[..0], q)
  {
  }

  lemma LogSnoc(log: seq<Change>, n: nat, q: Pair)
    requires n < |log|
    ensures Sum(log[..n + 1], q) == Sum(log[..n], q) + If(log[n].pair == q, log[n].delta)
    ensures Gained(log[..n + 1], q) <==> Gained(log[..n], q) || (log[n].pair == q && log[n].delta > 0)
    ensures Touched(log[..n + 1], q) <==> Touched(log[..n], q) || log[n].pair == q
  {
    var a, b := log[..n], log[..n + 1];
    assert b == a + [log[n]];
    SumSnoc(a, log[n], q);
    assert forall k :: 0 <= k < n ==> a[k] == b[k];
    assert b[n] == log[n];
  }

  // ---------------------------------------------------------------------------
  // Updating the words
  // ---------------------------------------------------------------------------

  /** Part of the way through the word indices: those still to do are as they were, the others are replaced. */
  ghost predicate Partly(was: seq<Word>, words: seq<Word>, listed: set<nat>, todo: set<nat>, p: Pair, x: Token) {
    && |words| == |was| && todo <= listed
    && forall k: nat :: k < |was| ==> words[k] == if k in listed && k !in todo then Replaced(was[k], p, x) else was[k]
  }

  /** The changes summed so far are the changes of the pair counts, the merged pair's own apart. */
  ghost predicate Summed(was: seq<Word>, words: seq<Word>, changes: Counts, p: Pair) {
    && (forall q :: q != p ==> Get(changes, q) == PairCount(words, q) - PairCount(was, q))
    && Get(changes, p) <= 0
  }

  /** Between them, the index and the gained entries list every word under every pair it contains. */
  ghost predicate Listed(words: seq<Word>, index: Index, contained: Index, changes: Counts, x: Token) {
    && (forall q: Pair, k: nat :: k < |words| && Occurs(words[k].symbols, q) ==> k in Found(index, q) || k in Found(contained, q))
    && (forall q :: q in changes ==> q in index || q in contained)
    && (forall q: Pair, k: nat :: k in Found(contained, q) ==> k < |words|)
    && (forall q :: q in contained ==> UpTo(q, x))
  }

  lemma SumStep(was: seq<Word>, words: seq<Word>, changes: Counts, changes': Counts, i: nat, w: Word, log: seq<Change>, p: Pair, x: Token)
    requires Summed(was, words, changes, p) && i < |words| && words[i].count == w.count
    requires Recorded(words[i], p, x, w.symbols, log)
    requires forall q :: Get(changes', q) == Get(changes, q) + Sum(log, q)
    ensures Summed(was, words[i := w], changes', p)
  {
    hide Occ, Sum, Get, PairCount, Occurs, Gained, Touched;
    forall q ensures PairCount(words[i := w], q) == PairCount(words, q) + Occ(w.symbols, w.count, q) - Occ(words[i].symbols, w.count, q) {
      PairCountUpdate(words, i, w, q);
    }
  }

  lemma ListStep(words: seq<Word>, index: Index, contained: Index, contained': Index, changes: Counts, changes': Counts,
                 i: nat, w: Word, log: seq<Change>, p: Pair, x: Token)
    requires Listed(words, index, contained, changes, x) && i < |words|
    requires Recorded(words[i], p, x, w.symbols, log) && words[i].count > 0
    requires forall q :: q in changes' <==> q in changes || Touched(log, q)
    requires forall q: Pair, k: nat :: k in Found(contained', q) <==> k in Found(contained, q) || (k == i && Gained(log, q))
    requires forall q :: q in contained' <==> q in contained || Gained(log, q)
    ensures Listed(words[i := w], index, contained', changes', x)
  {
    hide Occ, Sum, Occurs, Gained, Touched;
    forall q | Touched(log, q) ensures q in index || q in contained' {
      if !Gained(log, q) {
        assert Occurs(words[i].symbols, q);
        assert i in Found(index, q) || i in Found(contained, q);
      }
    }
    forall q: Pair, k: nat | k < |words| && Occurs(words[i := w][k].symbols, q)
      ensures k in Found(index, q) || k in Found(contained', q)
    {
      if k == i && !Gained(log, q) {
        assert Occurs(words[i].symbols, q);
      }
    }
  }

  lemma PartStep(was: seq<Word>, words: seq<Word>, listed: set<nat>, todo: set<nat>, i: nat, p: Pair, x: Token)
    requires Partly(was, words, listed, todo, p, x) && i in todo && i < |was|
    ensures words[i] == was[i] && Partly(was, words[i := Replaced(was[i], p, x)], listed, todo - {i}, p, x)
  {
  }

  /** Once none is left to do, every word has the pair replaced: those not listed do not contain it. */
  lemma AllReplaced(was: seq<Word>, words: seq<Word>, index: Index, p: Pair, x: Token)
    requires Indexed(was, index) && Partly(was, words, Found(index, p), {}, p, x)
    ensures words == ReplaceIn(was, p, x)
  {
    forall k: nat | k < |was| ensures words[k] == Replaced(was[k], p, x) {
      if k !in Found(index, p) {
        assert !Occurs(was[k].symbols, p);
        ReplaceNothing(was[k].symbols, p, x);
      }
    }
  }

  /** The index with the gained entries of the pairs not in `todo` added. */
  ghost predicate Added(index: Index, contained: Index, todo: set<Pair>, index': Index) {
    && (forall q :: q in index' <==> q in index || (q in contained && q !in todo))
    && (forall q: Pair, k: nat :: k in Found(index', q) <==> k in Found(index, q) || (q !in todo && k in Found(contained, q)))
  }

  lemma AddStep(index: Index, contained: Index, todo: set<Pair>, index': Index, q: Pair)
    requires Added(index, contained, todo, index') && q in contained && q in todo
    ensures Added(index, contained, todo - {q}, index'[q := Found(index', q) + contained[q]])
  {
    var next := index'[q := Found(index', q) + contained[q]];
    assert forall r :: r != q ==> Found(next, r) == Found(index', r);
    assert Found(next, q) == Found(index', q) + Found(contained, q);
    assert q in next;
    hide Found;
  }

  /** Add the gained entries to the index, pair by pair. */
  method MergeIndex(index: Index, contained: Index) returns (index': Index)
    ensures Added(index, contained, {}, index')
  {
    hide Added, Found;
    index' := index;
    var todo := contained.Keys;
    AddNone(index, contained);
    while todo != {}
      invariant todo <= contained.Keys && Added(index, contained, todo, index')
      decreases |todo|
    {
      var q :| q in todo;
      AddStep(index, contained, todo, index', q);
      index' := index'[q := Found(index', q) + contained[q]];
      todo := todo - {q};
    }
  }

  lemma AddNone(index: Index, contained: Index)
    ensures Added(index, contained, contained.Keys, index)
  {
  }

  lemma UpdateBegins(words: seq<Word>, index: Index, p: Pair, x: Token)
    requires Indexed(words, index)
    ensures Partly(words, words, Found(index, p), Found(index, p), p, x)
    ensures Summed(words, words, map[], p) && Listed(words, index, map[], map[], x)
  {
  }

  lemma UpdateEnds(was: seq<Word>, words: seq<Word>, index: Index, contained: Index, index': Index, changes: Counts, x: Token)
    requires InRange(|was|, x, index) && |words| == |was| && Listed(words, index, contained, changes, x)
    requires Added(index, contained, {}, index')
    ensures Indexed(words, index') && InRange(|words|, x + 1, index')
    ensures forall q :: q in changes || q in index ==> q in index'
  {
    hide Occurs, Found;
  }

  lemma WordFacts(words: seq<Word>, x: Token, index: Index, p: Pair, i: nat)
    requires WordsOk(words, x) && InRange(|words|, x, index) && i in Found(index, p)
    ensures i < |words| && words[i].symbols != [] && words[i].count > 0
    ensures forall t :: t in words[i].symbols ==> t < x
  {
  }

  lemma NotListed(words: seq<Word>, index: Index, p: Pair)
    requires Indexed(words, index)
    ensures forall k: nat :: k < |words| && k !in Found(index, p) ==> !Occurs(words[k].symbols, p)
  {
  }

  /** `update_words`: the listed words in any order. Every word has the pair replaced, the changes are those
      of a fresh count, whatever the order, and the index still covers every word. */
  method UpdateWords(words: array<Word>, index: Index, p: Pair, x: Token) returns (changes: Counts, index': Index)
    requires WordsOk(words[..], x) && Indexed(words[..], index) && InRange(words.Length, x, index)
    requires p in index
    modifies words
    ensures words[..] == ReplaceIn(old(words[..]), p, x)
    ensures Summed(old(words[..]), words[..], changes, p)
    ensures forall q :: Get(changes, q) == Delta(old(words[..]), p, x, q)
    ensures forall q :: q in changes <==> Touches(old(words[..]), p, x, q)
    ensures Indexed(words[..], index') && InRange(words.Length, x + 1, index')
    ensures forall q :: q in changes || q in index ==> q in index'
  {
    hide *;
    ghost var was := words[..];
    changes := map[];
    var contained: Index := map[];
    var listed := index[p];
    FoundIs(index, p, was, x);
    UpdateBegins(was, index, p, x);
    ChangesNone(was, p, x);
    assert listed - listed == {};
    var todo := listed;
    while todo != {}
      invariant Partly(was, words[..], listed, todo, p, x)
      invariant Summed(was, words[..], changes, p) && Listed(words[..], index, contained, changes, x)
      invariant ChangesOn(was, listed - todo, p, x, changes)
      decreases |todo|
    {
      var i :| i in todo;
      ListedInTodo(was, words[..], listed, todo, p, x, i);
      WordFacts(was, x, index, p, i);
      ghost var ws := words[..];
      PartStep(was, ws, listed, todo, i, p, x);
      var w, log := UpdateWord(words[i], p, x);
      var changes', contained' := Record(changes, contained, i, log);
      ReplacedIs(was[i], p, x);
      SumStep(was, ws, changes, changes', i, w, log, p, x);
      ListStep(ws, index, contained, contained', changes, changes', i, w, log, p, x);
      ChangesStep(was, listed - todo, i, p, x, changes, changes');
      assert listed - todo + {i} == listed - (todo - {i});
      changes, contained := changes', contained';
      words[i] := w;
      assert words[..] == ws[i := w];
      todo := todo - {i};
    }
    AllReplaced(was, words[..], index, p, x);
    NotListed(was, index, p);
    assert listed - todo == listed;
    ChangesAll(was, listed, p, x, changes);
    index' := MergeIndex(index, contained);
    PartLength(was, words[..], listed, todo, p, x);
    UpdateEnds(was, words[..], index, contained, index', changes, x);
  }

  lemma ReplacedIs(w: Word, p: Pair, x: Token)
    ensures Replaced(w, p, x) == Word(ReplaceAll(w.symbols, p, x), w.count)
  {
  }

  lemma PartLength(was: seq<Word>, words: seq<Word>, listed: set<nat>, todo: set<nat>, p: Pair, x: Token)
    requires Partly(was, words, listed, todo, p, x)
    ensures |words| == |was|
  {
  }

  lemma FoundIs(index: Index, p: Pair, words: seq<Word>, x: Token)
    requires p in index && InRange(|words|, x, index)
    ensures Found(index, p) == index[p] && !Has(p, x)
  {
  }

  lemma ListedInTodo(was: seq<Word>, words: seq<Word>, listed: set<nat>, todo: set<nat>, p: Pair, x: Token, i: nat)
    requires Partly(was, words, listed, todo, p, x) && i in todo
    ensures i in listed
  {
  }
}
