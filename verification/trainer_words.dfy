/** Training words: pair occurrences, in-place replacement of a pair, and the count changes it records. */
module TrainerWords {
  import opened MergeSpec

  type Pair = (Token, Token)

  datatype Word = Word(symbols: seq<Token>, count: nat)

  /** One call of the recording callback. */
  datatype Change = Change(pair: Pair, delta: int)

  // ---------------------------------------------------------------------------
  // Occurrences
  // ---------------------------------------------------------------------------

  predicate PairAt(s: seq<Token>, i: int, q: Pair) {
    0 <= i < |s| - 1 && (s[i], s[i + 1]) == q
  }

  ghost predicate Occurs(s: seq<Token>, q: Pair) {
    exists i :: PairAt(s, i, q)
  }

  function If(b: bool, c: int): int {
    if b then c else 0
  }

  /** Occurrences of a pair, `c` for each. */
  function Occ(s: seq<Token>, c: nat, q: Pair): nat {
    if |s| < 2 then 0 else If((s[0], s[1]) == q, c) + Occ(s[1..], c, q)
  }

  /** The pair straddling a concatenation, if there is one. */
  predicate Joint(a: seq<Token>, b: seq<Token>, q: Pair) {
    a != [] && b != [] && (a[|a| - 1], b[0]) == q
  }

  lemma {:induction false} OccPlus(a: seq<Token>, b: seq<Token>, c: nat, q: Pair)
    ensures Occ(a + b, c, q) == Occ(a, c, q) + If(Joint(a, b, q), c) + Occ(b, c, q)
  {
    if a == [] {
      assert a + b == b;
    } else {
      OccPlus(a[1..], b, c, q);
      assert (a + b)[1..] == a[1..] + b;
      if |a| == 1 && b == [] {
        assert a + b == a;
      }
    }
  }

  lemma {:induction false} OccPositive(s: seq<Token>, c: nat, q: Pair)
    requires c > 0
    ensures Occ(s, c, q) > 0 <==> Occurs(s, q)
  {
    if |s| >= 2 {
      OccPositive(s[1..], c, q);
      if Occurs(s[1..], q) {
        var i :| PairAt(s[1..], i, q);
        assert PairAt(s, i + 1, q);
      }
      if Occurs(s, q) {
        var i :| PairAt(s, i, q);
        assert i == 0 || PairAt(s[1..], i - 1, q);
      }
      assert (s[0], s[1]) == q ==> PairAt(s, 0, q);
    }
  }

  // ---------------------------------------------------------------------------
  // Replacing a pair, leftmost first
  // ---------------------------------------------------------------------------

  function ReplaceAll(s: seq<Token>, p: Pair, x: Token): seq<Token> {
    if |s| < 2 then s
    else if (s[0], s[1]) == p then [x] + ReplaceAll(s[2..], p, x)
    else [s[0]] + ReplaceAll(s[1..], p, x)
  }

  lemma {:induction false} ReplaceNothing(s: seq<Token>, p: Pair, x: Token)
    requires !Occurs(s, p)
    ensures ReplaceAll(s, p, x) == s
  {
    if |s| >= 2 {
      assert !PairAt(s, 0, p);
      forall i ensures !PairAt(s[1..], i, p) {
        assert PairAt(s[1..], i, p) ==> PairAt(s, i + 1, p);
      }
      ReplaceNothing(s[1..], p, x);
    }
  }

  predicate Has(q: Pair, x: Token) {
    q.0 == x || q.1 == x
  }

  predicate UpTo(q: Pair, x: Token) {
    q.0 <= x && q.1 <= x
  }

  /** Replacing brings no pair but those with the new symbol, and leaves none of the pair replaced. */
  lemma {:induction false} ReplacePairs(s: seq<Token>, p: Pair, x: Token, q: Pair)
    requires Occurs(ReplaceAll(s, p, x), q) && !Has(p, x)
    ensures Has(q, x) || (Occurs(s, q) && q != p)
    decreases |s|
  {
    var r := ReplaceAll(s, p, x);
    var i :| PairAt(r, i, q);
    var rest := if PairAt(s, 0, p) then s[2..] else s[1..];
    assert r[1..] == ReplaceAll(rest, p, x);
    if i > 0 {
      assert PairAt(r[1..], i - 1, q);
      ReplacePairs(rest, p, x, q);
      if Occurs(rest, q) {
        var j :| PairAt(rest, j, q);
        assert PairAt(s, j + |s| - |rest|, q);
      }
    } else {
      assert !Has(q, x) ==> PairAt(s, 0, q);
    }
  }

  lemma {:induction false} ReplaceSymbols(s: seq<Token>, p: Pair, x: Token, bound: nat)
    requires x < bound && forall t :: t in s ==> t < bound
    ensures forall t :: t in ReplaceAll(s, p, x) ==> t < bound
    ensures s != [] ==> ReplaceAll(s, p, x) != []
    decreases |s|
  {
    if |s| >= 2 {
      var rest := if PairAt(s, 0, p) then s[2..] else s[1..];
      forall t | t in rest ensures t < bound {
        assert t in s;
      }
      ReplaceSymbols(rest, p, x, bound);
      var head := if PairAt(s, 0, p) then x else s[0];
      assert ReplaceAll(s, p, x) == [head] + ReplaceAll(rest, p, x) && (head == x || head in s);
    }
  }

  // ---------------------------------------------------------------------------
  // Updating one word
  // ---------------------------------------------------------------------------

  /** What a list of recorded changes adds to a pair's count. */
  function Sum(log: seq<Change>, q: Pair): int {
    if log == [] then 0 else Sum(log[..|log| - 1], q) + If(log[|log| - 1].pair == q, log[|log| - 1].delta)
  }

  lemma SumSnoc(log: seq<Change>, ch: Change, q: Pair)
    ensures Sum(log + [ch], q) == Sum(log, q) + If(ch.pair == q, ch.delta)
  {
    assert (log + [ch])[..|log|] == log;
  }

  ghost predicate Gained(log: seq<Change>, q: Pair) {
    exists k :: 0 <= k < |log| && log[k].pair == q && log[k].delta > 0
  }

  ghost predicate Touched(log: seq<Change>, q: Pair) {
    exists k :: 0 <= k < |log| && log[k].pair == q
  }

  /** The changes recorded for merging at `i`: the pairs lost with the neighbours, and those gained. */
  function MergeLog(s: seq<Token>, i: nat, p: Pair, x: Token, c: int): seq<Change>
    requires PairAt(s, i, p)
  {
    (if i >= 1 then [Change((s[i - 1], p.0), -c), Change((s[i - 1], x), c)] else [])
    + (if i + 2 < |s| then [Change((p.1, s[i + 2]), -c), Change((x, s[i + 2]), c)] else [])
  }

  /** Everything recorded by the in-place loop from position `i` on. */
  function LogFrom(s: seq<Token>, i: nat, p: Pair, x: Token, c: int): seq<Change>
    decreases |s| - i
  {
    if i + 1 >= |s| then []
    else if PairAt(s, i, p) then MergeLog(s, i, p, x, c) + LogFrom(MergeAt(s, i, x), i + 1, p, x, c)
    else LogFrom(s, i + 1, p, x, c)
  }

  function WordLog(w: Word, p: Pair, x: Token): seq<Change> {
    LogFrom(w.symbols, 0, p, x, w.count)
  }

  lemma LogFromStep(s: seq<Token>, i: nat, p: Pair, x: Token, c: int)
    requires i + 1 < |s|
    ensures LogFrom(s, i, p, x, c) ==
      if PairAt(s, i, p) then MergeLog(s, i, p, x, c) + LogFrom(MergeAt(s, i, x), i + 1, p, x, c) else LogFrom(s, i + 1, p, x, c)
  {
  }

  lemma LogFromEnd(s: seq<Token>, i: nat, p: Pair, x: Token, c: int)
    requires i + 1 >= |s|
    ensures LogFrom(s, i, p, x, c) == []
  {
  }

  lemma {:induction false} NothingLogged(s: seq<Token>, i: nat, p: Pair, x: Token, c: int)
    requires !Occurs(s, p)
    ensures LogFrom(s, i, p, x, c) == []
    decreases |s| - i
  {
    if i + 1 < |s| {
      NothingLogged(s, i + 1, p, x, c);
    }
  }

  lemma SumPlus(a: seq<Change>, b: seq<Change>, q: Pair)
    ensures Sum(a + b, q) == Sum(a, q) + Sum(b, q)
  {
    if b == [] {
      assert a + b == a;
    } else {
      assert (a + b)[..|a + b| - 1] == a + b[..|b| - 1];
      SumPlus(a, b[..|b| - 1], q);
    }
  }

  lemma SumTwo(a: Change, b: Change, q: Pair)
    ensures Sum([a, b], q) == If(a.pair == q, a.delta) + If(b.pair == q, b.delta)
  {
    assert [a, b] == [a] + [b] && [] + [a] == [a];
    SumSnoc([], a, q);
    SumSnoc([a], b, q);
  }

  lemma MergeLogSum(s: seq<Token>, i: nat, p: Pair, x: Token, c: int, q: Pair)
    requires PairAt(s, i, p)
    ensures Sum(MergeLog(s, i, p, x, c), q)
         == (if i >= 1 then If((s[i - 1], p.0) == q, -c) + If((s[i - 1], x) == q, c) else 0)
          + (if i + 2 < |s| then If((p.1, s[i + 2]) == q, -c) + If((x, s[i + 2]) == q, c) else 0)
  {
    var left := if i >= 1 then [Change((s[i - 1], p.0), -c), Change((s[i - 1], x), c)] else [];
    var right := if i + 2 < |s| then [Change((p.1, s[i + 2]), -c), Change((x, s[i + 2]), c)] else [];
    SumPlus(left, right, q);
    if i >= 1 { SumTwo(left[0], left[1], q); }
    if i + 2 < |s| { SumTwo(right[0], right[1], q); }
  }

  /** Occurrences around a run of symbols in the middle. */
  lemma OccAround(a: seq<Token>, mid: seq<Token>, b: seq<Token>, c: nat, q: Pair)
    requires mid != []
    ensures Occ(a + (mid + b), c, q) == Occ(a, c, q) + (if a != [] then If((a[|a| - 1], mid[0]) == q, c) else 0) + Occ(mid, c, q)
         + (if b != [] then If((mid[|mid| - 1], b[0]) == q, c) else 0) + Occ(b, c, q)
  {
    hide Occ;
    OccPlus(a, mid + b, c, q);
    OccPlus(mid, b, c, q);
  }

  /** One merge changes the occurrences by what is recorded, and removes one of the merged pair itself. */
  lemma OccMergeAt(s: seq<Token>, i: nat, p: Pair, x: Token, c: nat, q: Pair)
    requires PairAt(s, i, p)
    ensures Occ(MergeAt(s, i, x), c, q) == Occ(s, c, q) + Sum(MergeLog(s, i, p, x, c), q) - If(p == q, c)
  {
    hide Occ, Sum, MergeLog, If;
    var a, b := s[..i], s[i + 2..];
    MergeLogSum(s, i, p, x, c, q);
    MiddleOf(s, i, p, x);
    OccAround(a, [p.0, p.1], b, c, q);
    OccAround(a, [x], b, c, q);
    OccTwo(p, c, q);
    IfNegated(c);
  }

  lemma IfNegated(c: int)
    ensures forall b :: If(b, -c) == -If(b, c)
  {
  }

  lemma MiddleOf(s: seq<Token>, i: nat, p: Pair, x: Token)
    requires PairAt(s, i, p)
    ensures s == s[..i] + ([p.0, p.1] + s[i + 2..]) && MergeAt(s, i, x) == s[..i] + ([x] + s[i + 2..])
  {
  }

  lemma OccTwo(p: Pair, c: nat, q: Pair)
    ensures Occ([p.0, p.1], c, q) == If(p == q, c)
    ensures forall x :: Occ([x], c, q) == 0
  {
    assert [p.0, p.1][1..] == [p.1];
  }

  /** How far the in-place loop has got: the part before `i` is final. */
  ghost predicate Updating(w: Word, p: Pair, x: Token, cur: seq<Token>, i: nat) {
    && i <= |cur| && cur != []
    && cur[..i] + ReplaceAll(cur[i..], p, x) == ReplaceAll(w.symbols, p, x)
  }

  /** The recorded changes are the changes of the occurrences, the merged pair's own apart. */
  ghost predicate Recorded(w: Word, p: Pair, x: Token, cur: seq<Token>, log: seq<Change>) {
    && (forall q :: q != p ==> Occ(cur, w.count, q) == Occ(w.symbols, w.count, q) + Sum(log, q))
    && Sum(log, p) <= 0
    && (w.count > 0 ==> forall q :: Occurs(cur, q) || Touched(log, q) ==> Occurs(w.symbols, q) || Gained(log, q))
    && (forall q :: Gained(log, q) ==> Has(q, x) && UpTo(q, x))
    && (forall t :: t in cur ==> t <= x)
  }

  lemma UpdateStart(w: Word, p: Pair, x: Token)
    requires w.symbols != [] && forall t :: t in w.symbols ==> t < x
    ensures Updating(w, p, x, w.symbols, 0) && Recorded(w, p, x, w.symbols, [])
  {
    assert w.symbols[0..] == w.symbols && w.symbols[..0] == [];
  }

  lemma UpdateSkip(w: Word, p: Pair, x: Token, cur: seq<Token>, i: nat)
    requires Updating(w, p, x, cur, i) && i + 1 < |cur| && !PairAt(cur, i, p)
    ensures Updating(w, p, x, cur, i + 1)
  {
    var rest := cur[i..];
    assert ReplaceAll(rest, p, x) == [cur[i]] + ReplaceAll(cur[i + 1..], p, x);
    Regroup(cur[..i], cur[i], ReplaceAll(cur[i + 1..], p, x));
    assert cur[..i + 1] == cur[..i] + [cur[i]];
  }

  lemma UpdateMerge(w: Word, p: Pair, x: Token, cur: seq<Token>, i: nat)
    requires Updating(w, p, x, cur, i) && PairAt(cur, i, p)
    ensures Updating(w, p, x, MergeAt(cur, i, x), i + 1)
  {
    var rest, next := cur[i..], MergeAt(cur, i, x);
    assert rest[2..] == cur[i + 2..];
    assert ReplaceAll(rest, p, x) == [x] + ReplaceAll(cur[i + 2..], p, x);
    Regroup(cur[..i], x, ReplaceAll(cur[i + 2..], p, x));
    assert next[i + 1..] == cur[i + 2..] && next[..i + 1] == cur[..i] + [x];
  }

  lemma Regroup(a: seq<Token>, t: Token, b: seq<Token>)
    ensures a + ([t] + b) == (a + [t]) + b
  {
  }

  lemma UpdateDone(w: Word, p: Pair, x: Token, cur: seq<Token>, i: nat)
    requires Updating(w, p, x, cur, i) && i + 1 >= |cur|
    ensures cur == ReplaceAll(w.symbols, p, x)
  {
    assert cur[..i] + cur[i..] == cur;
  }

  /** Pairs of a merged word were there before, or are recorded as gained. */
  lemma MergedPairs(s: seq<Token>, i: nat, p: Pair, x: Token, c: nat, q: Pair)
    requires PairAt(s, i, p) && c > 0 && Occurs(MergeAt(s, i, x), q)
    ensures Occurs(s, q) || Gained(MergeLog(s, i, p, x, c), q)
  {
    var r, log := MergeAt(s, i, x), MergeLog(s, i, p, x, c);
    var k :| PairAt(r, k, q);
    if k < i - 1 {
      assert PairAt(s, k, q);
    } else if k > i {
      assert PairAt(s, k + 1, q);
    } else if k == i - 1 {
      assert log[1] == Change(q, c);
    } else {
      assert log[|log| - 1] == Change(q, c);
    }
  }

  lemma LoggedPairs(s: seq<Token>, i: nat, p: Pair, x: Token, c: nat, q: Pair)
    requires PairAt(s, i, p) && forall t :: t in s ==> t <= x
    ensures c > 0 && Touched(MergeLog(s, i, p, x, c), q) ==> Occurs(s, q) || Gained(MergeLog(s, i, p, x, c), q)
    ensures Gained(MergeLog(s, i, p, x, c), q) ==> Has(q, x) && UpTo(q, x)
  {
    var log := MergeLog(s, i, p, x, c);
    assert forall k :: 0 <= k < |s| ==> s[k] in s;
    assert i >= 1 ==> PairAt(s, i - 1, log[0].pair);
    assert i + 2 < |s| ==> PairAt(s, i + 1, log[|log| - 2].pair);
  }

  lemma GainedPlus(a: seq<Change>, b: seq<Change>, q: Pair)
    ensures Gained(a + b, q) <==> Gained(a, q) || Gained(b, q)
    ensures Touched(a + b, q) <==> Touched(a, q) || Touched(b, q)
  {
    var t := a + b;
    assert forall k :: 0 <= k < |a| ==> t[k] == a[k];
    assert forall k :: 0 <= k < |b| ==> t[|a| + k] == b[k];
    assert forall k :: |a| <= k < |t| ==> t[k] == b[k - |a|];
  }

  lemma RecordMerge(w: Word, p: Pair, x: Token, cur: seq<Token>, log: seq<Change>, i: nat)
    requires Recorded(w, p, x, cur, log) && PairAt(cur, i, p) && !Has(p, x)
    ensures Recorded(w, p, x, MergeAt(cur, i, x), log + MergeLog(cur, i, p, x, w.count))
  {
    hide Occ, Sum, MergeLog, Occurs, Gained, Touched, MergeAt;
    var more := MergeLog(cur, i, p, x, w.count);
    forall q ensures Sum(log + more, q) == Sum(log, q) + Sum(more, q) { SumPlus(log, more, q); }
    forall q ensures Occ(MergeAt(cur, i, x), w.count, q) == Occ(cur, w.count, q) + Sum(more, q) - If(p == q, w.count) {
      OccMergeAt(cur, i, p, x, w.count, q);
    }
    OwnLog(cur, i, p, x, w.count);
    MergedSymbols(cur, i, x);
    forall q ensures Gained(log + more, q) <==> Gained(log, q) || Gained(more, q) { GainedPlus(log, more, q); }
    forall q ensures Touched(log + more, q) <==> Touched(log, q) || Touched(more, q) { GainedPlus(log, more, q); }
    forall q ensures w.count > 0 && Touched(more, q) ==> Occurs(cur, q) || Gained(more, q) { LoggedPairs(cur, i, p, x, w.count, q); }
    forall q ensures Gained(more, q) ==> Has(q, x) && UpTo(q, x) { LoggedPairs(cur, i, p, x, w.count, q); }
    forall q | w.count > 0 && Occurs(MergeAt(cur, i, x), q) ensures Occurs(cur, q) || Gained(more, q) { MergedPairs(cur, i, p, x, w.count, q); }
  }

  lemma MergedSymbols(s: seq<Token>, i: nat, x: Token)
    requires i + 1 < |s| && forall t :: t in s ==> t <= x
    ensures forall t :: t in MergeAt(s, i, x) ==> t <= x
  {
    forall t | t in MergeAt(s, i, x) ensures t <= x {
      var k :| 0 <= k < |s| - 1 && MergeAt(s, i, x)[k] == t;
      if k < i {
        assert t == s[k] && s[k] in s;
      } else if k > i {
        assert t == s[k + 1] && s[k + 1] in s;
      }
    }
  }

  lemma OwnLog(s: seq<Token>, i: nat, p: Pair, x: Token, c: nat)
    requires PairAt(s, i, p) && !Has(p, x)
    ensures Sum(MergeLog(s, i, p, x, c), p) <= 0
  {
    hide MergeLog, Sum;
    MergeLogSum(s, i, p, x, c, p);
  }

  /** `update_word`: replace the pair in place, recording every change of a neighbouring pair's count. */
  method UpdateWord(w: Word, p: Pair, x: Token) returns (w': Word, log: seq<Change>)
    requires w.symbols != [] && !Has(p, x) && forall t :: t in w.symbols ==> t < x
    ensures w' == Word(ReplaceAll(w.symbols, p, x), w.count)
    ensures Recorded(w, p, x, w'.symbols, log) && log == WordLog(w, p, x)
  {
    hide Updating, Recorded, ReplaceAll, MergeAt, MergeLog, LogFrom;
    var symbols, i: nat, c: int := w.symbols, 0, w.count;
    log := [];
    UpdateStart(w, p, x);
    while i < |symbols| - 1
      invariant Updating(w, p, x, symbols, i) && symbols != [] && Recorded(w, p, x, symbols, log)
      invariant log + LogFrom(symbols, i, p, x, c) == LogFrom(w.symbols, 0, p, x, c)
      decreases |symbols| - i
    {
      LogFromStep(symbols, i, p, x, c);
      if symbols[i] == p.0 && symbols[i + 1] == p.1 {
        var at := symbols;
        ghost var before := log;
        if i >= 1 {
          log := log + [Change((at[i - 1], p.0), -c), Change((at[i - 1], x), c)];
        }
        if |at| >= 3 && i <= |at| - 3 {
          log := log + [Change((p.1, at[i + 2]), -c), Change((x, at[i + 2]), c)];
        }
        LogShape(before, at, i, p, x, w.count, log);
        UpdateMerge(w, p, x, at, i);
        RecordMerge(w, p, x, at, before, i);
        symbols := MergeAt(at, i, x);
      } else {
        UpdateSkip(w, p, x, symbols, i);
      }
      i := i + 1;
    }
    UpdateDone(w, p, x, symbols, i);
    LogFromEnd(symbols, i, p, x, c);
    w' := Word(symbols, w.count);
  }

  /** A word counted zero times would queue a pair that it does not list: training needs positive counts. */
  lemma ZeroCountListsNothing(s: seq<Token>, i: nat, p: Pair, x: Token)
    requires PairAt(s, i, p) && i + 2 < |s|
    ensures Occurs(MergeAt(s, i, x), (x, s[i + 2])) && Touched(MergeLog(s, i, p, x, 0), (x, s[i + 2]))
    ensures forall q :: !Gained(MergeLog(s, i, p, x, 0), q)
  {
    var log := MergeLog(s, i, p, x, 0);
    assert log[|log| - 1] == Change((x, s[i + 2]), 0);
    assert PairAt(MergeAt(s, i, x), i, (x, s[i + 2]));
  }

  lemma LogShape(before: seq<Change>, at: seq<Token>, i: nat, p: Pair, x: Token, c: int, log: seq<Change>)
    requires PairAt(at, i, p)
    requires
      var left := if i >= 1 then before + [Change((at[i - 1], p.0), -c), Change((at[i - 1], x), c)] else before;
      log == if i + 2 < |at| then left + [Change((p.1, at[i + 2]), -c), Change((x, at[i + 2]), c)] else left
    ensures log == before + MergeLog(at, i, p, x, c)
  {
  }
}
