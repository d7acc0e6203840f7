/** The merges of short sequences: what the table says of the pair at each position, a linear scan for
    the least rank, and two refreshed positions a merge. The original keeps a rank array and, where the
    merged token is not the rank, a token array beside it; `pairs` is both. */
module MergeScan {
  import opened MergeSpec
  import opened MergeList

  const SMALL_MERGE_MAX: nat := 32
  const SHORT_MERGE_MAX: nat := 16

  /** Ranks are u32 values other than the no-merge sentinel. */
  ghost predicate RanksFit(rules: Rules) {
    forall a, b :: rules(a, b).Rule? ==> rules(a, b).rank < NO_RANK
  }

  function RankOf(rule: Rule): nat {
    if rule.Rule? then rule.rank else NO_RANK
  }

  /** Every survivor holds the rank of the pair it starts; every other position holds the sentinel. */
  ghost predicate Ranked(rules: Rules, symbols: seq<Token>, live: seq<nat>, pairs: seq<Rule>, n: nat)
    requires Within(live, |symbols|)
  {
    && n <= |pairs|
    && (forall k :: 0 <= k < |live| - 1 ==> live[k] < n && pairs[live[k]] == rules(symbols[live[k]], symbols[live[k + 1]]))
    && (forall p: nat :: p < n && pairs[p].Rule? ==> StartsPair(live, p))
  }

  ghost predicate StartsPair(live: seq<nat>, p: nat) {
    exists k: nat :: k + 1 < |live| && live[k] == p
  }

  /** `i` holds the least rank below `m`, at its first occurrence. */
  ghost predicate IsFirstLeast(pairs: seq<Rule>, m: nat, i: nat) {
    && m <= |pairs| && i < m && pairs[i].Rule?
    && forall p :: 0 <= p < m && p != i && pairs[p].Rule? ==>
         pairs[i].rank < pairs[p].rank || (pairs[i].rank == pairs[p].rank && i < p)
  }

  /** The first least rank is the least pair. */
  lemma FirstLeastIsLeast(rules: Rules, symbols: seq<Token>, live: seq<nat>, pairs: seq<Rule>, n: nat, m: nat, i: nat) returns (k: nat)
    requires Increasing(live, n) && n <= |symbols|
    requires RanksFit(rules) && Ranked(rules, symbols, live, pairs, n)
    requires n - 1 <= m <= n && IsFirstLeast(pairs, m, i)
    ensures k + 1 < |live| && live[k] == i && IsLeast(rules, Survivors(symbols, live), k)
  {
    k :| k + 1 < |live| && live[k] == i;
    var s := Survivors(symbols, live);
    forall j | MergesAt(rules, s, j) && j != k
      ensures Before(rules, s, k, j)
    {
      assert if j < k then live[j] < live[k] else live[k] < live[j];
      assert live[j] < live[j + 1] < n;
      assert pairs[live[j]] == rules(symbols[live[j]], symbols[live[j + 1]]);
    }
  }

  /** When every rank is the sentinel nothing merges. */
  lemma NoRankIsStuck(rules: Rules, symbols: seq<Token>, live: seq<nat>, pairs: seq<Rule>, n: nat, m: nat)
    requires Increasing(live, n) && n <= |symbols|
    requires RanksFit(rules) && Ranked(rules, symbols, live, pairs, n)
    requires n - 1 <= m && forall p :: 0 <= p < m && p < n ==> pairs[p] == NoRule
    ensures MergeAll(rules, Survivors(symbols, live)) == Survivors(symbols, live)
  {
    var s := Survivors(symbols, live);
    forall j ensures !MergesAt(rules, s, j) {
      if 0 <= j < |s| - 1 {
        assert live[j] < live[j + 1] < n;
        assert pairs[live[j]] == rules(symbols[live[j]], symbols[live[j + 1]]);
      }
    }
    assert Stuck(rules, s);
  }

  /** Clearing the dead position and refreshing the two touching pairs keeps every rank right. */
  lemma RankedStep(rules: Rules, symbols: seq<Token>, live: seq<nat>, pairs: seq<Rule>, n: nat, k: nat, t: Token, pairs': seq<Rule>)
    requires Increasing(live, n) && n <= |symbols| && k + 1 < |live|
    requires Ranked(rules, symbols, live, pairs, n) && |pairs'| == |pairs|
    requires var after := symbols[live[k] := t];
      && pairs'[live[k]] == (if k + 2 < |live| then rules(after[live[k]], after[live[k + 2]]) else NoRule)
      && (k > 0 ==> pairs'[live[k - 1]] == rules(after[live[k - 1]], after[live[k]]))
    requires pairs'[live[k + 1]] == NoRule
    requires forall p :: 0 <= p < n && p != live[k] && p != live[k + 1] && (k > 0 ==> p != live[k - 1]) ==> pairs'[p] == pairs[p]
    ensures Within(Drop(live, k + 1), n)
    ensures Ranked(rules, symbols[live[k] := t], Drop(live, k + 1), pairs', n)
  {
    IncreasingDrop(live, n, k + 1);
    var live' := Drop(live, k + 1);
    forall j | 0 <= j < |live'| - 1
      ensures pairs'[live'[j]] == rules(symbols[live[k] := t][live'[j]], symbols[live[k] := t][live'[j + 1]])
    {
      RankedStepAt(rules, symbols, live, pairs, n, k, t, pairs', j);
    }
    forall p: nat | p < n && pairs'[p].Rule?
      ensures StartsPair(live', p)
    {
      RankedStepDead(rules, symbols, live, pairs, n, k, pairs', p);
    }
  }

  lemma RankedStepAt(rules: Rules, symbols: seq<Token>, live: seq<nat>, pairs: seq<Rule>, n: nat, k: nat, t: Token, pairs': seq<Rule>, j: nat)
    requires Increasing(live, n) && n <= |symbols| && k + 1 < |live| && j + 2 < |live|
    requires Ranked(rules, symbols, live, pairs, n) && |pairs'| == |pairs|
    requires var after := symbols[live[k] := t];
      && pairs'[live[k]] == (if k + 2 < |live| then rules(after[live[k]], after[live[k + 2]]) else NoRule)
      && (k > 0 ==> pairs'[live[k - 1]] == rules(after[live[k - 1]], after[live[k]]))
    requires forall p :: 0 <= p < n && p != live[k] && p != live[k + 1] && (k > 0 ==> p != live[k - 1]) ==> pairs'[p] == pairs[p]
    ensures var live', after := Drop(live, k + 1), symbols[live[k] := t];
      pairs'[live'[j]] == rules(after[live'[j]], after[live'[j + 1]])
  {
    if j + 1 < k {
      assert live[j] < live[j + 1] < live[k] < live[k + 1];
      assert live[j + 1] <= live[k - 1];
      assert pairs'[live[j]] == pairs[live[j]];
    } else if j > k {
      assert live[k] < live[k + 1] < live[j + 1] < live[j + 2];
      assert k > 0 ==> live[k - 1] < live[k];
      assert pairs'[live[j + 1]] == pairs[live[j + 1]];
    }
  }

  lemma RankedStepDead(rules: Rules, symbols: seq<Token>, live: seq<nat>, pairs: seq<Rule>, n: nat, k: nat, pairs': seq<Rule>, p: nat)
    requires Increasing(live, n) && n <= |symbols| && k + 1 < |live|
    requires Ranked(rules, symbols, live, pairs, n) && |pairs'| == |pairs|
    requires k + 2 == |live| ==> pairs'[live[k]] == NoRule
    requires pairs'[live[k + 1]] == NoRule
    requires forall p :: 0 <= p < n && p != live[k] && p != live[k + 1] && (k > 0 ==> p != live[k - 1]) ==> pairs'[p] == pairs[p]
    requires p < n && pairs'[p].Rule?
    ensures StartsPair(Drop(live, k + 1), p)
  {
    var live' := Drop(live, k + 1);
    if p == live[k] {
      assert live'[k] == p;
    } else if k > 0 && p == live[k - 1] {
      assert live'[k - 1] == p;
    } else {
      var j: nat :| j + 1 < |live| && live[j] == p;
      assert live'[if j < k + 1 then j else j - 1] == p;
    }
  }

  // ---------------------------------------------------------------------------
  // The scan loop
  // ---------------------------------------------------------------------------

  ghost predicate Scanned(rules: Rules, symbols: seq<Token>, live: seq<nat>, next: seq<nat>, prev: seq<nat>, pairs: seq<Rule>, n: nat) {
    n <= |symbols| && Linked(next, prev, live, n) && Ranked(rules, symbols, live, pairs, n)
  }

  /** Position `i` starts a pair: its links are those of a survivor with a right neighbour. */
  lemma ScannedLinks(rules: Rules, symbols: seq<Token>, live: seq<nat>, next: seq<nat>, prev: seq<nat>, pairs: seq<Rule>, n: nat, k: nat)
    requires Scanned(rules, symbols, live, next, prev, pairs, n) && k + 1 < |live|
    ensures n <= |symbols| && n <= |next| && n <= |prev| && n <= |pairs| && Increasing(live, n) && Within(live, |symbols|)
    ensures live[k] < live[k + 1] == next[live[k]] < n
    ensures if k + 2 < |live| then live[k + 1] < live[k + 2] == next[live[k + 1]] < n else next[live[k + 1]] >= n
    ensures if k > 0 then live[k] > live[k - 1] == prev[live[k]] else prev[live[k]] >= n
  {
  }

  /** What one merge writes keeps the list and the pairs. */
  lemma ScanStep(rules: Rules, symbols: seq<Token>, live: seq<nat>, next: seq<nat>, prev: seq<nat>, pairs: seq<Rule>, n: nat,
                 k: nat, t: Token, next': seq<nat>, prev': seq<nat>, pairs': seq<Rule>)
    requires Scanned(rules, symbols, live, next, prev, pairs, n) && k + 1 < |live|
    requires |next'| == |next| && |prev'| == |prev| && |pairs'| == |pairs|
    requires var i, dead := live[k], live[k + 1];
      var after, newRight, left := symbols[i := t], next[dead], prev[i];
      && next' == next[i := newRight]
      && prev' == (if newRight < n then prev[newRight := i] else prev)
      && pairs'[dead] == NoRule
      && pairs'[i] == (if newRight < n then rules(after[i], after[newRight]) else NoRule)
      && (left < n ==> pairs'[left] == rules(after[left], after[i]))
      && (forall p :: 0 <= p < n && p != i && p != dead && p != left ==> pairs'[p] == pairs[p])
    ensures Within(Drop(live, k + 1), |symbols|)
    ensures Scanned(rules, symbols[live[k] := t], Drop(live, k + 1), next', prev', pairs', n)
    ensures Survivors(symbols[live[k] := t], Drop(live, k + 1)) == MergeAt(Survivors(symbols, live), k, t)
  {
    ScannedLinks(rules, symbols, live, next, prev, pairs, n, k);
    Unlink(next, prev, live, n, k, next', prev');
    SurvivorsMerge(symbols, live, k, t);
    ScanStepRanks(rules, symbols, live, next, prev, pairs, n, k, t, pairs');
  }

  lemma ScanStepRanks(rules: Rules, symbols: seq<Token>, live: seq<nat>, next: seq<nat>, prev: seq<nat>, pairs: seq<Rule>, n: nat,
                      k: nat, t: Token, pairs': seq<Rule>)
    requires Scanned(rules, symbols, live, next, prev, pairs, n) && k + 1 < |live|
    requires |pairs'| == |pairs|
    requires var i, dead := live[k], live[k + 1];
      var after, newRight, left := symbols[i := t], next[dead], prev[i];
      && pairs'[dead] == NoRule
      && pairs'[i] == (if newRight < n then rules(after[i], after[newRight]) else NoRule)
      && (left < n ==> pairs'[left] == rules(after[left], after[i]))
      && (forall p :: 0 <= p < n && p != i && p != dead && p != left ==> pairs'[p] == pairs[p])
    ensures Within(Drop(live, k + 1), |symbols|)
    ensures Ranked(rules, symbols[live[k] := t], Drop(live, k + 1), pairs', n)
  {
    ScannedLinks(rules, symbols, live, next, prev, pairs, n, k);
    hide Scanned, Linked;
    RankedStep(rules, symbols, live, pairs, n, k, t, pairs');
  }

  method InitialList(n: nat, capacity: nat) returns (next: array<nat>, prev: array<nat>)
    requires 0 < n <= capacity < 0x100
    ensures fresh(next) && fresh(prev) && next != prev && next.Length == prev.Length == capacity
    ensures Linked(next[..], prev[..], AllPositions(n), n)
  {
    next := new nat[capacity](i => if i < n then i + 1 else 0);
    prev := new nat[capacity](i => if i == 0 then 0xFF else if i < n then i - 1 else 0);
  }

  method InitialPairs(rules: Rules, symbols: array<Token>, n: nat, capacity: nat) returns (pairs: array<Rule>)
    requires 2 <= n <= capacity && n <= symbols.Length
    ensures fresh(pairs) && pairs.Length == capacity && Ranked(rules, symbols[..], AllPositions(n), pairs[..], n)
  {
    pairs := new Rule[capacity](i => NoRule);
    for i := 0 to n - 1
      invariant forall k :: 0 <= k < i ==> pairs[k] == rules(symbols[k], symbols[k + 1])
      invariant forall k :: i <= k < capacity ==> pairs[k] == NoRule
    {
      pairs[i] := rules(symbols[i], symbols[i + 1]);
    }
    forall p: nat | p < n && pairs[p].Rule? ensures StartsPair(AllPositions(n), p) {
      assert AllPositions(n)[p] == p;
    }
  }

  /** The position of the least rank below `m`, the first one on ties; NO_RANK when there is none. */
  method FindBest(pairs: array<Rule>, m: nat) returns (best: nat, bestI: nat)
    requires m <= pairs.Length && forall p :: 0 <= p < m && pairs[p].Rule? ==> pairs[p].rank < NO_RANK
    ensures best == NO_RANK ==> forall p :: 0 <= p < m ==> pairs[p] == NoRule
    ensures best != NO_RANK ==> IsFirstLeast(pairs[..], m, bestI) && pairs[bestI].rank == best
  {
    best, bestI := NO_RANK, 0;
    for i := 0 to m
      invariant best <= NO_RANK
      invariant forall p :: 0 <= p < i ==> best <= RankOf(pairs[p])
      invariant best < NO_RANK ==> bestI < i && RankOf(pairs[bestI]) == best
      invariant best < NO_RANK ==> forall p :: 0 <= p < bestI ==> best < RankOf(pairs[p])
    {
      if RankOf(pairs[i]) < best {
        best, bestI := RankOf(pairs[i]), i;
      }
    }
  }

  /** Merge the pair at position `i` in place: unlink its right element, refresh the two touching pairs. */
  method MergeBest(rules: Rules, symbols: array<Token>, n: nat, ghost live: seq<nat>, next: array<nat>, prev: array<nat>,
                   pairs: array<Rule>, i: nat, ghost k: nat)
    requires symbols != next && symbols != prev && next != prev
    requires Scanned(rules, symbols[..], live, next[..], prev[..], pairs[..], n) && k + 1 < |live| && live[k] == i
    requires n <= symbols.Length && Within(live, symbols.Length) && i < pairs.Length && pairs[i].Rule?
    modifies symbols, next, prev, pairs
    ensures symbols[..] == old(symbols[..])[i := old(pairs[i]).token]
    ensures Within(Drop(live, k + 1), symbols.Length)
    ensures Scanned(rules, symbols[..], Drop(live, k + 1), next[..], prev[..], pairs[..], n)
    ensures Survivors(symbols[..], Drop(live, k + 1)) == MergeAt(old(Survivors(symbols[..], live)), k, old(pairs[i]).token)
  {
    hide *;
    ghost var next0: seq<nat>, prev0: seq<nat>, pairs0 := next[..], prev[..], pairs[..];
    ScannedLinks(rules, symbols[..], live, next0, prev0, pairs0, n, k);
    symbols[i] := pairs[i].token;
    var dead := next[i];
    var newRight := next[dead];
    next[i] := newRight;
    pairs[dead] := NoRule;
    if newRight < n {
      prev[newRight] := i;
      pairs[i] := rules(symbols[i], symbols[newRight]);
    } else {
      pairs[i] := NoRule;
    }
    var left := prev[i];
    if left < n {
      pairs[left] := rules(symbols[left], symbols[i]);
    }
    ScanStep(rules, old(symbols[..]), live, next0, prev0, pairs0, n, k, pairs0[i].token, next[..], prev[..], pairs[..]);
  }

  lemma ScannedRanksFit(rules: Rules, symbols: seq<Token>, live: seq<nat>, next: seq<nat>, prev: seq<nat>, pairs: seq<Rule>, n: nat, p: nat)
    requires Scanned(rules, symbols, live, next, prev, pairs, n) && p < n && RanksFit(rules)
    ensures |pairs| >= n && (pairs[p].Rule? ==> pairs[p].rank < NO_RANK)
  {
    if pairs[p].Rule? {
      var k: nat :| k + 1 < |live| && live[k] == p;
      assert pairs[p] == rules(symbols[live[k]], symbols[live[k + 1]]);
    }
  }

  /** The linear-scan merge of `symbols[..n]`, in place; the result is `symbols[..len]`. */
  method MergeScanned(rules: Rules, symbols: array<Token>, n: nat, capacity: nat) returns (len: nat)
    requires RanksFit(rules)
    requires 2 <= n <= symbols.Length && n <= capacity <= SMALL_MERGE_MAX
    modifies symbols
    ensures len <= n
    ensures symbols[..len] == MergeAll(rules, old(symbols[..n]))
  {
    var next, prev := InitialList(n, capacity);
    var pairs := InitialPairs(rules, symbols, n, capacity);
    ghost var live := AllPositions(n);
    ghost var input := symbols[..n];
    assert Survivors(symbols[..], live) == input;
    while true
      invariant Scanned(rules, symbols[..], live, next[..], prev[..], pairs[..], n)
      invariant Within(live, symbols.Length) && |live| <= n
      invariant MergeAll(rules, Survivors(symbols[..], live)) == MergeAll(rules, input)
      decreases |live|
    {
      hide *;
      forall p: nat | p < n { ScannedRanksFit(rules, symbols[..], live, next[..], prev[..], pairs[..], n, p); }
      var best, i := FindBest(pairs, n - 1);
      if best == NO_RANK {
        ScannedDone(rules, symbols[..], live, next[..], prev[..], pairs[..], n);
        break;
      }
      ghost var k := ScannedBest(rules, symbols[..], live, next[..], prev[..], pairs[..], n, n - 1, i);
      MergeAllStep(rules, Survivors(symbols[..], live), k);
      MergeBest(rules, symbols, n, live, next, prev, pairs, i, k);
      live := Drop(live, k + 1);
    }
    len := Compact(symbols, next, prev[..], live, n);
  }

  lemma ScannedBest(rules: Rules, symbols: seq<Token>, live: seq<nat>, next: seq<nat>, prev: seq<nat>, pairs: seq<Rule>, n: nat, m: nat, i: nat)
    returns (k: nat)
    requires RanksFit(rules) && Scanned(rules, symbols, live, next, prev, pairs, n) && Within(live, |symbols|)
    requires n - 1 <= m <= n && IsFirstLeast(pairs, m, i)
    ensures k + 1 < |live| && live[k] == i && i < |pairs| && IsLeast(rules, Survivors(symbols, live), k)
    ensures MergesAt(rules, Survivors(symbols, live), k) && pairs[i] == RuleAt(rules, Survivors(symbols, live), k)
  {
    k := FirstLeastIsLeast(rules, symbols, live, pairs, n, m, i);
  }

  lemma ScannedDone(rules: Rules, symbols: seq<Token>, live: seq<nat>, next: seq<nat>, prev: seq<nat>, pairs: seq<Rule>, n: nat)
    requires RanksFit(rules) && Scanned(rules, symbols, live, next, prev, pairs, n) && Within(live, |symbols|)
    requires 0 < n && forall p :: 0 <= p < n - 1 && p < |pairs| ==> pairs[p] == NoRule
    ensures MergeAll(rules, Survivors(symbols, live)) == Survivors(symbols, live)
    ensures Linked(next, prev, live, n)
  {
    NoRankIsStuck(rules, symbols, live, pairs, n, n - 1);
  }
}
