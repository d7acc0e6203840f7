/** The lazy-deletion merge: a min-heap holding every live pair and some stale ones, over a linked list. */
module MergeHeap {
  import opened Common
  import opened MergeSpec
  import opened MergeList

  /** The link to no neighbour where positions are u32; below, `none` is that, or usize::MAX, or any other number
      no position reaches. */
  const NONE: nat := 0xFFFF_FFFF

  /** `(rank << 32) | position`; for pairs of usize, the number that stands for the pair in the heap's order. */
  function Pack(none: nat, rank: nat, pos: nat): nat {
    rank * (none + 1) + pos
  }

  function EntryRank(none: nat, e: nat): nat { e / (none + 1) }

  function EntryPos(none: nat, e: nat): nat { e % (none + 1) }

  lemma TimesStep(a: nat, b: nat, d: nat)
    ensures a < b ==> a * d + d <= b * d
  {
    TimesGrows(a + 1, b, d);
    assert (a + 1) * d == a * d + d;
  }

  lemma PackFields(none: nat, r: nat, p: nat)
    requires p <= none
    ensures EntryRank(none, Pack(none, r, p)) == r && EntryPos(none, Pack(none, r, p)) == p
  {
    var e, d := Pack(none, r, p), none + 1;
    var q := e / d;
    assert e == q * d + e % d;
    TimesStep(q, r, d);
    TimesStep(r, q, d);
  }

  /** The integer order on packed entries is the lexicographic order on (rank, position). */
  lemma PackOrder(none: nat, r: nat, p: nat, r': nat, p': nat)
    requires p <= none && p' <= none
    ensures EntryRank(none, Pack(none, r, p)) == r && EntryPos(none, Pack(none, r, p)) == p
    ensures Pack(none, r, p) <= Pack(none, r', p') <==> r < r' || (r == r' && p <= p')
  {
    PackFields(none, r, p);
    hide EntryRank, EntryPos;
    TimesStep(r, r', none + 1);
    TimesStep(r', r, none + 1);
  }

  method PopLeast(heap: multiset<nat>) returns (least: nat, rest: multiset<nat>)
    requires heap != multiset{}
    ensures least in heap && forall e :: e in heap ==> least <= e
    ensures rest == heap - multiset{least}
  {
    least :| least in heap;
    var scan := heap - multiset{least};
    while scan != multiset{}
      invariant least in heap && scan <= heap
      invariant forall e :: e in heap ==> e in scan || least <= e
      decreases |scan|
    {
      var e :| e in scan;
      if e < least {
        least := e;
      }
      scan := scan[e := 0];
    }
    rest := heap - multiset{least};
  }

  // ---------------------------------------------------------------------------
  // The heap invariant
  // ---------------------------------------------------------------------------

  /** Every mergeable pair of survivors has its entry on the heap. */
  ghost predicate Covers(none: nat, rules: Rules, s: seq<Token>, live: seq<nat>, heap: multiset<nat>)
    requires |s| == |live|
  {
    forall k: nat :: MergesAt(rules, s, k) ==> Pack(none, RuleAt(rules, s, k).rank, live[k]) in heap
  }

  /** A position with a right neighbour has survived. */
  ghost predicate DeadUnlinked(none: nat, next: seq<nat>, live: seq<nat>, n: nat)
    requires n <= |next|
  {
    forall p: nat :: p < n && next[p] != none ==> p in live
  }

  ghost predicate EntriesBelow(none: nat, heap: multiset<nat>, n: nat) {
    forall e :: e in heap ==> EntryPos(none, e) < n
  }

  lemma EntriesBelowLess(none: nat, heap: multiset<nat>, e: nat, n: nat)
    requires EntriesBelow(none, heap, n)
    ensures EntriesBelow(none, heap - multiset{e}, n)
  {
  }

  /** Entry `e` was pushed for the pair at survivor `k`, as that pair is now. */
  ghost predicate Describes(none: nat, rules: Rules, s: seq<Token>, live: seq<nat>, e: nat, k: nat)
    requires |s| == |live|
  {
    MergesAt(rules, s, k) && EntryPos(none, e) == live[k] && EntryRank(none, e) == RuleAt(rules, s, k).rank
  }

  ghost predicate Stale(none: nat, rules: Rules, s: seq<Token>, live: seq<nat>, e: nat)
    requires |s| == |live|
  {
    forall k: nat :: !Describes(none, rules, s, live, e, k)
  }

  /** A popped entry that still describes a live pair is the least pair of all. */
  lemma PoppedIsLeast(none: nat, rules: Rules, s: seq<Token>, live: seq<nat>, n: nat, heap: multiset<nat>, e: nat, k: nat)
    requires |s| == |live| && Increasing(live, n) && n <= none
    requires Covers(none, rules, s, live, heap)
    requires forall x :: x in heap ==> e <= x
    requires Describes(none, rules, s, live, e, k)
    ensures IsLeast(rules, s, k)
  {
    forall j | MergesAt(rules, s, j) && j != k
      ensures Before(rules, s, k, j)
    {
      assert e == Pack(none, RuleAt(rules, s, k).rank, live[k]);
      PackOrder(none, RuleAt(rules, s, k).rank, live[k], RuleAt(rules, s, j).rank, live[j]);
      assert Pack(none, RuleAt(rules, s, j).rank, live[j]) in heap;
      assert if j < k then live[j] < live[k] else live[k] < live[j];
    }
  }

  /** Discarding a stale entry loses no live pair. */
  lemma StaleUncovers(none: nat, rules: Rules, s: seq<Token>, live: seq<nat>, n: nat, heap: multiset<nat>, e: nat)
    requires |s| == |live| && Increasing(live, n) && n <= none
    requires Covers(none, rules, s, live, heap)
    requires Stale(none, rules, s, live, e)
    ensures Covers(none, rules, s, live, heap - multiset{e})
  {
    forall k: nat | MergesAt(rules, s, k)
      ensures Pack(none, RuleAt(rules, s, k).rank, live[k]) in heap - multiset{e}
    {
      PackOrder(none, RuleAt(rules, s, k).rank, live[k], 0, 0);
      assert !Describes(none, rules, s, live, e, k);
    }
  }

  /** After merging pair `k`, pushing the two pairs that touch the merged symbol restores the cover. */
  lemma MergedCovers(none: nat, rules: Rules, s: seq<Token>, live: seq<nat>, n: nat, k: nat, t: Token, heap: multiset<nat>, heap': multiset<nat>)
    requires |s| == |live| && Increasing(live, n) && n <= none
    requires Covers(none, rules, s, live, heap) && MergesAt(rules, s, k)
    requires heap - multiset{Pack(none, RuleAt(rules, s, k).rank, live[k])} <= heap'
    requires var s' := MergeAt(s, k, t);
      && (MergesAt(rules, s', k) ==> Pack(none, RuleAt(rules, s', k).rank, live[k]) in heap')
      && (MergesAt(rules, s', k - 1) ==> Pack(none, RuleAt(rules, s', k - 1).rank, live[k - 1]) in heap')
    ensures Covers(none, rules, MergeAt(s, k, t), Drop(live, k + 1), heap')
  {
    var s', live' := MergeAt(s, k, t), Drop(live, k + 1);
    var e := Pack(none, RuleAt(rules, s, k).rank, live[k]);
    forall j: nat | MergesAt(rules, s', j)
      ensures Pack(none, RuleAt(rules, s', j).rank, live'[j]) in heap'
    {
      if j < k - 1 || j > k {
        var old_j := if j < k then j else j + 1;
        assert s'[j] == s[old_j] && s'[j + 1] == s[old_j + 1];
        PackOrder(none, RuleAt(rules, s, k).rank, live[k], 0, 0);
        PackOrder(none, RuleAt(rules, s, old_j).rank, live[old_j], 0, 0);
        assert Pack(none, RuleAt(rules, s, old_j).rank, live[old_j]) in heap - multiset{e};
      }
    }
  }

  // ---------------------------------------------------------------------------
  // The merge loop
  // ---------------------------------------------------------------------------

  /** Links are positions or none; only survivors have a right neighbour. */
  ghost predicate Links(none: nat, next: seq<nat>, prev: seq<nat>, live: seq<nat>, n: nat) {
    && |next| == |prev| == n <= none
    && Linked(next, prev, live, n)
    && (forall p :: 0 <= p < n ==> (next[p] < n || next[p] == none) && (prev[p] < n || prev[p] == none))
    && DeadUnlinked(none, next, live, n)
  }

  ghost predicate Heaped(none: nat, rules: Rules, symbols: seq<Token>, live: seq<nat>, heap: multiset<nat>) {
    && Increasing(live, |symbols|)
    && EntriesBelow(none, heap, |symbols|)
    && Covers(none, rules, Survivors(symbols, live), live, heap)
  }

  /** A position with a right neighbour is a survivor, and the neighbour is the next one. */
  lemma LiveIndex(none: nat, next: seq<nat>, prev: seq<nat>, live: seq<nat>, n: nat, pos: nat) returns (k: nat)
    requires Links(none, next, prev, live, n) && pos < n && next[pos] != none
    ensures k + 1 < |live| && live[k] == pos && live[k + 1] == next[pos]
  {
    k :| 0 <= k < |live| && live[k] == pos;
  }

  lemma LinksStep(none: nat, next: seq<nat>, prev: seq<nat>, live: seq<nat>, n: nat, k: nat, next': seq<nat>, prev': seq<nat>)
    requires Links(none, next, prev, live, n) && k + 1 < |live|
    requires var rr := next[live[k + 1]];
      && next' == next[live[k] := rr][live[k + 1] := none]
      && prev' == (if rr != none then prev[rr := live[k]] else prev)
    ensures Links(none, next', prev', Drop(live, k + 1), n)
    ensures prev'[live[k]] == prev[live[k]] && next'[live[k]] == next[live[k + 1]]
  {
    assert live[k] < live[k + 1];
    assert k + 2 < |live| ==> next[live[k + 1]] == live[k + 2] > live[k + 1];
    Unlink(next, prev, live, n, k, next', prev');
    forall p: nat | p < n && next'[p] != none
      ensures p in Drop(live, k + 1)
    {
      LinksStepDead(none, next, prev, live, n, k, next', p);
    }
  }

  lemma LinksStepDead(none: nat, next: seq<nat>, prev: seq<nat>, live: seq<nat>, n: nat, k: nat, next': seq<nat>, p: nat)
    requires Links(none, next, prev, live, n) && k + 1 < |live|
    requires next' == next[live[k] := next[live[k + 1]]][live[k + 1] := none]
    requires p < n && next'[p] != none
    ensures p in Drop(live, k + 1)
  {
    var live' := Drop(live, k + 1);
    var j: nat :| j < |live| && live[j] == p;
    assert p == live'[if j < k + 1 then j else j - 1];
  }

  lemma HeapedStep(none: nat, rules: Rules, symbols: seq<Token>, live: seq<nat>, k: nat, t: Token, heap: multiset<nat>, heap': multiset<nat>)
    requires |symbols| <= none
    requires Heaped(none, rules, symbols, live, heap) && k + 1 < |live|
    requires MergesAt(rules, Survivors(symbols, live), k)
    requires EntriesBelow(none, heap', |symbols|)
    requires heap - multiset{Pack(none, RuleAt(rules, Survivors(symbols, live), k).rank, live[k])} <= heap'
    requires var s' := MergeAt(Survivors(symbols, live), k, t);
      && (MergesAt(rules, s', k) ==> Pack(none, RuleAt(rules, s', k).rank, live[k]) in heap')
      && (MergesAt(rules, s', k - 1) ==> Pack(none, RuleAt(rules, s', k - 1).rank, live[k - 1]) in heap')
    ensures Heaped(none, rules, symbols[live[k] := t], Drop(live, k + 1), heap')
  {
    SurvivorsMerge(symbols, live, k, t);
    IncreasingDrop(live, |symbols|, k + 1);
    MergedCovers(none, rules, Survivors(symbols, live), live, |symbols|, k, t, heap, heap');
  }

  lemma StaleHeaped(none: nat, rules: Rules, symbols: seq<Token>, live: seq<nat>, heap: multiset<nat>, e: nat)
    requires |symbols| <= none && Heaped(none, rules, symbols, live, heap)
    requires Stale(none, rules, Survivors(symbols, live), live, e)
    ensures Heaped(none, rules, symbols, live, heap - multiset{e})
  {
    StaleUncovers(none, rules, Survivors(symbols, live), live, |symbols|, heap, e);
  }

  /** An entry whose position has no right neighbour describes no live pair. */
  lemma NoRightIsStale(none: nat, rules: Rules, symbols: seq<Token>, next: seq<nat>, prev: seq<nat>, live: seq<nat>, e: nat)
    requires Links(none, next, prev, live, |symbols|)
    requires EntryPos(none, e) < |symbols| && next[EntryPos(none, e)] == none
    ensures Stale(none, rules, Survivors(symbols, live), live, e)
  {
    forall k: nat
      ensures !Describes(none, rules, Survivors(symbols, live), live, e, k)
    {
      assert k + 1 < |live| ==> next[live[k]] == live[k + 1];
    }
  }

  /** An entry whose pair no longer has the rank it was pushed with describes no live pair. */
  lemma NoMatchIsStale(none: nat, rules: Rules, symbols: seq<Token>, live: seq<nat>, e: nat, k: nat)
    requires Increasing(live, |symbols|)
    requires k + 1 < |live| && live[k] == EntryPos(none, e)
    requires !Describes(none, rules, Survivors(symbols, live), live, e, k)
    ensures Stale(none, rules, Survivors(symbols, live), live, e)
  {
    forall j: nat
      ensures !Describes(none, rules, Survivors(symbols, live), live, e, j)
    {
      assert j < k ==> live[j] < live[k];
      assert k < j < |live| ==> live[k] < live[j];
    }
  }

  /** `HeapedStep`, with the touching pairs read off the links after the merge. */
  lemma MergedHeaped(none: nat, rules: Rules, symbols: seq<Token>, next': seq<nat>, prev': seq<nat>, live: seq<nat>, k: nat, rule: Rule,
                     heap: multiset<nat>, heap': multiset<nat>)
    requires Heaped(none, rules, symbols, live, heap) && k + 1 < |live|
    requires rule.Rule? && rules(symbols[live[k]], symbols[live[k + 1]]) == rule
    requires Links(none, next', prev', Drop(live, k + 1), |symbols|)
    requires EntriesBelow(none, heap', |symbols|)
    requires heap - multiset{Pack(none, rule.rank, live[k])} <= heap'
    requires var after, l, r := symbols[live[k] := rule.token], prev'[live[k]], next'[live[k]];
      && (l != none && rules(after[l], after[live[k]]).Rule? ==> Pack(none, rules(after[l], after[live[k]]).rank, l) in heap')
      && (r != none && rules(after[live[k]], after[r]).Rule? ==> Pack(none, rules(after[live[k]], after[r]).rank, live[k]) in heap')
    ensures Heaped(none, rules, symbols[live[k] := rule.token], Drop(live, k + 1), heap')
  {
    var after, live' := symbols[live[k] := rule.token], Drop(live, k + 1);
    SurvivorsMerge(symbols, live, k, rule.token);
    assert k > 0 ==> prev'[live[k]] == live[k - 1];
    hide Links, Covers, EntriesBelow, Pack;
    assert RuleAt(rules, Survivors(symbols, live), k) == rule;
    HeapedStep(none, rules, symbols, live, k, rule.token, heap, heap');
  }

  /** Push the entry of the pair (left, right), if it merges. */
  method PushPair(none: nat, rules: Rules, symbols: array<Token>, heap: multiset<nat>, left: nat, right: nat) returns (heap': multiset<nat>)
    requires left < symbols.Length <= none && right < symbols.Length
    requires EntriesBelow(none, heap, symbols.Length)
    ensures heap <= heap' && |heap'| <= |heap| + 1
    ensures EntriesBelow(none, heap', symbols.Length)
    ensures rules(symbols[left], symbols[right]).Rule? ==> Pack(none, rules(symbols[left], symbols[right]).rank, left) in heap'
  {
    heap' := heap;
    var rule := rules(symbols[left], symbols[right]);
    if rule.Rule? {
      PackOrder(none, rule.rank, left, 0, 0);
      heap' := heap + multiset{Pack(none, rule.rank, left)};
    }
  }

  /** Merge the pair at `pos` and its right neighbour, and push the two pairs that now touch it. */
  method MergePair(none: nat, rules: Rules, symbols: array<Token>, next: array<nat>, prev: array<nat>, ghost live: seq<nat>,
                   ghost heap: multiset<nat>, rest: multiset<nat>, pos: nat, right: nat, rule: Rule, ghost k: nat)
    returns (heap': multiset<nat>)
    requires symbols != next && symbols != prev && next != prev
    requires Links(none, next[..], prev[..], live, symbols.Length) && Heaped(none, rules, symbols[..], live, heap)
    requires k + 1 < |live| && live[k] == pos && live[k + 1] == right
    requires rule.Rule? && rules(symbols[pos], symbols[right]) == rule
    requires rest == heap - multiset{Pack(none, rule.rank, pos)}
    modifies symbols, next, prev
    ensures symbols[..] == old(symbols[..])[pos := rule.token]
    ensures Links(none, next[..], prev[..], Drop(live, k + 1), symbols.Length)
    ensures Heaped(none, rules, symbols[..], Drop(live, k + 1), heap')
    ensures |heap'| <= |rest| + 2
  {
    hide *;
    ghost var next0: seq<nat>, prev0: seq<nat> := next[..], prev[..];
    StateFacts(none, rules, symbols[..], next0, prev0, live, heap);
    symbols[pos] := rule.token;
    var rightRight := next[right];
    next[pos] := rightRight;
    if rightRight != none {
      prev[rightRight] := pos;
    }
    next[right] := none;
    ghost var linked: seq<nat> := next0[pos := rightRight];
    assert next[..] == linked[right := none];
    assert prev[..] == if rightRight != none then prev0[rightRight := pos] else prev0;
    LinksStep(none, next0, prev0, live, symbols.Length, k, next[..], prev[..]);
    EntriesBelowLess(none, heap, Pack(none, rule.rank, pos), symbols.Length);
    heap' := rest;
    var left := prev[pos];
    if left != none {
      heap' := PushPair(none, rules, symbols, heap', left, pos);
    }
    if next[pos] != none {
      heap' := PushPair(none, rules, symbols, heap', pos, next[pos]);
    }
    MergedHeaped(none, rules, old(symbols[..]), next[..], prev[..], live, k, rule, heap, heap');
  }

  lemma StateFacts(none: nat, rules: Rules, symbols: seq<Token>, next: seq<nat>, prev: seq<nat>, live: seq<nat>, heap: multiset<nat>)
    requires Links(none, next, prev, live, |symbols|) && Heaped(none, rules, symbols, live, heap)
    ensures |next| == |prev| == |symbols| <= none
    ensures forall p :: 0 <= p < |symbols| ==> (next[p] < |symbols| || next[p] == none) && (prev[p] < |symbols| || prev[p] == none)
    ensures forall e :: e in heap ==> EntryPos(none, e) < |symbols|
    ensures Within(live, |symbols|) && Increasing(live, |symbols|) && Linked(next, prev, live, |symbols|)
    ensures Covers(none, rules, Survivors(symbols, live), live, heap)
    ensures EntriesBelow(none, heap, |symbols|)
  {
  }

  lemma DescribedPair(none: nat, rules: Rules, symbols: seq<Token>, live: seq<nat>, e: nat, k: nat)
    requires Within(live, |symbols|) && k + 1 < |live| && EntryPos(none, e) == live[k]
    ensures var rule := rules(symbols[live[k]], symbols[live[k + 1]]);
      Describes(none, rules, Survivors(symbols, live), live, e, k) <==> rule.Rule? && rule.rank == EntryRank(none, e)
    ensures MergesAt(rules, Survivors(symbols, live), k) <==> rules(symbols[live[k]], symbols[live[k + 1]]).Rule?
    ensures MergesAt(rules, Survivors(symbols, live), k)
      ==> RuleAt(rules, Survivors(symbols, live), k) == rules(symbols[live[k]], symbols[live[k + 1]])
    ensures e == Pack(none, EntryRank(none, e), live[k])
  {
  }

  method SeedHeap(none: nat, rules: Rules, symbols: array<Token>) returns (heap: multiset<nat>)
    requires 2 <= symbols.Length <= none
    ensures Heaped(none, rules, symbols[..], AllPositions(symbols.Length), heap)
    ensures |heap| < symbols.Length
  {
    heap := multiset{};
    ghost var all := Survivors(symbols[..], AllPositions(symbols.Length));
    for i := 0 to symbols.Length - 1
      invariant EntriesBelow(none, heap, symbols.Length) && |heap| <= i
      invariant forall k: nat :: k < i && MergesAt(rules, all, k) ==> Pack(none, RuleAt(rules, all, k).rank, k) in heap
    {
      heap := PushPair(none, rules, symbols, heap, i, i + 1);
    }
  }

  lemma InitialLinks(none: nat, next: seq<nat>, prev: seq<nat>, n: nat)
    requires 0 < n <= none && |next| == |prev| == n
    requires forall i :: 0 <= i < n ==> next[i] == if i + 1 < n then i + 1 else none
    requires forall i :: 0 <= i < n ==> prev[i] == if i == 0 then none else i - 1
    ensures Links(none, next, prev, AllPositions(n), n)
  {
    var live := AllPositions(n);
    forall p: nat | p < n && next[p] != none ensures p in live { assert live[p] == p; }
  }

  /** One pop: discard a stale entry, or merge the pair the entry describes. */
  method PopAndMerge(none: nat, rules: Rules, symbols: array<Token>, next: array<nat>, prev: array<nat>, ghost live: seq<nat>, heap: multiset<nat>)
    returns (heap': multiset<nat>, ghost live': seq<nat>)
    requires symbols != next && symbols != prev && next != prev
    requires Links(none, next[..], prev[..], live, symbols.Length) && Heaped(none, rules, symbols[..], live, heap)
    requires heap != multiset{} && Within(live, symbols.Length)
    modifies symbols, next, prev
    ensures Links(none, next[..], prev[..], live', symbols.Length) && Heaped(none, rules, symbols[..], live', heap')
    ensures Within(live', symbols.Length)
    ensures MergeAll(rules, Survivors(symbols[..], live')) == MergeAll(rules, old(Survivors(symbols[..], live)))
    ensures (live' == live && |heap'| == |heap| - 1) || (|live'| == |live| - 1 && |heap'| <= |heap| + 1)
  {
    hide *;
    StateFacts(none, rules, symbols[..], next[..], prev[..], live, heap);
    heap', live' := heap, live;
    ghost var s := Survivors(symbols[..], live);
    var entry, rest := PopLeast(heap);
    var pos := EntryPos(none, entry);
    var right := next[pos];
    if right == none {
      NoRightIsStale(none, rules, symbols[..], next[..], prev[..], live, entry);
      StaleHeaped(none, rules, symbols[..], live, heap, entry);
      heap' := rest;
      return;
    }
    ghost var k := LiveIndex(none, next[..], prev[..], live, symbols.Length, pos);
    var rule := rules(symbols[pos], symbols[right]);
    DescribedPair(none, rules, symbols[..], live, entry, k);
    if !(rule.Rule? && rule.rank == EntryRank(none, entry)) {
      NoMatchIsStale(none, rules, symbols[..], live, entry, k);
      StaleHeaped(none, rules, symbols[..], live, heap, entry);
      heap' := rest;
      return;
    }
    PoppedIsLeast(none, rules, s, live, symbols.Length, heap, entry, k);
    MergeAllStep(rules, s, k);
    SurvivorsMerge(symbols[..], live, k, rule.token);
    heap' := MergePair(none, rules, symbols, next, prev, live, heap, rest, pos, right, rule, k);
    live' := Drop(live, k + 1);
  }

  method InitialList(none: nat, n: nat) returns (next: array<nat>, prev: array<nat>)
    requires 0 < n <= none
    ensures fresh(next) && fresh(prev) && next != prev && Links(none, next[..], prev[..], AllPositions(n), n)
  {
    next := new nat[n](i => if i + 1 < n then i + 1 else none);
    prev := new nat[n](i => if i == 0 then none else i - 1);
    InitialLinks(none, next[..], prev[..], n);
  }

  /** The heap merge of `symbols`, in place; the result is `symbols[..len]`. */
  method MergeWithHeap(none: nat, rules: Rules, symbols: array<Token>) returns (len: nat, ghost merges: nat, ghost pops: nat)
    requires 2 <= symbols.Length <= none
    modifies symbols
    ensures len <= symbols.Length
    ensures symbols[..len] == MergeAll(rules, old(symbols[..]))
    ensures merges < symbols.Length && pops <= 3 * (symbols.Length - 1)
  {
    var n := symbols.Length;
    var next, prev := InitialList(none, n);
    ghost var live := AllPositions(n);
    ghost var input := symbols[..];
    assert Survivors(input, live) == input;
    var heap := SeedHeap(none, rules, symbols);
    merges, pops := 0, 0;
    hide *;
    while heap != multiset{}
      invariant fresh(next) && fresh(prev)
      invariant Links(none, next[..], prev[..], live, n) && Heaped(none, rules, symbols[..], live, heap)
      invariant Within(live, n)
      invariant MergeAll(rules, Survivors(symbols[..], live)) == MergeAll(rules, input)
      invariant merges + |live| == n
      invariant pops + |heap| <= n - 1 + 2 * merges
      decreases |live|, |heap|
    {
      pops := pops + 1;
      heap, live := PopAndMerge(none, rules, symbols, next, prev, live, heap);
      merges := n - |live|;
    }
    EmptyHeapIsStuck(none, rules, symbols[..], live);
    assert Linked(next[..], prev[..], live, n) by { StateFacts(none, rules, symbols[..], next[..], prev[..], live, heap); }
    len := Compact(symbols, next, prev[..], live, n);
  }

  /** An empty heap covers the survivors only if no two of them merge. */
  lemma EmptyHeapIsStuck(none: nat, rules: Rules, symbols: seq<Token>, live: seq<nat>)
    requires Heaped(none, rules, symbols, live, multiset{})
    ensures MergeAll(rules, Survivors(symbols, live)) == Survivors(symbols, live)
  {
    var s := Survivors(symbols, live);
    assert forall k: nat :: !MergesAt(rules, s, k);
    assert Stuck(rules, s);
  }
}
