/** The short merge over packed lanes: rank and position share one u32, so one minimum finds both. */
module MergePacked {
  import opened Common
  import opened MergeSpec
  import opened MergeList
  import opened MergeScan

  const RANK_LIMIT: nat := 0x20_0000
  const NO_MERGE_FLOOR: nat := 0xFFFF_FF00
  const PARKED: nat := 0xFFFF_FFFF

  /** `(rank << 8) | i` on u32: the shift drops the high bits. */
  function PackLane(rank: nat, i: nat): nat {
    (rank * 0x100) % TWO_32 + i
  }

  /** Ranks are merged token ids below 2^21. */
  ghost predicate RanksPackable(getRank: (Token, Token) -> nat) {
    forall a, b :: getRank(a, b) < 0x20_0000 || getRank(a, b) == NO_RANK
  }

  /** The lanes carry exactly what the table says of each position. */
  ghost predicate Lanes(pairs: seq<Rule>, lanes: seq<nat>, n: nat) {
    && |pairs| == |lanes| == SHORT_MERGE_MAX && n < SHORT_MERGE_MAX
    && (forall p: nat :: p < SHORT_MERGE_MAX ==>
          if p < n && pairs[p].Rule? then pairs[p].rank < RANK_LIMIT && lanes[p] == PackLane(pairs[p].rank, p)
          else lanes[p] >= NO_MERGE_FLOOR)
  }

  /** Packed lanes of real ranks compare as (rank, position), below every no-merge lane. */
  lemma PackLaneOrder(r: nat, i: nat, r': nat, i': nat)
    requires r < RANK_LIMIT && r' < RANK_LIMIT && i < SHORT_MERGE_MAX && i' < SHORT_MERGE_MAX
    ensures PackLane(r, i) <= PackLane(r', i') <==> r < r' || (r == r' && i <= i')
    ensures PackLane(r, i) < NO_MERGE_FLOOR <= PackLane(NO_RANK, i')
    ensures PackLane(r, i) % 0x100 == i && PackLane(r, i) / 0x100 == r
  {
    assert r * 0x100 < TWO_32 && r' * 0x100 < TWO_32;
  }

  /** The least of the first `width` lanes. */
  method LaneMin(lanes: array<nat>, width: nat) returns (best: nat)
    requires 0 < width <= lanes.Length
    ensures best in lanes[..width] && forall p :: 0 <= p < width ==> best <= lanes[p]
  {
    best := lanes[0];
    for p := 1 to width
      invariant best in lanes[..width] && forall q :: 0 <= q < p ==> best <= lanes[q]
    {
      if lanes[p] < best {
        assert lanes[..width][p] == lanes[p];
        best := lanes[p];
      }
    }
  }

  /** A minimum below the floor is the first least rank, position and all. */
  lemma LaneMinIsFirstLeast(pairs: seq<Rule>, lanes: seq<nat>, n: nat, width: nat, best: nat)
    requires Lanes(pairs, lanes, n) && n <= width <= SHORT_MERGE_MAX
    requires best in lanes[..width] && best < NO_MERGE_FLOOR
    requires forall p :: 0 <= p < width ==> best <= lanes[p]
    ensures best % 0x100 < n && IsFirstLeast(pairs, n, best % 0x100)
    ensures pairs[best % 0x100].rank == best / 0x100
  {
    var i: nat :| i < width && lanes[i] == best;
    PackLaneOrder(pairs[i].rank, i, 0, 0);
    forall p | 0 <= p < n && p != i && pairs[p].Rule?
      ensures pairs[i].rank < pairs[p].rank || (pairs[i].rank == pairs[p].rank && i < p)
    {
      PackLaneOrder(pairs[i].rank, i, pairs[p].rank, p);
    }
  }

  lemma LaneMinNone(pairs: seq<Rule>, lanes: seq<nat>, n: nat, width: nat, best: nat, p: nat)
    requires Lanes(pairs, lanes, n) && n <= width <= SHORT_MERGE_MAX && p < n
    requires best >= NO_MERGE_FLOOR && forall p :: 0 <= p < width ==> best <= lanes[p]
    ensures pairs[p] == NoRule
  {
    if pairs[p].Rule? {
      PackLaneOrder(pairs[p].rank, p, 0, 0);
    }
  }

  /** Writing a lane keeps the correspondence with the pair written beside it. */
  lemma LaneWrite(getRank: (Token, Token) -> nat, pairs: seq<Rule>, lanes: seq<nat>, n: nat, p: nat, a: Token, b: Token)
    requires RanksPackable(getRank) && Lanes(pairs, lanes, n) && p < n
    ensures Lanes(pairs[p := RankRules(getRank)(a, b)], lanes[p := PackLane(getRank(a, b), p)], n)
  {
    if getRank(a, b) != NO_RANK {
      PackLaneOrder(getRank(a, b), p, 0, p);
    } else {
      PackLaneOrder(0, p, 0, p);
    }
  }

  method InitialLanes(getRank: (Token, Token) -> nat, symbols: array<Token>, n: nat) returns (lanes: array<nat>, ghost pairs: seq<Rule>)
    requires RanksPackable(getRank) && 2 <= n < SHORT_MERGE_MAX == symbols.Length
    ensures fresh(lanes) && Lanes(pairs, lanes[..], n)
    ensures Ranked(RankRules(getRank), symbols[..], AllPositions(n), pairs, n)
  {
    lanes, pairs := new nat[SHORT_MERGE_MAX](i => PARKED), seq(SHORT_MERGE_MAX, i => NoRule);
    for i := 0 to n - 1
      invariant Lanes(pairs, lanes[..], n)
      invariant forall k :: 0 <= k < i ==> pairs[k] == RankRules(getRank)(symbols[k], symbols[k + 1])
      invariant forall k :: i <= k < SHORT_MERGE_MAX ==> pairs[k] == NoRule
    {
      ghost var before: seq<nat> := lanes[..];
      LaneWrite(getRank, pairs, before, n, i, symbols[i], symbols[i + 1]);
      hide Lanes;
      lanes[i] := PackLane(getRank(symbols[i], symbols[i + 1]), i);
      assert lanes[..] == before[i := PackLane(getRank(symbols[i], symbols[i + 1]), i)];
      pairs := pairs[i := RankRules(getRank)(symbols[i], symbols[i + 1])];
    }
    forall p: nat | p < n && pairs[p].Rule? ensures StartsPair(AllPositions(n), p) {
      assert AllPositions(n)[p] == p;
    }
  }

  lemma LaneClear(pairs: seq<Rule>, lanes: seq<nat>, n: nat, p: nat)
    requires Lanes(pairs, lanes, n) && p < n
    ensures Lanes(pairs[p := NoRule], lanes[p := PARKED], n)
  {
  }

  /** Repack the lane of a position whose pair is now (a, b). */
  method SetLane(getRank: (Token, Token) -> nat, lanes: array<nat>, ghost pairs: seq<Rule>, n: nat, p: nat, a: Token, b: Token)
    returns (ghost pairs': seq<Rule>)
    requires RanksPackable(getRank) && Lanes(pairs, lanes[..], n) && p < n && lanes.Length == |pairs| == SHORT_MERGE_MAX
    requires n <= SHORT_MERGE_MAX
    modifies lanes
    ensures pairs' == pairs[p := RankRules(getRank)(a, b)] && Lanes(pairs', lanes[..], n)
  {
    hide *;
    ghost var before: seq<nat> := lanes[..];
    LaneWrite(getRank, pairs, before, n, p, a, b);
    lanes[p] := PackLane(getRank(a, b), p);
    assert lanes[..] == before[p := PackLane(getRank(a, b), p)];
    pairs' := pairs[p := RankRules(getRank)(a, b)];
  }

  /** Park the lane of a position that starts no pair any more. */
  method ClearLane(lanes: array<nat>, ghost pairs: seq<Rule>, n: nat, p: nat) returns (ghost pairs': seq<Rule>)
    requires Lanes(pairs, lanes[..], n) && p < n <= SHORT_MERGE_MAX && lanes.Length == |pairs| == SHORT_MERGE_MAX
    modifies lanes
    ensures pairs' == pairs[p := NoRule] && Lanes(pairs', lanes[..], n)
  {
    hide *;
    ghost var before: seq<nat> := lanes[..];
    LaneClear(pairs, before, n, p);
    lanes[p] := PARKED;
    assert lanes[..] == before[p := PARKED];
    pairs' := pairs[p := NoRule];
  }

  /** One merge: the symbol is the rank in the lane, and each touched lane is repacked. */
  method MergeLane(getRank: (Token, Token) -> nat, symbols: array<Token>, n: nat, ghost live: seq<nat>, next: array<nat>, prev: array<nat>,
                   lanes: array<nat>, ghost pairs: seq<Rule>, i: nat, token: Token, ghost k: nat)
    returns (ghost pairs': seq<Rule>)
    requires RanksPackable(getRank) && symbols.Length == lanes.Length == SHORT_MERGE_MAX == |pairs| && n <= SHORT_MERGE_MAX
    requires symbols != next && symbols != prev && symbols != lanes && next != prev && next != lanes && prev != lanes
    requires Scanned(RankRules(getRank), symbols[..], live, next[..], prev[..], pairs, n) && k + 1 < |live| && live[k] == i
    requires Lanes(pairs, lanes[..], n) && Within(live, symbols.Length)
    modifies symbols, next, prev, lanes
    ensures symbols[..] == old(symbols[..])[i := token]
    ensures Lanes(pairs', lanes[..], n) && |pairs'| == SHORT_MERGE_MAX
    ensures Within(Drop(live, k + 1), symbols.Length)
    ensures Scanned(RankRules(getRank), symbols[..], Drop(live, k + 1), next[..], prev[..], pairs', n)
    ensures Survivors(symbols[..], Drop(live, k + 1)) == MergeAt(old(Survivors(symbols[..], live)), k, token)
  {
    hide *;
    ghost var next0: seq<nat>, prev0: seq<nat> := next[..], prev[..];
    ScannedLinks(RankRules(getRank), symbols[..], live, next0, prev0, pairs, n, k);
    symbols[i] := token;
    var dead := next[i];
    var newRight := next[dead];
    next[i] := newRight;
    pairs' := ClearLane(lanes, pairs, n, dead);
    if newRight < n {
      prev[newRight] := i;
      pairs' := SetLane(getRank, lanes, pairs', n, i, symbols[i], symbols[newRight]);
    } else {
      pairs' := ClearLane(lanes, pairs', n, i);
    }
    var left := prev[i];
    if left < n {
      pairs' := SetLane(getRank, lanes, pairs', n, left, symbols[left], symbols[i]);
    }
    ScanStep(RankRules(getRank), old(symbols[..]), live, next0, prev0, pairs, n, k, token, next[..], prev[..], pairs');
  }

  lemma PackedSizes(getRank: (Token, Token) -> nat)
    requires RanksPackable(getRank)
    ensures SHORT_MERGE_MAX == 16 && RanksFit(RankRules(getRank))
  {
  }

  lemma LanesLength(pairs: seq<Rule>, lanes: seq<nat>, n: nat)
    requires Lanes(pairs, lanes, n)
    ensures |lanes| == |pairs| == SHORT_MERGE_MAX
  {
  }

  lemma AllWithin(n: nat, m: nat)
    requires n <= m
    ensures Within(AllPositions(n), m)
  {
  }

  lemma PackedStart(rules: Rules, symbols: seq<Token>, next: seq<nat>, prev: seq<nat>, pairs: seq<Rule>, n: nat)
    requires n <= |symbols| && Within(AllPositions(n), |symbols|)
    requires Linked(next, prev, AllPositions(n), n) && Ranked(rules, symbols, AllPositions(n), pairs, n)
    ensures |AllPositions(n)| == n && Survivors(symbols, AllPositions(n)) == symbols[..n]
    ensures Scanned(rules, symbols, AllPositions(n), next, prev, pairs, n)
  {
    assert Survivors(symbols, AllPositions(n)) == symbols[..n];
  }

  lemma TokenIsRank(getRank: (Token, Token) -> nat, s: seq<Token>, k: nat)
    requires MergesAt(RankRules(getRank), s, k)
    ensures RuleAt(RankRules(getRank), s, k).token == RuleAt(RankRules(getRank), s, k).rank
  {
  }

  /** The packed-lane merge of `symbols[..n]`, in place; the result is `symbols[..len]`. */
  method MergeShortPacked(getRank: (Token, Token) -> nat, symbols: array<Token>, n: nat) returns (len: nat)
    requires RanksPackable(getRank)
    requires 2 <= n < SHORT_MERGE_MAX == symbols.Length
    modifies symbols
    ensures len <= n
    ensures symbols[..len] == MergeAll(RankRules(getRank), old(symbols[..n]))
  {
    hide *;
    ghost var rules := RankRules(getRank);
    PackedSizes(getRank);
    var next, prev := InitialList(n, SHORT_MERGE_MAX);
    var lanes, pairs := InitialLanes(getRank, symbols, n);
    var width := if n <= 8 then 8 else 16;
    ghost var live := AllPositions(n);
    ghost var input := symbols[..n];
    LanesLength(pairs, lanes[..], n);
    AllWithin(n, symbols.Length);
    PackedStart(rules, symbols[..], next[..], prev[..], pairs, n);
    while true
      invariant Scanned(rules, symbols[..], live, next[..], prev[..], pairs, n) && Lanes(pairs, lanes[..], n)
      invariant Within(live, symbols.Length) && |pairs| == SHORT_MERGE_MAX && |live| <= n
      invariant MergeAll(rules, Survivors(symbols[..], live)) == MergeAll(rules, input)
      decreases |live|
    {
      LanesLength(pairs, lanes[..], n);
      var best := LaneMin(lanes, width);
      if best >= NO_MERGE_FLOOR {
        forall p: nat | p < n { LaneMinNone(pairs, lanes[..], n, width, best, p); }
        ScannedDone(rules, symbols[..], live, next[..], prev[..], pairs, n);
        break;
      }
      LaneMinIsFirstLeast(pairs, lanes[..], n, width, best);
      var i := best % 0x100;
      ghost var k := ScannedBest(rules, symbols[..], live, next[..], prev[..], pairs, n, n, i);
      MergeAllStep(rules, Survivors(symbols[..], live), k);
      TokenIsRank(getRank, Survivors(symbols[..], live), k);
      pairs := MergeLane(getRank, symbols, n, live, next, prev, lanes, pairs, i, best / 0x100, k);
      live := Drop(live, k + 1);
    }
    len := Compact(symbols, next, prev[..], live, n);
  }
}
