/** What byte-pair merging computes, independently of every loop that computes it:
    repeatedly merge the adjacent pair with the least (rank, position) until no pair merges. */
module MergeSpec {
  import opened Common
  import opened Utf8

  type Token = nat

  /** What a merge table says of a pair: nothing, or a priority and the token it becomes. */
  datatype Rule = NoRule | Rule(rank: nat, token: Token)

  type Rules = (Token, Token) -> Rule

  /** The no-merge rank, u32::MAX. */
  const NO_RANK: nat := 0xFFFF_FFFF

  /** Merging by a rank lookup alone: the rank is the merged token (tiktoken-style vocabularies). */
  function RankRules(getRank: (Token, Token) -> nat): Rules {
    (a: Token, b: Token) => if getRank(a, b) == NO_RANK then NoRule else Rule(getRank(a, b), getRank(a, b))
  }

  predicate MergesAt(rules: Rules, s: seq<Token>, i: int) {
    0 <= i < |s| - 1 && rules(s[i], s[i + 1]).Rule?
  }

  function RuleAt(rules: Rules, s: seq<Token>, i: int): (r: Rule)
    requires MergesAt(rules, s, i)
    ensures r.Rule?
  {
    rules(s[i], s[i + 1])
  }

  /** Pair `i` is merged in preference to pair `j`. */
  predicate Before(rules: Rules, s: seq<Token>, i: int, j: int)
    requires MergesAt(rules, s, i) && MergesAt(rules, s, j)
  {
    var ri, rj := RuleAt(rules, s, i).rank, RuleAt(rules, s, j).rank;
    ri < rj || (ri == rj && i < j)
  }

  ghost predicate IsLeast(rules: Rules, s: seq<Token>, i: int) {
    && MergesAt(rules, s, i)
    && forall j :: MergesAt(rules, s, j) && j != i ==> Before(rules, s, i, j)
  }

  ghost predicate Stuck(rules: Rules, s: seq<Token>) {
    forall j :: !MergesAt(rules, s, j)
  }

  /** The least mergeable pair among positions below `k`. */
  function LeastBelow(rules: Rules, s: seq<Token>, k: nat): (r: Option<nat>)
    ensures r.None? ==> forall j :: j < k ==> !MergesAt(rules, s, j)
    ensures r.Some? ==> r.value < k && MergesAt(rules, s, r.value)
    ensures r.Some? ==> forall j :: j < k && MergesAt(rules, s, j) && j != r.value ==> Before(rules, s, r.value, j)
  {
    if k == 0 then None
    else
      var prior := LeastBelow(rules, s, k - 1);
      if !MergesAt(rules, s, k - 1) then prior
      else if prior.Some? && Before(rules, s, prior.value, k - 1) then prior
      else Some(k - 1)
  }

  function Least(rules: Rules, s: seq<Token>): (r: Option<nat>)
    ensures r.None? <==> Stuck(rules, s)
    ensures r.Some? ==> IsLeast(rules, s, r.value)
  {
    LeastBelow(rules, s, |s|)
  }

  function MergeAt(s: seq<Token>, i: nat, t: Token): (r: seq<Token>)
    requires i + 1 < |s|
    ensures |r| == |s| - 1
  {
    s[..i] + [t] + s[i + 2..]
  }

  function MergeAll(rules: Rules, s: seq<Token>): seq<Token>
    decreases |s|
  {
    match Least(rules, s)
    case None => s
    case Some(i) => MergeAll(rules, MergeAt(s, i, RuleAt(rules, s, i).token))
  }

  /** One step of a loop that picks the least pair is one step of the specification. */
  lemma MergeAllStep(rules: Rules, s: seq<Token>, i: nat)
    requires IsLeast(rules, s, i)
    ensures MergeAll(rules, s) == MergeAll(rules, MergeAt(s, i, RuleAt(rules, s, i).token))
  {
    assert Least(rules, s) == Some(i);
  }

  /** By rank lookup: the pair that merges into the least token, the leftmost of equal ones, becomes that token. */
  lemma LeastRankMerges(getRank: (Token, Token) -> nat, s: seq<Token>, i: nat)
    requires i + 1 < |s| && getRank(s[i], s[i + 1]) != 0xFFFF_FFFF
    requires forall j: nat :: j + 1 < |s| && getRank(s[j], s[j + 1]) != 0xFFFF_FFFF ==>
      getRank(s[i], s[i + 1]) < getRank(s[j], s[j + 1]) || (getRank(s[i], s[i + 1]) == getRank(s[j], s[j + 1]) && i <= j)
    ensures MergeAll(RankRules(getRank), s) == MergeAll(RankRules(getRank), s[..i] + [getRank(s[i], s[i + 1])] + s[i + 2..])
  {
    var rules := RankRules(getRank);
    forall j | MergesAt(rules, s, j) && j != i ensures Before(rules, s, i, j) {
      assert getRank(s[j], s[j + 1]) != NO_RANK;
    }
    MergeAllStep(rules, s, i);
  }

  /** What is left has no pair to merge, and is never longer than the input. */
  lemma {:induction false} MergeAllStuck(rules: Rules, s: seq<Token>)
    ensures Stuck(rules, MergeAll(rules, s))
    ensures |MergeAll(rules, s)| <= |s|
    ensures s != [] ==> MergeAll(rules, s) != []
    decreases |s|
  {
    match Least(rules, s)
    case None =>
    case Some(i) => MergeAllStuck(rules, MergeAt(s, i, RuleAt(rules, s, i).token));
  }

  // ---------------------------------------------------------------------------
  // Bytes: every token stands for a byte string, and a merge keeps it
  // ---------------------------------------------------------------------------

  type Spelling = Token -> Bytes

  /** A merged token spells the concatenation of its parts. */
  ghost predicate Consistent(rules: Rules, spell: Spelling) {
    forall a, b :: rules(a, b).Rule? ==> spell(rules(a, b).token) == spell(a) + spell(b)
  }

  function Spell(spell: Spelling, s: seq<Token>): Bytes {
    if s == [] then [] else spell(s[0]) + Spell(spell, s[1..])
  }

  lemma SpellPlus(spell: Spelling, a: seq<Token>, b: seq<Token>)
    ensures Spell(spell, a + b) == Spell(spell, a) + Spell(spell, b)
  {
    if a == [] {
      assert a + b == b;
    } else {
      assert (a + b)[1..] == a[1..] + b;
      SpellPlus(spell, a[1..], b);
    }
  }

  lemma SpellMergeAt(rules: Rules, spell: Spelling, s: seq<Token>, i: nat)
    requires Consistent(rules, spell) && MergesAt(rules, s, i)
    ensures Spell(spell, MergeAt(s, i, RuleAt(rules, s, i).token)) == Spell(spell, s)
  {
    var t := RuleAt(rules, s, i).token;
    var tail := s[i + 2..];
    assert s == s[..i] + ([s[i], s[i + 1]] + tail);
    assert MergeAt(s, i, t) == s[..i] + ([t] + tail);
    SpellPlus(spell, s[..i], [s[i], s[i + 1]] + tail);
    SpellPlus(spell, s[..i], [t] + tail);
    assert ([s[i], s[i + 1]] + tail)[1..] == [s[i + 1]] + tail;
    assert ([s[i + 1]] + tail)[1..] == tail == ([t] + tail)[1..];
  }

  /** Merging conserves the bytes spelled. */
  lemma {:induction false} MergeAllSpell(rules: Rules, spell: Spelling, s: seq<Token>)
    requires Consistent(rules, spell)
    ensures Spell(spell, MergeAll(rules, s)) == Spell(spell, s)
    decreases |s|
  {
    match Least(rules, s)
    case None =>
    case Some(i) =>
      SpellMergeAt(rules, spell, s, i);
      MergeAllSpell(rules, spell, MergeAt(s, i, RuleAt(rules, s, i).token));
  }

  // ---------------------------------------------------------------------------
  // Merging a concatenation
  // ---------------------------------------------------------------------------

  /** No rule joins bytes on the two sides of the cut between `left` and `right`. */
  ghost predicate Uncrossed(rules: Rules, spell: Spelling, left: Bytes, right: Bytes) {
    forall a, b :: rules(a, b).Rule? ==> !(EndsWith(left, spell(a)) && StartsWith(right, spell(b)))
  }

  lemma SpellEnds(spell: Spelling, s: seq<Token>)
    requires s != []
    ensures EndsWith(Spell(spell, s), spell(s[|s| - 1]))
  {
    var last := |s| - 1;
    SpellPlus(spell, s[..last], [s[last]]);
    assert s == s[..last] + [s[last]];
    assert Spell(spell, [s[last]]) == spell(s[last]) + [];
    hide Spell;
    assert Spell(spell, s) == Spell(spell, s[..last]) + spell(s[last]);
  }

  /** No rule applies across the cut when the two sides are merged as one sequence. */
  lemma NoPairAcross(rules: Rules, spell: Spelling, xs: seq<Token>, ys: seq<Token>)
    requires Uncrossed(rules, spell, Spell(spell, xs), Spell(spell, ys))
    ensures !MergesAt(rules, xs + ys, |xs| - 1)
  {
    if xs != [] && ys != [] {
      SpellEnds(spell, xs);
      assert !rules(xs[|xs| - 1], ys[0]).Rule?;
    }
  }

  /** The pairs of a concatenation not sitting on the cut are those of its two halves. */
  lemma PairOfConcat(rules: Rules, xs: seq<Token>, ys: seq<Token>, j: int)
    requires !MergesAt(rules, xs + ys, |xs| - 1)
    ensures MergesAt(rules, xs + ys, j) <==> MergesAt(rules, xs, j) || MergesAt(rules, ys, j - |xs|)
    ensures MergesAt(rules, xs, j) ==> RuleAt(rules, xs + ys, j) == RuleAt(rules, xs, j)
    ensures MergesAt(rules, ys, j - |xs|) ==> RuleAt(rules, xs + ys, j) == RuleAt(rules, ys, j - |xs|)
  {
  }

  lemma LeastOfLeft(rules: Rules, xs: seq<Token>, ys: seq<Token>, i: int)
    requires !MergesAt(rules, xs + ys, |xs| - 1)
    requires IsLeast(rules, xs + ys, i) && i < |xs|
    ensures IsLeast(rules, xs, i)
  {
    PairOfConcat(rules, xs, ys, i);
    forall j | MergesAt(rules, xs, j) && j != i
      ensures Before(rules, xs, i, j)
    {
      PairOfConcat(rules, xs, ys, j);
      assert Before(rules, xs + ys, i, j);
    }
  }

  lemma LeastOfRight(rules: Rules, xs: seq<Token>, ys: seq<Token>, i: int)
    requires !MergesAt(rules, xs + ys, |xs| - 1)
    requires IsLeast(rules, xs + ys, i) && i >= |xs|
    ensures IsLeast(rules, ys, i - |xs|)
  {
    PairOfConcat(rules, xs, ys, i);
    forall j | MergesAt(rules, ys, j) && j != i - |xs|
      ensures Before(rules, ys, i - |xs|, j)
    {
      PairOfConcat(rules, xs, ys, j + |xs|);
      assert Before(rules, xs + ys, i, j + |xs|);
    }
  }

  lemma StuckHalves(rules: Rules, xs: seq<Token>, ys: seq<Token>)
    requires Stuck(rules, xs + ys)
    ensures Stuck(rules, xs) && Stuck(rules, ys)
  {
    forall j ensures !MergesAt(rules, xs, j) { PairOfConcat(rules, xs, ys, j); }
    forall j ensures !MergesAt(rules, ys, j) { PairOfConcat(rules, xs, ys, j + |xs|); }
  }

  lemma MergeAllDone(rules: Rules, s: seq<Token>)
    requires Stuck(rules, s)
    ensures MergeAll(rules, s) == s
  {
  }

  lemma LeastMerges(rules: Rules, s: seq<Token>, i: nat)
    requires IsLeast(rules, s, i)
    ensures MergesAt(rules, s, i) && i + 1 < |s|
  {
  }

  lemma MergeLeft(xs: seq<Token>, ys: seq<Token>, i: nat, t: Token)
    requires i + 1 < |xs|
    ensures MergeAt(xs + ys, i, t) == MergeAt(xs, i, t) + ys
  {
  }

  lemma MergeRight(xs: seq<Token>, ys: seq<Token>, i: nat, t: Token)
    requires |xs| <= i && i + 1 < |xs + ys|
    ensures MergeAt(xs + ys, i, t) == xs + MergeAt(ys, i - |xs|, t)
  {
  }

  /** Where no rule crosses the cut, merging a concatenation is concatenating the merges. */
  lemma {:induction false} MergeConcat(rules: Rules, spell: Spelling, xs: seq<Token>, ys: seq<Token>)
    requires Consistent(rules, spell)
    requires Uncrossed(rules, spell, Spell(spell, xs), Spell(spell, ys))
    ensures MergeAll(rules, xs + ys) == MergeAll(rules, xs) + MergeAll(rules, ys)
    decreases |xs| + |ys|
  {
    hide *;
    var whole := xs + ys;
    NoPairAcross(rules, spell, xs, ys);
    match Least(rules, whole) {
      case None =>
        StuckHalves(rules, xs, ys);
        MergeAllDone(rules, whole);
        MergeAllDone(rules, xs);
        MergeAllDone(rules, ys);
      case Some(i) =>
        LeastMerges(rules, whole, i);
        var t := RuleAt(rules, whole, i).token;
        MergeAllStep(rules, whole, i);
        PairOfConcat(rules, xs, ys, i);
        if i < |xs| {
          LeastOfLeft(rules, xs, ys, i);
          LeastMerges(rules, xs, i);
          SpellMergeAt(rules, spell, xs, i);
          MergeLeft(xs, ys, i, t);
          MergeConcat(rules, spell, MergeAt(xs, i, t), ys);
          MergeAllStep(rules, xs, i);
        } else {
          LeastOfRight(rules, xs, ys, i);
          LeastMerges(rules, ys, i - |xs|);
          SpellMergeAt(rules, spell, ys, i - |xs|);
          MergeRight(xs, ys, i, t);
          MergeConcat(rules, spell, xs, MergeAt(ys, i - |xs|, t));
          MergeAllStep(rules, ys, i - |xs|);
        }
    }
  }
}
