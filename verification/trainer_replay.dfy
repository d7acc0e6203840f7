/** The encoder's merge loop, given the learned merges, redoes what the trainer did to a word. */
module TrainerReplay {
  import opened Common
  import opened MergeSpec
  import opened TrainerWords

  /** The first merge of a pair. */
  function FirstMerge(merges: seq<Pair>, q: Pair): (r: Option<nat>)
    ensures r.None? <==> q !in merges
    ensures r.Some? ==> r.value < |merges| && merges[r.value] == q && forall i :: 0 <= i < r.value ==> merges[i] != q
  {
    if merges == [] then None
    else
      var k := |merges| - 1;
      var prior := FirstMerge(merges[..k], q);
      if prior.Some? then prior else if merges[k] == q then Some(k) else None
  }

  /** The encoder's rank of a pair: the id it was first merged into. */
  function LearnedRank(merges: seq<Pair>, base: nat): (Token, Token) -> nat {
    (a: Token, b: Token) =>
      match FirstMerge(merges, (a, b))
      case None => NO_RANK
      case Some(j) => base + j
  }

  function LearnedRules(merges: seq<Pair>, base: nat): Rules {
    RankRules(LearnedRank(merges, base))
  }

  /** The trainer's way: each merge in turn replaced throughout the word. */
  function Replay(s: seq<Token>, merges: seq<Pair>, base: nat): seq<Token> {
    if merges == [] then s
    else ReplaceAll(Replay(s, merges[..|merges| - 1], base), merges[|merges| - 1], base + |merges| - 1)
  }

  /** Every merge joins tokens that exist by then, and the ids stay below the no-merge rank. */
  ghost predicate Ordered(merges: seq<Pair>, base: nat) {
    && base + |merges| <= NO_RANK
    && forall j :: 0 <= j < |merges| ==> merges[j].0 < base + j && merges[j].1 < base + j
  }

  /** None of the first `k` merges applies any more. */
  ghost predicate Clean(s: seq<Token>, merges: seq<Pair>, k: nat) {
    forall i :: 0 <= i < k <= |merges| ==> !Occurs(s, merges[i])
  }

  lemma RuleOfPair(merges: seq<Pair>, base: nat, s: seq<Token>, i: int)
    requires Ordered(merges, base) && 0 <= i < |s| - 1
    ensures MergesAt(LearnedRules(merges, base), s, i) <==> (s[i], s[i + 1]) in merges
    ensures MergesAt(LearnedRules(merges, base), s, i) ==>
              exists j :: 0 <= j < |merges| && PairAt(s, i, merges[j]) && RuleAt(LearnedRules(merges, base), s, i) == Rule(base + j, base + j)
    ensures forall j :: FirstMerge(merges, (s[i], s[i + 1])) == Some(j) ==>
              MergesAt(LearnedRules(merges, base), s, i) && RuleAt(LearnedRules(merges, base), s, i) == Rule(base + j, base + j)
  {
  }

  /** The leftmost occurrence of the first merge that still applies is the least pair. */
  lemma LeftmostIsLeast(merges: seq<Pair>, base: nat, k: nat, s: seq<Token>, at: nat)
    requires Ordered(merges, base) && k < |merges| && FirstMerge(merges, merges[k]) == Some(k)
    requires Clean(s, merges, k) && PairAt(s, at, merges[k])
    requires forall i :: i < at ==> !PairAt(s, i, merges[k])
    ensures IsLeast(LearnedRules(merges, base), s, at)
    ensures RuleAt(LearnedRules(merges, base), s, at) == Rule(base + k, base + k)
  {
    var rules := LearnedRules(merges, base);
    hide FirstMerge, LearnedRules, Ordered;
    RuleOfPair(merges, base, s, at);
    forall i | MergesAt(rules, s, i) && i != at ensures Before(rules, s, at, i) {
      RuleOfPair(merges, base, s, i);
      var j :| 0 <= j < |merges| && PairAt(s, i, merges[j]) && RuleAt(rules, s, i) == Rule(base + j, base + j);
      assert Occurs(s, merges[j]);
    }
  }

  /** A merge brings no earlier merge back: its pairs were there, or hold the new token. */
  lemma MergeStaysClean(merges: seq<Pair>, base: nat, k: nat, s: seq<Token>, at: nat)
    requires Ordered(merges, base) && k < |merges| && Clean(s, merges, k) && PairAt(s, at, merges[k])
    requires forall i :: i < at ==> !PairAt(s, i, merges[k])
    ensures Clean(MergeAt(s, at, base + k), merges, k)
    ensures var r := MergeAt(s, at, base + k); forall i :: i <= at ==> !PairAt(r, i, merges[k])
  {
    var r := MergeAt(s, at, base + k);
    forall j, i | 0 <= j <= k && PairAt(r, i, merges[j]) && (j < k || i <= at) ensures false {
      assert !Has(merges[j], base + k);
      assert i < at - 1 || i > at;
      assert PairAt(s, if i < at then i else i + 1, merges[j]);
      assert j < k ==> Occurs(s, merges[j]);
    }
  }

  /** Replacing one merge throughout is what the loop does next. */
  lemma {:induction false} ReplaceIsMerging(merges: seq<Pair>, base: nat, k: nat, head: seq<Token>, s: seq<Token>)
    requires Ordered(merges, base) && k < |merges| && FirstMerge(merges, merges[k]) == Some(k)
    requires Clean(head + s, merges, k)
    requires forall i :: 0 <= i < |head| ==> !PairAt(head + s, i, merges[k])
    ensures MergeAll(LearnedRules(merges, base), head + s)
         == MergeAll(LearnedRules(merges, base), head + ReplaceAll(s, merges[k], base + k))
    decreases |s|
  {
    hide Clean, Ordered, LearnedRules, MergeAll, IsLeast, FirstMerge;
    var p, x, t := merges[k], base + k, head + s;
    if |s| >= 2 {
      if (s[0], s[1]) == p {
        assert PairAt(t, |head|, p);
        LeftmostIsLeast(merges, base, k, t, |head|);
        MergeAllStep(LearnedRules(merges, base), t, |head|);
        MergeStaysClean(merges, base, k, t, |head|);
        assert MergeAt(t, |head|, x) == (head + [x]) + s[2..];
        ReplaceIsMerging(merges, base, k, head + [x], s[2..]);
        Regroup(head, x, ReplaceAll(s[2..], p, x));
      } else {
        assert !PairAt(t, |head|, p);
        assert t == (head + [s[0]]) + s[1..];
        ReplaceIsMerging(merges, base, k, head + [s[0]], s[1..]);
        Regroup(head, s[0], ReplaceAll(s[1..], p, x));
      }
    }
  }

  /** After `k` merges the word holds only ids that exist and none of the merges applies. */
  lemma {:induction false} ReplayClean(s: seq<Token>, merges: seq<Pair>, base: nat, k: nat)
    requires Ordered(merges, base) && k <= |merges| && forall t :: t in s ==> t < base
    ensures Clean(Replay(s, merges[..k], base), merges, k)
    ensures forall t :: t in Replay(s, merges[..k], base) ==> t < base + k
  {
    if k > 0 {
      ReplayClean(s, merges, base, k - 1);
      var before := Replay(s, merges[..k - 1], base);
      assert merges[..k][..k - 1] == merges[..k - 1];
      ReplaceSymbols(before, merges[k - 1], base + k - 1, base + k);
      CleanStep(before, merges, base, k - 1);
    }
  }

  lemma CleanStep(s: seq<Token>, merges: seq<Pair>, base: nat, k: nat)
    requires Ordered(merges, base) && k < |merges| && Clean(s, merges, k)
    ensures Clean(ReplaceAll(s, merges[k], base + k), merges, k + 1)
  {
    hide Occurs;
    forall i | 0 <= i < k + 1 ensures !Occurs(ReplaceAll(s, merges[k], base + k), merges[i]) {
      if Occurs(ReplaceAll(s, merges[k], base + k), merges[i]) {
        ReplacePairs(s, merges[k], base + k, merges[i]);
      }
    }
  }

  lemma ReplayNone(s: seq<Token>, merges: seq<Pair>, base: nat)
    ensures Replay(s, merges[..0], base) == s
  {
  }

  lemma ReplayLast(s: seq<Token>, merges: seq<Pair>, base: nat, k: nat)
    requires 0 < k <= |merges|
    ensures Replay(s, merges[..k], base) == ReplaceAll(Replay(s, merges[..k - 1], base), merges[k - 1], base + k - 1)
  {
    hide ReplaceAll;
    assert merges[..k][..k - 1] == merges[..k - 1];
  }

  lemma {:induction false} ReplayMerges(s: seq<Token>, merges: seq<Pair>, base: nat, k: nat)
    requires Ordered(merges, base) && k <= |merges| && forall t :: t in s ==> t < base
    ensures MergeAll(LearnedRules(merges, base), s) == MergeAll(LearnedRules(merges, base), Replay(s, merges[..k], base))
  {
    hide *;
    ReplayNone(s, merges, base);
    if k > 0 {
      ReplayMerges(s, merges, base, k - 1);
      ReplayClean(s, merges, base, k - 1);
      var before := Replay(s, merges[..k - 1], base);
      ReplayLast(s, merges, base, k);
      if FirstMerge(merges, merges[k - 1]) == Some(k - 1) {
        assert [] + before == before;
        ReplaceIsMerging(merges, base, k - 1, [], before);
        assert [] + ReplaceAll(before, merges[k - 1], base + k - 1) == ReplaceAll(before, merges[k - 1], base + k - 1);
      } else {
        RepeatChangesNothing(before, merges, base, k - 1);
      }
    }
  }

  /** A merge learned a second time finds nothing to replace. */
  lemma RepeatChangesNothing(s: seq<Token>, merges: seq<Pair>, base: nat, k: nat)
    requires k < |merges| && Clean(s, merges, k) && FirstMerge(merges, merges[k]) != Some(k)
    ensures ReplaceAll(s, merges[k], base + k) == s
  {
    var j := FirstMerge(merges, merges[k]).value;
    assert j < k;
    ReplaceNothing(s, merges[k], base + k);
  }

  lemma CleanPair(s: seq<Token>, merges: seq<Pair>, i: nat)
    requires Clean(s, merges, |merges|) && i + 1 < |s|
    ensures (s[i], s[i + 1]) !in merges
  {
    var q := (s[i], s[i + 1]);
    assert PairAt(s, i, q);
    assert Occurs(s, q);
  }

  lemma CleanIsStuck(s: seq<Token>, merges: seq<Pair>, base: nat)
    requires Ordered(merges, base) && Clean(s, merges, |merges|)
    ensures Stuck(LearnedRules(merges, base), s)
  {
    hide LearnedRules, FirstMerge, Clean;
    forall i | 0 <= i < |s| - 1 ensures !MergesAt(LearnedRules(merges, base), s, i) {
      CleanPair(s, merges, i);
      RuleOfPair(merges, base, s, i);
    }
  }

  /** Replacing the merges one after the other is merging lowest merged id first. */
  lemma ReplayIsMergeAll(s: seq<Token>, merges: seq<Pair>, base: nat)
    requires Ordered(merges, base) && forall t :: t in s ==> t < base
    ensures Replay(s, merges, base) == MergeAll(LearnedRules(merges, base), s)
  {
    hide LearnedRules;
    assert merges[..|merges|] == merges;
    ReplayMerges(s, merges, base, |merges|);
    ReplayClean(s, merges, base, |merges|);
    CleanIsStuck(Replay(s, merges, base), merges, base);
  }
}
