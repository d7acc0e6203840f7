/** The loader's choice of merge priority: merged token ids in place of explicit merge-list ranks. */
module MergePriority {
  import opened Common
  import opened MergeSpec

  datatype Entry = Entry(left: Token, right: Token, merged: Token)

  /** The entry that decides a pair: the first one, since later ones do not replace it. */
  function FirstIndex(entries: seq<Entry>, a: Token, b: Token): (r: Option<nat>)
    ensures r.Some? ==> r.value < |entries| && entries[r.value].left == a && entries[r.value].right == b
    ensures forall k :: 0 <= k < |entries| && (r.Some? ==> k < r.value) ==> entries[k].left != a || entries[k].right != b
  {
    if entries == [] then None
    else if entries[0].left == a && entries[0].right == b then Some(0)
    else
      var rest := FirstIndex(entries[1..], a, b);
      if rest.Some? then Some(rest.value + 1) else None
  }

  /** Priority by merged id. */
  function IdRules(entries: seq<Entry>): Rules {
    (a: Token, b: Token) =>
      match FirstIndex(entries, a, b)
      case None => NoRule
      case Some(i) => Rule(entries[i].merged, entries[i].merged)
  }

  /** Priority by position in the merge list. */
  function ListRules(entries: seq<Entry>): Rules {
    (a: Token, b: Token) =>
      match FirstIndex(entries, a, b)
      case None => NoRule
      case Some(i) => Rule(i, entries[i].merged)
  }

  /** `id_order_ok`: merged ids never decrease along the list. */
  predicate IdOrderOk(entries: seq<Entry>) {
    forall i, j :: 0 <= i < j < |entries| ==> entries[i].merged <= entries[j].merged
  }

  predicate Effective(entries: seq<Entry>, i: nat)
    requires i < |entries|
  {
    FirstIndex(entries, entries[i].left, entries[i].right) == Some(i)
  }

  /** No two deciding entries produce the same id. */
  ghost predicate DistinctIds(entries: seq<Entry>) {
    forall i: nat, j: nat :: i < j < |entries| && Effective(entries, i) && Effective(entries, j) ==>
      entries[i].merged != entries[j].merged
  }

  /** The scan for a first decrease that decides which merge table the loader builds. */
  method CheckIdOrder(entries: seq<Entry>) returns (ok: bool)
    ensures ok <==> IdOrderOk(entries)
  {
    if entries == [] {
      return true;
    }
    for i := 1 to |entries|
      invariant forall j, k :: 0 <= j < k < i ==> entries[j].merged <= entries[k].merged
    {
      if entries[i].merged < entries[i - 1].merged {
        return false;
      }
    }
    return true;
  }

  /** What a map filled from the first `n` entries holds for a pair, `value` being what an entry stores. */
  ghost predicate Filled<V(!new)>(merges: map<(Token, Token), V>, entries: seq<Entry>, n: nat, value: nat -> V) {
    forall a: Token, b: Token ::
      var f := FirstIndex(entries, a, b);
      if f.Some? && f.value < n then (a, b) in merges && merges[(a, b)] == value(f.value) else (a, b) !in merges
  }

  lemma FilledStep<V(!new)>(merges: map<(Token, Token), V>, entries: seq<Entry>, n: nat, value: nat -> V)
    requires n < |entries| && Filled(merges, entries, n, value)
    ensures var key := (entries[n].left, entries[n].right);
      Filled(if key in merges then merges else merges[key := value(n)], entries, n + 1, value)
  {
  }

  /** Filling the merge map entry by entry, keeping the first value of a pair. */
  method BuildIdMerges(entries: seq<Entry>) returns (merges: map<(Token, Token), Token>)
    ensures forall a: Token, b: Token ::
      IdRules(entries)(a, b) == if (a, b) in merges then Rule(merges[(a, b)], merges[(a, b)]) else NoRule
  {
    merges := map[];
    ghost var value := (i: nat) => if i < |entries| then entries[i].merged else 0;
    for i := 0 to |entries|
      invariant Filled(merges, entries, i, value)
    {
      FilledStep(merges, entries, i, value);
      hide Filled;
      var e := entries[i];
      if (e.left, e.right) !in merges {
        merges := merges[(e.left, e.right) := e.merged];
      }
    }
  }

  method BuildListMerges(entries: seq<Entry>) returns (merges: map<(Token, Token), (Token, nat)>)
    ensures forall a: Token, b: Token ::
      ListRules(entries)(a, b) == if (a, b) in merges then Rule(merges[(a, b)].1, merges[(a, b)].0) else NoRule
  {
    merges := map[];
    ghost var value := (i: nat) => (if i < |entries| then entries[i].merged else 0, i);
    for i := 0 to |entries|
      invariant Filled(merges, entries, i, value)
    {
      FilledStep(merges, entries, i, value);
      hide Filled;
      var e := entries[i];
      if (e.left, e.right) !in merges {
        merges := merges[(e.left, e.right) := (e.merged, i)];
      }
    }
  }

  // ---------------------------------------------------------------------------
  // When the two priorities agree
  // ---------------------------------------------------------------------------

  /** Two tables with the same pairs and tokens that order their pairs alike. */
  ghost predicate SameOrder(r1: Rules, r2: Rules) {
    && (forall a, b :: r1(a, b).Rule? == r2(a, b).Rule?)
    && (forall a, b :: r1(a, b).Rule? ==> r1(a, b).token == r2(a, b).token)
    && (forall a, b, c, d :: r1(a, b).Rule? && r1(c, d).Rule? ==> (r1(a, b).rank < r1(c, d).rank <==> r2(a, b).rank < r2(c, d).rank))
  }

  lemma SameLeast(r1: Rules, r2: Rules, s: seq<Token>, i: int)
    requires SameOrder(r1, r2)
    ensures IsLeast(r1, s, i) <==> IsLeast(r2, s, i)
  {
    if MergesAt(r1, s, i) {
      forall j | MergesAt(r1, s, j)
        ensures MergesAt(r2, s, j) && (Before(r1, s, i, j) <==> Before(r2, s, i, j))
      {
      }
      assert forall j :: MergesAt(r2, s, j) ==> MergesAt(r1, s, j);
    }
  }

  /** Only the order of ranks matters to merging. */
  lemma {:induction false} SameOrderMerges(r1: Rules, r2: Rules, s: seq<Token>)
    requires SameOrder(r1, r2)
    ensures MergeAll(r1, s) == MergeAll(r2, s)
    decreases |s|
  {
    match Least(r1, s)
    case None =>
      assert forall j :: MergesAt(r2, s, j) ==> MergesAt(r1, s, j);
    case Some(i) =>
      SameLeast(r1, r2, s, i);
      SameOrderMerges(r1, r2, MergeAt(s, i, RuleAt(r1, s, i).token));
      MergeAllStep(r2, s, i);
  }

  lemma DistinctIdsSameOrder(entries: seq<Entry>)
    requires IdOrderOk(entries) && DistinctIds(entries)
    ensures SameOrder(IdRules(entries), ListRules(entries))
  {
    var r1, r2 := IdRules(entries), ListRules(entries);
    forall a, b, c, d | r1(a, b).Rule? && r1(c, d).Rule?
      ensures r1(a, b).rank < r1(c, d).rank <==> r2(a, b).rank < r2(c, d).rank
    {
      var i, j := FirstIndex(entries, a, b).value, FirstIndex(entries, c, d).value;
      assert Effective(entries, i) && Effective(entries, j);
    }
  }

  /** The table the loader keeps. */
  function LoadedRules(entries: seq<Entry>): Rules {
    if IdOrderOk(entries) then IdRules(entries) else ListRules(entries)
  }

  // ---------------------------------------------------------------------------
  // When the two priorities merge every input alike
  // ---------------------------------------------------------------------------

  /** Tokens are numbered after the parts they are merged from. */
  ghost predicate PartsBelow(entries: seq<Entry>) {
    forall i: nat :: i < |entries| && Effective(entries, i) ==>
      entries[i].left < entries[i].merged && entries[i].right < entries[i].merged
  }

  /** Of two deciding entries with one id, the later one can stand just before the earlier one in a text. */
  predicate Overlap(entries: seq<Entry>, i: nat, j: nat) {
    && i < j < |entries| && Effective(entries, i) && Effective(entries, j)
    && entries[i].merged == entries[j].merged && entries[j].right == entries[i].left
  }

  ghost predicate NoOverlap(entries: seq<Entry>) {
    forall i: nat, j: nat :: !Overlap(entries, i, j)
  }

  /** Where a pair stands after the pair at `p` was merged. */
  function Shifted(i: nat, p: nat): nat {
    if p < i then i - 1 else i
  }

  /** A merge at `p` leaves every pair it does not touch, and makes at most two pairs with the new token. */
  lemma PairsAfter(rules: Rules, s: seq<Token>, p: nat, t: Token, j: int)
    requires p + 1 < |s| && MergesAt(rules, MergeAt(s, p, t), j)
    ensures var s', k := MergeAt(s, p, t), if j < p then j else j + 1;
      || s'[j] == t || s'[j + 1] == t
      || (MergesAt(rules, s, k) && RuleAt(rules, s', j) == RuleAt(rules, s, k) && j == Shifted(k, p) && k != p)
  {
  }

  /** Two pairs with a token between them can be merged in either order. */
  lemma MergesCommute(s: seq<Token>, i: nat, l: nat, t: Token, u: Token)
    requires i + 1 < |s| && l + 1 < |s| && (i + 1 < l || l + 1 < i)
    ensures MergeAt(MergeAt(s, i, t), Shifted(l, i), u) == MergeAt(MergeAt(s, l, u), Shifted(i, l), t)
  {
    var x, y := MergeAt(MergeAt(s, i, t), Shifted(l, i), u), MergeAt(MergeAt(s, l, u), Shifted(i, l), t);
    assert |x| == |y|;
    assert forall k :: 0 <= k < |x| ==> x[k] == y[k];
  }

  type Marked = (seq<Token>, nat) -> bool

  /** A marked pair waits: merging the least pair instead leaves it marked, and merging it leaves that pair least. */
  ghost predicate Waits(rules: Rules, marked: Marked) {
    && (forall s, i: nat :: marked(s, i) ==> MergesAt(rules, s, i))
    && (forall s, i: nat, l: nat :: marked(s, i) && IsLeast(rules, s, l) && l != i ==> Passes(rules, marked, s, i, l))
  }

  ghost predicate Passes(rules: Rules, marked: Marked, s: seq<Token>, i: nat, l: nat)
    requires MergesAt(rules, s, i) && MergesAt(rules, s, l)
  {
    && (i + 1 < l || l + 1 < i)
    && marked(MergeAt(s, l, RuleAt(rules, s, l).token), Shifted(i, l))
    && (var s' := MergeAt(s, i, RuleAt(rules, s, i).token);
       && IsLeast(rules, s', Shifted(l, i)) && RuleAt(rules, s', Shifted(l, i)) == RuleAt(rules, s, l))
    && (var s' := MergeAt(s, l, RuleAt(rules, s, l).token);
       MergesAt(rules, s', Shifted(i, l)) && RuleAt(rules, s', Shifted(i, l)) == RuleAt(rules, s, i))
  }

  /** A pair that waits may as well be merged at once. */
  lemma {:induction false} MergeEarly(rules: Rules, marked: Marked, s: seq<Token>, i: nat)
    requires Waits(rules, marked) && marked(s, i)
    ensures MergesAt(rules, s, i) && MergeAll(rules, s) == MergeAll(rules, MergeAt(s, i, RuleAt(rules, s, i).token))
    decreases |s|
  {
    hide MergeAll;
    var l := Least(rules, s).value;
    MergeAllStep(rules, s, l);
    if l != i {
      var t, u := RuleAt(rules, s, i).token, RuleAt(rules, s, l).token;
      assert Passes(rules, marked, s, i, l);
      hide Waits, IsLeast;
      MergeEarly(rules, marked, MergeAt(s, l, u), Shifted(i, l));
      MergeAllStep(rules, MergeAt(s, i, t), Shifted(l, i));
      MergesCommute(s, i, l, t, u);
    }
  }

  /** The pair after `i` has the same id and comes before it in the list. */
  predicate Overlapped(entries: seq<Entry>, s: seq<Token>, i: nat) {
    var r := ListRules(entries);
    && MergesAt(r, s, i) && MergesAt(r, s, i + 1)
    && RuleAt(r, s, i + 1).token == RuleAt(r, s, i).token && RuleAt(r, s, i + 1).rank < RuleAt(r, s, i).rank
  }

  /** Both tables have the same pairs; the list refines the order of the ids. */
  lemma ListRefinesIds(entries: seq<Entry>, a: Token, b: Token, c: Token, d: Token)
    requires IdOrderOk(entries)
    ensures var r1, r2 := IdRules(entries), ListRules(entries);
      && r1(a, b).Rule? == r2(a, b).Rule?
      && (r1(a, b).Rule? ==> r1(a, b).token == r2(a, b).token == r1(a, b).rank)
      && (r1(a, b).Rule? && r1(c, d).Rule? && r2(a, b).rank <= r2(c, d).rank ==> r1(a, b).rank <= r1(c, d).rank)
      && (r1(a, b).Rule? && r1(c, d).Rule? && r2(a, b).rank == r2(c, d).rank ==> a == c && b == d)
  {
  }

  lemma NewPairsAbove(entries: seq<Entry>, a: Token, b: Token)
    requires PartsBelow(entries) && IdRules(entries)(a, b).Rule?
    ensures a < IdRules(entries)(a, b).rank && b < IdRules(entries)(a, b).rank
  {
    var i := FirstIndex(entries, a, b).value;
    assert Effective(entries, i);
  }

  /** Every pair with the token `t` ranks above `rank`. */
  ghost predicate EntersAbove(rules: Rules, s: seq<Token>, t: Token, rank: nat) {
    forall j :: MergesAt(rules, s, j) && t in s[j..j + 2] ==> RuleAt(rules, s, j).rank > rank
  }

  /** A least pair stays least when a pair apart from it is merged into a token that only enters later merges. */
  lemma LeastStays(rules: Rules, s: seq<Token>, l: nat, p: nat, t: Token)
    requires IsLeast(rules, s, l) && MergesAt(rules, s, p) && (l + 1 < p || p + 1 < l)
    requires EntersAbove(rules, MergeAt(s, p, t), t, RuleAt(rules, s, l).rank)
    ensures IsLeast(rules, MergeAt(s, p, t), Shifted(l, p))
    ensures RuleAt(rules, MergeAt(s, p, t), Shifted(l, p)) == RuleAt(rules, s, l)
  {
    var s', l' := MergeAt(s, p, t), Shifted(l, p);
    assert s'[l'] == s[l] && s'[l' + 1] == s[l + 1];
    forall j | MergesAt(rules, s', j) && j != l'
      ensures Before(rules, s', l', j)
    {
      PairsAfter(rules, s, p, t, j);
      if s'[j] != t && s'[j + 1] != t {
        assert Before(rules, s, l, if j < p then j else j + 1);
      }
    }
  }

  lemma IdEntersAbove(entries: seq<Entry>, s: seq<Token>, m: Token)
    requires PartsBelow(entries)
    ensures EntersAbove(IdRules(entries), s, m, m)
  {
    hide PartsBelow, IdRules;
    var rules := IdRules(entries);
    forall j | MergesAt(rules, s, j) && m in s[j..j + 2]
      ensures RuleAt(rules, s, j).rank > m
    {
      NewPairsAbove(entries, s[j], s[j + 1]);
    }
  }

  lemma ListEntersAbove(entries: seq<Entry>, s: seq<Token>, m: Token, a: Token, b: Token)
    requires IdOrderOk(entries) && PartsBelow(entries)
    requires ListRules(entries)(a, b).Rule? && ListRules(entries)(a, b).token == m
    ensures EntersAbove(ListRules(entries), s, m, ListRules(entries)(a, b).rank)
  {
    hide IdOrderOk, PartsBelow, IdRules, ListRules;
    SameIdTokens(entries, a, b);
    var rules := ListRules(entries);
    forall j | MergesAt(rules, s, j) && m in s[j..j + 2]
      ensures RuleAt(rules, s, j).rank > rules(a, b).rank
    {
      SameIdTokens(entries, s[j], s[j + 1]);
      NewPairsAbove(entries, s[j], s[j + 1]);
      ListRefinesIds(entries, s[j], s[j + 1], a, b);
    }
  }

  ghost function FirstOfId(entries: seq<Entry>): Marked {
    (s: seq<Token>, i: nat) => IsLeast(IdRules(entries), s, i) && !Overlapped(entries, s, i)
  }

  /** If the list would merge another pair first, that pair has the same id and lies apart, further on. */
  lemma FirstOfIdApart(entries: seq<Entry>, s: seq<Token>, i: nat, l: nat)
    requires IdOrderOk(entries) && IsLeast(IdRules(entries), s, i) && !Overlapped(entries, s, i)
    requires IsLeast(ListRules(entries), s, l) && l != i
    ensures i + 1 < l && MergesAt(ListRules(entries), s, i)
    ensures RuleAt(ListRules(entries), s, i).token == RuleAt(IdRules(entries), s, i).rank == RuleAt(ListRules(entries), s, l).token
    ensures RuleAt(IdRules(entries), s, l) == RuleAt(IdRules(entries), s, i)
  {
    hide IdOrderOk, IdRules, ListRules;
    var r1, r2 := IdRules(entries), ListRules(entries);
    ListRefinesIds(entries, s[i], s[i + 1], s[l], s[l + 1]);
    ListRefinesIds(entries, s[l], s[l + 1], s[i], s[i + 1]);
    assert Before(r2, s, l, i) && Before(r1, s, i, l);
  }

  lemma SameIdTokens(entries: seq<Entry>, a: Token, b: Token)
    ensures IdRules(entries)(a, b).Rule? == ListRules(entries)(a, b).Rule?
    ensures IdRules(entries)(a, b).Rule? ==> IdRules(entries)(a, b).token == IdRules(entries)(a, b).rank == ListRules(entries)(a, b).token
  {
  }

  lemma FirstOfIdPasses(entries: seq<Entry>, s: seq<Token>, i: nat, l: nat)
    requires IdOrderOk(entries) && PartsBelow(entries)
    requires FirstOfId(entries)(s, i) && MergesAt(ListRules(entries), s, i)
    requires IsLeast(ListRules(entries), s, l) && l != i
    ensures Passes(ListRules(entries), FirstOfId(entries), s, i, l)
  {
    hide IdOrderOk, IdRules, ListRules, PartsBelow;
    var r1, r2 := IdRules(entries), ListRules(entries);
    FirstOfIdApart(entries, s, i, l);
    var m := RuleAt(r2, s, i).token;
    var si, sl := MergeAt(s, i, m), MergeAt(s, l, m);
    IdEntersAbove(entries, sl, m);
    LeastStays(r1, s, i, l, m);
    ListEntersAbove(entries, si, m, s[l], s[l + 1]);
    LeastStays(r2, s, l, i, m);
    if Overlapped(entries, sl, i) {
      assert sl[i] == s[i] && sl[i + 1] == s[i + 1];
      SameIdTokens(entries, sl[i + 1], sl[i + 2]);
      NewPairsAbove(entries, sl[i + 1], sl[i + 2]);
    }
  }

  lemma FirstOfIdWaits(entries: seq<Entry>)
    requires IdOrderOk(entries) && PartsBelow(entries)
    ensures Waits(ListRules(entries), FirstOfId(entries))
  {
    hide IdOrderOk, PartsBelow, Passes, IdRules, ListRules;
    var r2, marked := ListRules(entries), FirstOfId(entries);
    forall s, i: nat | marked(s, i) ensures MergesAt(r2, s, i) {
      SameIdTokens(entries, s[i], s[i + 1]);
    }
    forall s, i: nat, l: nat | marked(s, i) && IsLeast(r2, s, l) && l != i ensures Passes(r2, marked, s, i, l) {
      FirstOfIdPasses(entries, s, i, l);
    }
  }

  /** Without an overlap, merging by ids is merging by the list. */
  lemma {:induction false} NoOverlapMergesAlike(entries: seq<Entry>, s: seq<Token>)
    requires IdOrderOk(entries) && PartsBelow(entries) && NoOverlap(entries)
    ensures MergeAll(IdRules(entries), s) == MergeAll(ListRules(entries), s)
    decreases |s|
  {
    hide MergeAll, PartsBelow, IdOrderOk;
    var r1, r2 := IdRules(entries), ListRules(entries);
    match Least(r1, s)
    case None =>
      StuckAlike(entries, s);
    case Some(i) =>
      assert !Overlapped(entries, s, i) by { NotOverlapped(entries, s, i); }
      FirstOfIdWaits(entries);
      MergeAllStep(r1, s, i);
      MergeEarly(r2, FirstOfId(entries), s, i);
      SameIdTokens(entries, s[i], s[i + 1]);
      NoOverlapMergesAlike(entries, MergeAt(s, i, RuleAt(r1, s, i).token));
  }

  lemma NotOverlapped(entries: seq<Entry>, s: seq<Token>, i: nat)
    requires NoOverlap(entries)
    ensures !Overlapped(entries, s, i)
  {
    if Overlapped(entries, s, i) {
      var k, j := RuleAt(ListRules(entries), s, i + 1).rank, RuleAt(ListRules(entries), s, i).rank;
      assert Overlap(entries, k, j);
    }
  }
  /** When the loaded table merges every input in merge-list order, whichever table was chosen. */
  lemma LoadedMergesInListOrder(entries: seq<Entry>, s: seq<Token>)
    requires IdOrderOk(entries) ==> DistinctIds(entries) || (PartsBelow(entries) && NoOverlap(entries))
    ensures MergeAll(LoadedRules(entries), s) == MergeAll(ListRules(entries), s)
  {
    if IdOrderOk(entries) {
      if DistinctIds(entries) {
        DistinctIdsSameOrder(entries);
        SameOrderMerges(IdRules(entries), ListRules(entries), s);
      } else {
        NoOverlapMergesAlike(entries, s);
      }
    }
  }

  lemma StrictIdsAreDistinct(entries: seq<Entry>)
    requires forall i, j :: 0 <= i < j < |entries| ==> entries[i].merged < entries[j].merged
    ensures IdOrderOk(entries) && DistinctIds(entries)
  {
  }

  lemma MergeTwo(rules: Rules, a: Token, b: Token)
    ensures MergeAll(rules, [a, b]) == if rules(a, b).Rule? then [rules(a, b).token] else [a, b]
  {
    var s := [a, b];
    if rules(a, b).Rule? {
      assert IsLeast(rules, s, 0);
      assert MergeAt(s, 0, rules(a, b).token) == [rules(a, b).token];
      MergeAllStep(rules, s, 0);
      MergeAllDone(rules, [rules(a, b).token]);
    } else {
      MergeAllDone(rules, s);
    }
  }

  /** Both pairs of an overlap, in a text of three tokens. */
  function Contested(entries: seq<Entry>, i: nat, j: nat): seq<Token>
    requires i < |entries| && j < |entries|
  {
    [entries[j].left, entries[i].left, entries[i].right]
  }

  lemma ContestedMerges(entries: seq<Entry>, i: nat, j: nat)
    requires Overlap(entries, i, j)
    ensures var s, m := Contested(entries, i, j), entries[i].merged;
      && MergeAll(IdRules(entries), s) == MergeAll(IdRules(entries), [m, s[2]])
      && MergeAll(ListRules(entries), s) == MergeAll(ListRules(entries), [s[0], m])
  {
    var s, m, r1, r2 := Contested(entries, i, j), entries[i].merged, IdRules(entries), ListRules(entries);
    assert MergeAt(s, 0, m) == [m, s[2]] && MergeAt(s, 1, m) == [s[0], m];
    assert r2(s[0], s[1]) == Rule(j, m) && r2(s[1], s[2]) == Rule(i, m);
    hide MergeAll;
    assert IsLeast(r1, s, 0) && IsLeast(r2, s, 1);
    MergeAllStep(r1, s, 0);
    MergeAllStep(r2, s, 1);
  }

  /** Both choices of an overlap merge on into one token. */
  predicate JoinsOn(entries: seq<Entry>, i: nat, j: nat)
    requires Overlap(entries, i, j)
  {
    var r, m := ListRules(entries), entries[i].merged;
    var one, other := r(m, entries[i].right), r(entries[j].left, m);
    one.Rule? && other.Rule? && one.token == other.token
  }

  /** The two priorities merge a contested text alike exactly when both results merge on into one token. */
  lemma ContestedAlike(entries: seq<Entry>, i: nat, j: nat)
    requires PartsBelow(entries) && Overlap(entries, i, j)
    ensures var s := Contested(entries, i, j);
      MergeAll(IdRules(entries), s) == MergeAll(ListRules(entries), s) <==> JoinsOn(entries, i, j)
  {
    var s, m := Contested(entries, i, j), entries[i].merged;
    ContestedMerges(entries, i, j);
    assert s[0] < m;
    hide IdRules, ListRules;
    MergeTwo(IdRules(entries), m, s[2]);
    MergeTwo(ListRules(entries), s[0], m);
    SameIdTokens(entries, m, s[2]);
  }

  lemma {:induction false} FirstIndexOfPrefix(entries: seq<Entry>, n: nat, a: Token, b: Token)
    requires n <= |entries|
    ensures FirstIndex(entries[..n], a, b) == var f := FirstIndex(entries, a, b); if f.Some? && f.value < n then f else None
  {
    var f, g := FirstIndex(entries, a, b), FirstIndex(entries[..n], a, b);
    assert g.Some? ==> entries[..n][g.value] == entries[g.value];
    assert f.Some? && f.value < n ==> entries[..n][f.value] == entries[f.value];
  }

  lemma PrefixKeeps(entries: seq<Entry>, n: nat)
    requires n <= |entries| && IdOrderOk(entries) && PartsBelow(entries)
    ensures IdOrderOk(entries[..n]) && PartsBelow(entries[..n])
    ensures forall i: nat, j: nat :: Overlap(entries[..n], i, j) <==> Overlap(entries, i, j) && j < n
  {
    hide FirstIndex;
    forall i: nat | i < n ensures Effective(entries[..n], i) <==> Effective(entries, i) {
      FirstIndexOfPrefix(entries, n, entries[i].left, entries[i].right);
    }
  }

  /** The id a list makes last is part of no pair. */
  lemma LastIdMergesNothing(entries: seq<Entry>, b: Token)
    requires IdOrderOk(entries) && PartsBelow(entries) && entries != []
    ensures ListRules(entries)(entries[|entries| - 1].merged, b) == NoRule
  {
    var f := FirstIndex(entries, entries[|entries| - 1].merged, b);
    assert f.Some? ==> Effective(entries, f.value);
  }

  lemma OverlapOfPrefix(entries: seq<Entry>, i: nat, j: nat)
    requires IdOrderOk(entries) && PartsBelow(entries) && Overlap(entries, i, j)
    ensures i < j < |entries| && Overlap(entries[..j + 1], i, j)
    ensures var made := entries[..j + 1];
      made != [] && made[|made| - 1].merged == entries[i].merged && Contested(made, i, j) == Contested(entries, i, j)
  {
    hide FirstIndex, PartsBelow;
    PrefixKeeps(entries, j + 1);
  }

  /** An overlap shows as soon as the list reaches it: nothing merges on from the id it has just made. */
  lemma OverlapShows(entries: seq<Entry>, i: nat, j: nat)
    requires IdOrderOk(entries) && PartsBelow(entries) && Overlap(entries, i, j)
    ensures i < j < |entries|
    ensures var made, s := entries[..j + 1], Contested(entries, i, j);
      MergeAll(LoadedRules(made), s) != MergeAll(ListRules(made), s)
  {
    hide *;
    OverlapOfPrefix(entries, i, j);
    var made := entries[..j + 1];
    PrefixKeeps(entries, j + 1);
    ContestedAlike(made, i, j);
    LastIdMergesNothing(made, made[i].right);
    NotJoined(made, i, j);
    LoadedById(made);
  }

  lemma NotJoined(entries: seq<Entry>, i: nat, j: nat)
    requires Overlap(entries, i, j) && ListRules(entries)(entries[i].merged, entries[i].right) == NoRule
    ensures !JoinsOn(entries, i, j)
  {
  }

  lemma LoadedById(entries: seq<Entry>)
    requires IdOrderOk(entries)
    ensures LoadedRules(entries) == IdRules(entries)
  {
  }

  /** Every beginning of a merge list, loaded, merges every input in list order exactly when the list has no overlap. */
  lemma LoadedInListOrderIffNoOverlap(entries: seq<Entry>)
    requires IdOrderOk(entries) && PartsBelow(entries)
    ensures (forall n: nat, s: seq<Token> :: n <= |entries| ==> MergeAll(LoadedRules(entries[..n]), s) == MergeAll(ListRules(entries[..n]), s))
      <==> NoOverlap(entries)
  {
    hide IdOrderOk, PartsBelow, LoadedRules, ListRules, MergeAll, Overlap;
    if NoOverlap(entries) {
      forall n: nat, s: seq<Token> | n <= |entries|
        ensures MergeAll(LoadedRules(entries[..n]), s) == MergeAll(ListRules(entries[..n]), s)
      {
        PrefixKeeps(entries, n);
        LoadedMergesInListOrder(entries[..n], s);
      }
    } else {
      var i: nat, j: nat :| Overlap(entries, i, j);
      OverlapShows(entries, i, j);
      OverlapInside(entries, i, j);
    }
  }

  /** For the whole list alone, the condition is between these two: no overlap, and no overlap that does not join on. */
  lemma WholeListInListOrder(entries: seq<Entry>)
    requires IdOrderOk(entries) && PartsBelow(entries)
    ensures NoOverlap(entries) ==> forall s :: MergeAll(LoadedRules(entries), s) == MergeAll(ListRules(entries), s)
    ensures (forall s :: MergeAll(LoadedRules(entries), s) == MergeAll(ListRules(entries), s)) ==>
      forall i: nat, j: nat :: Overlap(entries, i, j) ==> JoinsOn(entries, i, j)
  {
    hide PartsBelow, IdRules, ListRules, MergeAll, Overlap, JoinsOn;
    if NoOverlap(entries) {
      forall s ensures MergeAll(LoadedRules(entries), s) == MergeAll(ListRules(entries), s) {
        LoadedMergesInListOrder(entries, s);
      }
    }
    forall i: nat, j: nat | Overlap(entries, i, j) && !JoinsOn(entries, i, j)
      ensures exists s :: MergeAll(LoadedRules(entries), s) != MergeAll(ListRules(entries), s)
    {
      OverlapInside(entries, i, j);
      ContestedAlike(entries, i, j);
      assert MergeAll(LoadedRules(entries), Contested(entries, i, j)) != MergeAll(ListRules(entries), Contested(entries, i, j));
    }
  }

  lemma OverlapInside(entries: seq<Entry>, i: nat, j: nat)
    requires Overlap(entries, i, j)
    ensures i < j < |entries|
  {
  }

  // ---------------------------------------------------------------------------
  // An overlap that no later merge lets through
  // ---------------------------------------------------------------------------

  /** 0, 1, 2 spell "pq", "p", "qp": 1+2 and 0+1 both spell "pqp", and 0+4 and 4+2 join either choice. */
  const Harmless: seq<Entry> := [Entry(0, 0, 3), Entry(1, 2, 4), Entry(0, 1, 4), Entry(0, 4, 5), Entry(4, 2, 5)]

  lemma FirstIndexFrom(entries: seq<Entry>, k: nat, a: Token, b: Token)
    requires k < |entries|
    ensures FirstIndex(entries[k..], a, b) ==
      if entries[k].left == a && entries[k].right == b then Some(0)
      else var rest := FirstIndex(entries[k + 1..], a, b); if rest.Some? then Some(rest.value + 1) else None
  {
    assert entries[k..][1..] == entries[k + 1..];
  }

  lemma HarmlessRules(a: Token, b: Token)
    ensures FirstIndex(Harmless, a, b) ==
      if a == 0 && b == 0 then Some(0) else if a == 1 && b == 2 then Some(1) else if a == 0 && b == 1 then Some(2)
      else if a == 0 && b == 4 then Some(3) else if a == 4 && b == 2 then Some(4) else None
  {
    hide FirstIndex;
    FirstIndexFrom(Harmless, 0, a, b);
    FirstIndexFrom(Harmless, 1, a, b);
    FirstIndexFrom(Harmless, 2, a, b);
    FirstIndexFrom(Harmless, 3, a, b);
    FirstIndexFrom(Harmless, 4, a, b);
    assert Harmless[0..] == Harmless;
    FirstIndexOfPrefix([], 0, a, b);
  }

  /** A pair that becomes 5, with no 0 before it. */
  ghost function Fifth(): Marked {
    (s: seq<Token>, i: nat) =>
      && MergesAt(ListRules(Harmless), s, i) && RuleAt(ListRules(Harmless), s, i).token == 5
      && (i > 0 ==> s[i - 1] != 0)
  }

  lemma HarmlessRule(a: Token, b: Token)
    ensures ListRules(Harmless)(a, b) ==
      if a == 0 && b == 0 then Rule(0, 3) else if a == 1 && b == 2 then Rule(1, 4) else if a == 0 && b == 1 then Rule(2, 4)
      else if a == 0 && b == 4 then Rule(3, 5) else if a == 4 && b == 2 then Rule(4, 5) else NoRule
  {
    hide FirstIndex;
    HarmlessRules(a, b);
  }

  lemma FifthPasses(s: seq<Token>, i: nat, l: nat)
    requires Fifth()(s, i) && IsLeast(ListRules(Harmless), s, l) && l != i
    ensures Passes(ListRules(Harmless), Fifth(), s, i, l)
  {
    hide ListRules, Harmless;
    var r := ListRules(Harmless);
    HarmlessRule(s[i], s[i + 1]);
    HarmlessRule(s[l], s[l + 1]);
    assert Before(r, s, l, i);
    var u := RuleAt(r, s, l).token;
    var si, sl := MergeAt(s, i, 5), MergeAt(s, l, u);
    FifthEntersNothing(si);
    LeastStays(r, s, l, i, 5);
    var k := Shifted(i, l);
    assert sl[k] == s[i] && sl[k + 1] == s[i + 1];
    assert k > 0 ==> sl[k - 1] == u || (sl[k - 1] == s[i - 1] && i > 0);
  }

  lemma FifthEntersNothing(s: seq<Token>)
    ensures forall rank: nat :: EntersAbove(ListRules(Harmless), s, 5, rank)
  {
    hide ListRules;
    forall j | MergesAt(ListRules(Harmless), s, j) && 5 in s[j..j + 2] ensures false {
      HarmlessRule(s[j], s[j + 1]);
    }
  }

  lemma FifthEarly(s: seq<Token>, i: nat)
    requires Fifth()(s, i)
    ensures MergeAll(ListRules(Harmless), s) == MergeAll(ListRules(Harmless), MergeAt(s, i, 5))
  {
    hide ListRules, Harmless;
    forall s, i: nat, l: nat | Fifth()(s, i) && IsLeast(ListRules(Harmless), s, l) && l != i
      ensures Passes(ListRules(Harmless), Fifth(), s, i, l)
    {
      FifthPasses(s, i, l);
    }
    MergeEarly(ListRules(Harmless), Fifth(), s, i);
  }

  lemma HarmlessLoads()
    ensures IdOrderOk(Harmless) && PartsBelow(Harmless) && Overlap(Harmless, 1, 2)
  {
    hide FirstIndex;
    forall i: nat | i < |Harmless| ensures FirstIndex(Harmless, Harmless[i].left, Harmless[i].right) == Some(i) {
      HarmlessRules(Harmless[i].left, Harmless[i].right);
    }
  }

  /** Merging three tokens to one, either pair first. */
  lemma JoinedAlike(s: seq<Token>, i: nat, t: Token, u: Token)
    requires i + 2 < |s|
    ensures MergeAt(MergeAt(s, i, t), i, u) == MergeAt(MergeAt(s, i + 1, t), i, u)
  {
    var joined := s[..i] + [u] + s[i + 3..];
    assert MergeAt(MergeAt(s, i, t), i, u) == joined;
    assert MergeAt(MergeAt(s, i + 1, t), i, u) == joined;
  }

  /** Where the list and the ids part, both choices come to 5. */
  lemma HarmlessChoice(s: seq<Token>, i: nat)
    requires IsLeast(IdRules(Harmless), s, i) && Overlapped(Harmless, s, i)
    ensures MergeAll(ListRules(Harmless), s) == MergeAll(ListRules(Harmless), MergeAt(s, i, 4))
    ensures RuleAt(IdRules(Harmless), s, i).token == 4
  {
    hide IdRules, ListRules, MergeAll;
    var r := ListRules(Harmless);
    SameIdTokens(Harmless, s[i], s[i + 1]);
    HarmlessRule(s[i], s[i + 1]);
    HarmlessRule(s[i + 1], s[i + 2]);
    assert s[i..i + 3] == [0, 1, 2];
    NoZeroBefore(s, i);
    HarmlessListPick(s, i);
    MergeAllStep(r, s, i + 1);
    var byIds, byList := MergeAt(s, i, 4), MergeAt(s, i + 1, 4);
    HarmlessRule(0, 4);
    HarmlessRule(4, 2);
    assert byIds[i] == 4 && byIds[i + 1] == 2 && byList[i] == 0 && byList[i + 1] == 4;
    FifthEarly(byIds, i);
    FifthEarly(byList, i);
    JoinedAlike(s, i, 4, 5);
  }

  lemma NoZeroBefore(s: seq<Token>, i: nat)
    requires IsLeast(IdRules(Harmless), s, i) && RuleAt(IdRules(Harmless), s, i).rank == 4 && s[i] == 0
    ensures i > 0 ==> s[i - 1] != 0
  {
    hide IdRules;
    HarmlessRule(0, 0);
    SameIdTokens(Harmless, 0, 0);
    assert MergesAt(IdRules(Harmless), s, i - 1) ==> Before(IdRules(Harmless), s, i, i - 1);
  }

  lemma HarmlessListPick(s: seq<Token>, i: nat)
    requires IsLeast(IdRules(Harmless), s, i) && i + 2 < |s| && s[i..i + 3] == [0, 1, 2]
    ensures IsLeast(ListRules(Harmless), s, i + 1) && RuleAt(ListRules(Harmless), s, i + 1).token == 4
  {
    hide IdRules, ListRules;
    var r1, r2 := IdRules(Harmless), ListRules(Harmless);
    HarmlessRule(0, 1);
    HarmlessRule(1, 2);
    SameIdTokens(Harmless, 0, 1);
    assert s[i] == 0 && s[i + 1] == 1 && s[i + 2] == 2;
    forall j | MergesAt(r2, s, j) && j != i + 1 ensures Before(r2, s, i + 1, j) {
      HarmlessRule(s[j], s[j + 1]);
      SameIdTokens(Harmless, s[j], s[j + 1]);
      if j != i {
        assert Before(r1, s, i, j);
      }
    }
  }

  lemma HarmlessStep(s: seq<Token>, i: nat)
    requires IsLeast(IdRules(Harmless), s, i)
    ensures var t := RuleAt(IdRules(Harmless), s, i).token;
      MergeAll(ListRules(Harmless), s) == MergeAll(ListRules(Harmless), MergeAt(s, i, t))
  {
    hide IdOrderOk, PartsBelow, Overlap, IdRules, ListRules, Overlapped;
    if Overlapped(Harmless, s, i) {
      HarmlessChoice(s, i);
    } else {
      HarmlessLoads();
      FirstOfIdWaits(Harmless);
      MergeEarly(ListRules(Harmless), FirstOfId(Harmless), s, i);
      SameIdTokens(Harmless, s[i], s[i + 1]);
    }
  }

  lemma StuckAlike(entries: seq<Entry>, s: seq<Token>)
    requires Stuck(IdRules(entries), s)
    ensures MergeAll(IdRules(entries), s) == MergeAll(ListRules(entries), s)
  {
    forall j ensures !MergesAt(ListRules(entries), s, j) {
      assert !MergesAt(IdRules(entries), s, j);
    }
    MergeAllDone(IdRules(entries), s);
    MergeAllDone(ListRules(entries), s);
  }

  lemma {:induction false} HarmlessMergesAlike(s: seq<Token>)
    ensures MergeAll(IdRules(Harmless), s) == MergeAll(ListRules(Harmless), s)
    decreases |s|
  {
    hide IdRules, ListRules;
    match Least(IdRules(Harmless), s)
    case None =>
      StuckAlike(Harmless, s);
    case Some(i) =>
      MergeAllStep(IdRules(Harmless), s, i);
      HarmlessStep(s, i);
      HarmlessMergesAlike(MergeAt(s, i, RuleAt(IdRules(Harmless), s, i).token));
  }

  /** A list with an overlap whose two tables merge every input alike: later merges may hide an overlap. */
  lemma OverlapMayBeHarmless()
    ensures IdOrderOk(Harmless) && PartsBelow(Harmless) && !NoOverlap(Harmless)
    ensures forall s: seq<Token> :: MergeAll(LoadedRules(Harmless), s) == MergeAll(ListRules(Harmless), s)
  {
    hide IdOrderOk, PartsBelow, Overlap, IdRules, ListRules, MergeAll;
    HarmlessLoads();
    forall s: seq<Token> ensures MergeAll(LoadedRules(Harmless), s) == MergeAll(ListRules(Harmless), s) {
      HarmlessMergesAlike(s);
    }
  }

  // ---------------------------------------------------------------------------
  // Where the priorities differ
  // ---------------------------------------------------------------------------

  const A: Token := 0
  const AAA: Token := 1
  const AAAA: Token := 2

  /** "aaa"+"a" before "a"+"aaa", both spelling "aaaa". */
  const SharedId: seq<Entry> := [Entry(AAA, A, AAAA), Entry(A, AAA, AAAA)]

  /** The loader accepts this list for id priority, yet the two priorities merge a, aaa, a differently. */
  lemma SharedIdMergesDiffer()
    ensures MergeAll(LoadedRules(SharedId), [A, AAA, A]) == [AAAA, A]
    ensures MergeAll(ListRules(SharedId), [A, AAA, A]) == [A, AAAA]
  {
    hide FirstIndex, MergeAll;
    SharedIdIndex(AAA, A);
    SharedIdIndex(A, AAA);
    SharedIdIndex(AAAA, A);
    SharedIdIndex(A, AAAA);
    assert Contested(SharedId, 0, 1) == [A, AAA, A];
    ContestedMerges(SharedId, 0, 1);
    MergeTwo(IdRules(SharedId), AAAA, A);
    MergeTwo(ListRules(SharedId), A, AAAA);
  }

  lemma SharedIdIndex(a: Token, b: Token)
    ensures FirstIndex(SharedId, a, b) == if a == AAA && b == A then Some(0) else if a == A && b == AAA then Some(1) else None
  {
    hide FirstIndex;
    FirstIndexFrom(SharedId, 0, a, b);
    FirstIndexFrom(SharedId, 1, a, b);
    assert SharedId[0..] == SharedId;
    FirstIndexOfPrefix([], 0, a, b);
  }

  /** 1 is made from 7 and 6, a part above it. */
  const PartAbove: seq<Entry> := [Entry(7, 6, 1), Entry(4, 1, 4), Entry(4, 5, 6), Entry(2, 7, 6)]

  /** With a part above its merged id, the order of the list can matter without any overlap. */
  lemma PartAboveMergesDiffer()
    ensures IdOrderOk(PartAbove) && NoOverlap(PartAbove)
    ensures MergeAll(LoadedRules(PartAbove), [2, 7, 4, 5]) == [6, 6]
    ensures MergeAll(ListRules(PartAbove), [2, 7, 4, 5]) == [2, 1]
  {
    hide FirstIndex, MergeAll, IdRules, ListRules;
    PartAboveByIds();
    PartAboveByList();
  }

  lemma PartAboveByIds()
    ensures MergeAll(IdRules(PartAbove), [2, 7, 4, 5]) == [6, 6]
  {
    hide FirstIndex, MergeAll;
    var r, s := IdRules(PartAbove), [2, 7, 4, 5];
    PartAboveIndex(2, 7);
    PartAboveIndex(7, 4);
    PartAboveIndex(4, 5);
    PartAboveIndex(6, 4);
    PartAboveIndex(6, 6);
    assert IsLeast(r, s, 0) && MergeAt(s, 0, 6) == [6, 4, 5];
    MergeAllStep(r, s, 0);
    assert IsLeast(r, [6, 4, 5], 1) && MergeAt([6, 4, 5], 1, 6) == [6, 6];
    MergeAllStep(r, [6, 4, 5], 1);
    MergeTwo(r, 6, 6);
  }

  lemma PartAboveByList()
    ensures MergeAll(ListRules(PartAbove), [2, 7, 4, 5]) == [2, 1]
  {
    hide FirstIndex, MergeAll;
    var r, s := ListRules(PartAbove), [2, 7, 4, 5];
    PartAboveIndex(2, 7);
    PartAboveIndex(7, 4);
    PartAboveIndex(4, 5);
    PartAboveIndex(7, 6);
    PartAboveIndex(2, 1);
    assert IsLeast(r, s, 2) && MergeAt(s, 2, 6) == [2, 7, 6];
    MergeAllStep(r, s, 2);
    assert IsLeast(r, [2, 7, 6], 1) && MergeAt([2, 7, 6], 1, 1) == [2, 1];
    MergeAllStep(r, [2, 7, 6], 1);
    MergeTwo(r, 2, 1);
  }

  predicate PartAboveAt(a: Token, b: Token) {
    FirstIndex(PartAbove, a, b) ==
      if a == 7 && b == 6 then Some(0) else if a == 4 && b == 1 then Some(1) else if a == 4 && b == 5 then Some(2)
      else if a == 2 && b == 7 then Some(3) else None
  }

  lemma PartAboveIndex(a: Token, b: Token)
    ensures PartAboveAt(a, b)
  {
    hide FirstIndex;
    FirstIndexFrom(PartAbove, 0, a, b);
    FirstIndexFrom(PartAbove, 1, a, b);
    FirstIndexFrom(PartAbove, 2, a, b);
    FirstIndexFrom(PartAbove, 3, a, b);
    assert PartAbove[0..] == PartAbove;
    FirstIndexOfPrefix([], 0, a, b);
  }
}
