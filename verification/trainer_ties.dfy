/** Choosing the pair to merge: the queue's maximum, ties broken by the remapped ids. */
module TrainerTies {
  import opened MergeSpec
  import opened TrainerWords
  import opened TrainerUpdate

  // ---------------------------------------------------------------------------
  // The rank of a byte in HuggingFace's initial vocabulary
  // ---------------------------------------------------------------------------

  predicate Allowed(b: nat) {
    33 <= b <= 126 || 161 <= b <= 172 || 174 <= b <= 255
  }

  /** Bytes below `b` that have no codepoint of their own. */
  function Skipped(b: nat): nat {
    if b == 0 then 0 else Skipped(b - 1) + if Allowed(b - 1) then 0 else 1
  }

  /** The ByteLevel codepoint of a byte. */
  function Codepoint(b: nat): nat {
    if Allowed(b) then b else 256 + Skipped(b)
  }

  lemma {:induction false} SkippedGrows(a: nat, b: nat)
    requires a < b && !Allowed(a)
    ensures Skipped(a) < Skipped(b)
  {
    if a < b - 1 {
      SkippedGrows(a, b - 1);
    }
  }

  lemma {:induction false} SkippedIs(b: nat)
    requires b <= 256
    ensures Skipped(b) == if b <= 33 then b else if b <= 127 then 33 else if b <= 161 then b - 94 else if b <= 173 then 67 else 68
  {
    if b > 0 {
      SkippedIs(b - 1);
    }
  }

  /** The ByteLevel alphabet: printable bytes are their own characters, the other 68 are U+0100 to U+0143, in order. */
  lemma CodepointIs(b: nat)
    requires b < 256
    ensures Codepoint(b) ==
      if b < 33 then 0x100 + b
      else if b < 127 then b
      else if b < 161 then 0x121 + (b - 127)
      else if b == 173 then 0x143
      else b
  {
    hide Skipped;
    SkippedIs(b);
  }

  /** No two bytes share a codepoint. */
  lemma CodepointInjective(a: nat, b: nat)
    requires a < b < 256
    ensures Codepoint(a) != Codepoint(b)
  {
    if !Allowed(a) {
      SkippedGrows(a, b);
    }
  }

  ghost predicate SortedBytes(sorted: seq<nat>, n: nat) {
    && |sorted| == n
    && (forall i :: 0 <= i < n ==> sorted[i] < n)
    && (forall b :: 0 <= b < n ==> b in sorted)
    && (forall i, j :: 0 <= i < j < n ==> Codepoint(sorted[i]) < Codepoint(sorted[j]))
  }

  lemma InsertByte(sorted: seq<nat>, n: nat, k: nat)
    requires n < 256 && SortedBytes(sorted, n) && k <= n
    requires k > 0 ==> Codepoint(sorted[k - 1]) < Codepoint(n)
    requires forall j :: k <= j < n ==> Codepoint(sorted[j]) > Codepoint(n)
    ensures SortedBytes(sorted[..k] + [n] + sorted[k..], n + 1)
  {
    hide Codepoint;
    var r := sorted[..k] + [n] + sorted[k..];
    forall b | 0 <= b < n + 1 ensures b in r {
      if b < n {
        assert b in sorted;
        var i :| 0 <= i < n && sorted[i] == b;
        assert r[if i < k then i else i + 1] == b;
      } else {
        assert r[k] == b;
      }
    }
    InsertOrdered(sorted, n, k);
  }

  lemma InsertOrdered(sorted: seq<nat>, n: nat, k: nat)
    requires k <= |sorted| && forall i, j :: 0 <= i < j < |sorted| ==> Codepoint(sorted[i]) < Codepoint(sorted[j])
    requires k > 0 ==> Codepoint(sorted[k - 1]) < Codepoint(n)
    requires forall j :: k <= j < |sorted| ==> Codepoint(sorted[j]) > Codepoint(n)
    ensures var r := sorted[..k] + [n] + sorted[k..]; forall i, j :: 0 <= i < j < |r| ==> Codepoint(r[i]) < Codepoint(r[j])
  {
    hide Codepoint;
    var r := sorted[..k] + [n] + sorted[k..];
    assert forall i :: 0 <= i < k - 1 ==> Codepoint(sorted[i]) < Codepoint(sorted[k - 1]);
    forall i, j | 0 <= i < j < |r| ensures Codepoint(r[i]) < Codepoint(r[j]) {
      assert r[i] == if i < k then sorted[i] else if i == k then n else sorted[i - 1];
      assert r[j] == if j < k then sorted[j] else if j == k then n else sorted[j - 1];
    }
  }

  /** The bytes sorted by codepoint. */
  method SortBytes(cp: seq<nat>) returns (sorted: seq<nat>)
    requires |cp| == 256 && forall b :: 0 <= b < 256 ==> cp[b] == Codepoint(b)
    ensures SortedBytes(sorted, 256)
  {
    hide Codepoint;
    sorted := [];
    for n := 0 to 256
      invariant SortedBytes(sorted, n)
    {
      var k: nat := n;
      while k > 0 && cp[sorted[k - 1]] > cp[n]
        invariant k <= n && forall j :: k <= j < n ==> Codepoint(sorted[j]) > Codepoint(n)
      {
        k := k - 1;
      }
      if k > 0 {
        CodepointInjective(sorted[k - 1], n);
      }
      InsertByte(sorted, n, k);
      sorted := sorted[..k] + [n] + sorted[k..];
    }
  }

  /** `build_byte_to_hf_rank`: a permutation of the bytes that orders them by codepoint. */
  method BuildByteToHfRank() returns (rank: array<nat>)
    ensures fresh(rank) && rank.Length == 256
    ensures forall b :: 0 <= b < 256 ==> rank[b] < 256
    ensures forall a, b :: 0 <= a < 256 && 0 <= b < 256 ==> (rank[a] < rank[b] <==> Codepoint(a) < Codepoint(b))
    ensures forall a, b :: 0 <= a < b < 256 ==> rank[a] != rank[b]
  {
    hide Allowed;
    var cp := new nat[256];
    var n: nat := 0;
    for b := 0 to 256
      invariant n == Skipped(b) && forall a :: 0 <= a < b ==> cp[a] == Codepoint(a)
    {
      if Allowed(b) {
        cp[b] := b;
      } else {
        cp[b] := 256 + n;
        n := n + 1;
      }
    }
    var sorted := SortBytes(cp[..]);
    rank := new nat[256];
    for i := 0 to 256
      invariant forall j :: 0 <= j < i ==> rank[sorted[j]] == j
    {
      assert forall j :: 0 <= j < i ==> sorted[j] != sorted[i];
      rank[sorted[i]] := i;
    }
    RanksOrder(sorted, rank[..]);
  }

  lemma RanksOrder(sorted: seq<nat>, rank: seq<nat>)
    requires SortedBytes(sorted, 256) && |rank| == 256
    requires forall j :: 0 <= j < 256 ==> rank[sorted[j]] == j
    ensures forall b :: 0 <= b < 256 ==> rank[b] < 256
    ensures forall a, b :: 0 <= a < 256 && 0 <= b < 256 ==> (rank[a] < rank[b] <==> Codepoint(a) < Codepoint(b))
    ensures forall a, b :: 0 <= a < b < 256 ==> rank[a] != rank[b]
  {
    hide Codepoint;
    forall b | 0 <= b < 256 ensures rank[b] < 256 && sorted[rank[b]] == b {
      assert b in sorted;
      var j :| 0 <= j < 256 && sorted[j] == b;
    }
  }

  // ---------------------------------------------------------------------------
  // Tie-breaking
  // ---------------------------------------------------------------------------

  datatype TieBreaking = HuggingFace | RawTokenIds

  type Key = Token -> nat

  ghost predicate Injective(key: Key) {
    forall a, b :: key(a) == key(b) ==> a == b
  }

  /** The id a tie is broken by. */
  function TieKey(ties: TieBreaking, rank: seq<nat>): Key
    requires |rank| == 256
  {
    (id: Token) => if ties.HuggingFace? && id < 256 then rank[id] else id
  }

  /** The remap tells every two ids apart, so ties have one winner. */
  lemma TieKeyInjective(ties: TieBreaking, rank: seq<nat>)
    requires |rank| == 256 && forall b :: 0 <= b < 256 ==> rank[b] < 256
    requires forall a, b :: 0 <= a < b < 256 ==> rank[a] != rank[b]
    ensures Injective(TieKey(ties, rank))
  {
  }

  predicate PairLess(key: Key, p: Pair, q: Pair) {
    key(p.0) < key(q.0) || (key(p.0) == key(q.0) && key(p.1) < key(q.1))
  }

  /** Priority first, then the least remapped pair. */
  ghost predicate IsTop(queue: Counts, key: Key, p: Pair) {
    && p in queue
    && forall q :: q in queue && q != p ==> queue[q] < queue[p] || (queue[q] == queue[p] && PairLess(key, p, q))
  }

  ghost predicate IsMax(queue: Counts, p: Pair) {
    p in queue && forall q :: q in queue ==> queue[q] <= queue[p]
  }

  lemma {:induction false} SomeMax(queue: Counts)
    requires queue != map[]
    ensures exists p :: IsMax(queue, p)
    decreases |queue|
  {
    var p :| p in queue;
    var rest := queue - {p};
    if rest == map[] {
      assert forall q :: q in queue ==> q == p || q in rest;
      assert IsMax(queue, p);
    } else {
      SomeMax(rest);
      var m :| IsMax(rest, m);
      assert forall q :: q in queue ==> q == p || q in rest;
      assert IsMax(queue, if queue[p] < queue[m] then m else p);
    }
  }

  /** The priority queue's `pop`: any pair of maximal priority. */
  method PopMax(queue: Counts) returns (p: Pair, rest: Counts)
    requires queue != map[]
    ensures IsMax(queue, p) && rest == queue - {p} && |rest| < |queue|
  {
    SomeMax(queue);
    p :| p in queue && forall q :: q in queue ==> queue[q] <= queue[p];
    rest := queue - {p};
  }

  /** The queue without the pairs popped so far, all of them of the top priority. */
  ghost predicate Popped(queue: Counts, rest: Counts, tied: seq<Pair>, top: int) {
    && (forall q :: q in queue ==> queue[q] <= top)
    && (forall q :: q in tied ==> q in queue && queue[q] == top)
    && (forall q :: q in rest <==> q in queue && q !in tied)
    && (forall q :: q in rest ==> rest[q] == queue[q])
  }

  lemma PopStep(queue: Counts, rest: Counts, tied: seq<Pair>, top: int, p: Pair)
    requires Popped(queue, rest, tied, top) && IsMax(rest, p) && rest[p] == top
    ensures Popped(queue, rest - {p}, tied + [p], top)
  {
  }

  lemma PopEnd(queue: Counts, rest: Counts, tied: seq<Pair>, top: int)
    requires Popped(queue, rest, tied, top) && (rest == map[] || exists p :: IsMax(rest, p) && rest[p] != top)
    ensures forall q :: q in queue ==> (queue[q] == top <==> q in tied)
  {
    if rest == map[] {
      assert forall q :: q in queue ==> q in tied || q in rest;
    }
  }

  /** The tied pair with the least key. */
  method Smallest(tied: seq<Pair>, key: Key) returns (p: Pair)
    requires tied != [] && Injective(key)
    ensures p in tied && forall q :: q in tied && q != p ==> PairLess(key, p, q)
  {
    p := tied[0];
    for i := 0 to |tied|
      invariant p in tied && forall j :: 0 <= j < i && tied[j] != p ==> PairLess(key, p, tied[j])
    {
      if PairLess(key, tied[i], p) {
        p := tied[i];
      }
    }
  }

  lemma PopStart(queue: Counts, p: Pair)
    requires IsMax(queue, p)
    ensures Popped(queue, queue - {p}, [p], queue[p])
  {
  }

  lemma SmallestIsTop(queue: Counts, key: Key, tied: seq<Pair>, top: int, p: Pair)
    requires forall q :: q in queue ==> queue[q] <= top && (queue[q] == top <==> q in tied)
    requires p in queue && p in tied && forall q :: q in tied && q != p ==> PairLess(key, p, q)
    ensures IsTop(queue, key, p)
  {
    hide PairLess;
  }

  /** Part of the way through pushing the ties other than `p` back. */
  ghost predicate PushedBack(queue: Counts, rest: Counts, tied: seq<Pair>, i: nat, p: Pair)
    requires i <= |tied|
  {
    && (forall q :: q in rest <==> q in queue && (q !in tied || (q in tied[..i] && q != p)))
    && (forall q :: q in rest ==> rest[q] == queue[q])
  }

  lemma PushStep(queue: Counts, rest: Counts, tied: seq<Pair>, i: nat, p: Pair)
    requires i < |tied| && PushedBack(queue, rest, tied, i, p) && tied[i] in queue
    ensures PushedBack(queue, if tied[i] != p then rest[tied[i] := queue[tied[i]]] else rest, tied, i + 1, p)
  {
    assert tied[..i + 1] == tied[..i] + [tied[i]];
  }

  lemma PushEnd(queue: Counts, rest: Counts, tied: seq<Pair>, p: Pair)
    requires PushedBack(queue, rest, tied, |tied|, p) && p in tied
    ensures rest == queue - {p}
  {
    assert tied[..|tied|] == tied;
  }

  /** Pop every pair of the top priority. */
  method PopTied(queue: Counts) returns (tied: seq<Pair>, rest: Counts, top: int)
    requires queue != map[]
    ensures tied != [] && Popped(queue, rest, tied, top)
    ensures forall q :: q in queue ==> (queue[q] == top <==> q in tied)
  {
    hide *;
    var first, popped := PopMax(queue);
    top, tied, rest := queue[first], [first], popped;
    PopStart(queue, first);
    while rest != map[]
      invariant Popped(queue, rest, tied, top) && tied != []
      decreases |rest|
    {
      var next, fewer := PopMax(rest);
      if rest[next] != top {
        break;
      }
      PopStep(queue, rest, tied, top, next);
      tied, rest := tied + [next], fewer;
    }
    PopEnd(queue, rest, tied, top);
  }

  /** Push the ties other than `p` back. */
  method PushBack(queue: Counts, popped: Counts, tied: seq<Pair>, top: int, p: Pair) returns (rest: Counts)
    requires Popped(queue, popped, tied, top) && p in tied
    ensures rest == queue - {p}
  {
    hide *;
    rest := popped;
    PoppedFacts(queue, rest, tied, top);
    for i := 0 to |tied|
      invariant PushedBack(queue, rest, tied, i, p)
    {
      PushStep(queue, rest, tied, i, p);
      if tied[i] != p {
        rest := rest[tied[i] := top];
      }
    }
    PushEnd(queue, rest, tied, p);
  }

  lemma PoppedFacts(queue: Counts, rest: Counts, tied: seq<Pair>, top: int)
    requires Popped(queue, rest, tied, top)
    ensures forall q :: q in queue ==> queue[q] <= top
    ensures forall q :: q in tied ==> q in queue && queue[q] == top
    ensures forall p :: PushedBack(queue, rest, tied, 0, p)
  {
  }

  /** Choosing a pair: the ties are popped, the least of them taken and the others pushed back. */
  method ChoosePair(queue: Counts, key: Key) returns (p: Pair, rest: Counts)
    requires queue != map[] && Injective(key)
    ensures IsTop(queue, key, p) && rest == queue - {p}
  {
    hide *;
    var tied, popped, top := PopTied(queue);
    PoppedFacts(queue, popped, tied, top);
    p := Smallest(tied, key);
    SmallestIsTop(queue, key, tied, top, p);
    rest := PushBack(queue, popped, tied, top, p);
  }
}
