/** The flat pair-rank table of the merge hot path: a dense grid over small ids and an open-addressed
    array of packed slots over all of them. */
module PairRankTable {
  import opened Common
  import opened MergeSpec
  import opened Probing

  const ID_LIMIT: nat := 0x20_0000
  const DENSE_SIDE: nat := 0x800
  const EMPTY: nat := 0xFFFF_FFFF_FFFF_FFFF
  const MAX_DISPLACEMENT: nat := 64

  type Merges = map<(Token, Token), Token>

  /** What a lookup in the merge map answers, as a rank. */
  function MapRank(merges: Merges, a: Token, b: Token): nat {
    if (a, b) in merges then merges[(a, b)] else NO_RANK
  }

  ghost predicate IdsFit(merges: Merges) {
    forall a: Token, b: Token :: (a, b) in merges ==> a < ID_LIMIT && b < ID_LIMIT && merges[(a, b)] < ID_LIMIT
  }

  /** `(a << 21) | b`. */
  function Key(a: Token, b: Token): nat {
    a * ID_LIMIT + b
  }

  const TWO_64: nat := 0x1_0000_0000_0000_0000

  /** The top log2(n) bits of the wrapped product: the slot a key's walk starts at, for `n` a power of two. */
  function Home(key: nat, n: nat): (i: nat)
    requires 0 < n
    ensures i < n
  {
    var hash := (key * 0x9E37_79B9_7F4A_7C15) % TWO_64;
    ScaledBelow(hash, n);
    hash * n / TWO_64
  }

  lemma ScaledBelow(hash: nat, n: nat)
    requires hash < TWO_64 && 0 < n
    ensures hash * n / TWO_64 < n
  {
    assert hash * n < TWO_64 * n;
  }

  /** `(key << 21) | merged`. */
  function Slot(a: Token, b: Token, m: Token): nat {
    Key(a, b) * ID_LIMIT + m
  }

  /** Keys and values never overlap in a slot, and no slot is the empty sentinel. */
  lemma SlotFields(a: Token, b: Token, m: Token)
    requires a < 0x20_0000 && b < 0x20_0000 && m < 0x20_0000
    ensures Slot(a, b, m) / ID_LIMIT == Key(a, b) && Slot(a, b, m) % ID_LIMIT == m
    ensures Slot(a, b, m) != EMPTY == 0xFFFF_FFFF_FFFF_FFFF && EMPTY / ID_LIMIT != Key(a, b)
  {
  }

  lemma KeysDiffer(a: Token, b: Token, c: Token, d: Token)
    requires a < 0x20_0000 && b < 0x20_0000 && c < 0x20_0000 && d < 0x20_0000
    requires Key(a, b) == Key(c, d)
    ensures a == c && b == d
  {
  }

  ghost function Full(slots: seq<nat>): (full: seq<bool>)
    ensures |full| == |slots| && forall i :: 0 <= i < |slots| ==> full[i] == (slots[i] != EMPTY)
  {
    seq(|slots|, i requires 0 <= i < |slots| => slots[i] != EMPTY)
  }

  /** Pair (a, b) sits `d` full slots after its home. */
  ghost predicate Stored(slots: seq<nat>, a: Token, b: Token, m: Token, d: nat)
    requires 0 < |slots|
  {
    var i := Home(Key(a, b), |slots|);
    Path(Full(slots), i, d) && slots[Cell(i, d, |slots|)] == Slot(a, b, m)
  }

  ghost predicate AllStored(slots: seq<nat>, done: Merges)
    requires 0 < |slots|
  {
    forall a: Token, b: Token :: (a, b) in done ==> exists d: nat :: Stored(slots, a, b, done[(a, b)], d)
  }

  ghost predicate OnlyStored(slots: seq<nat>, done: Merges) {
    forall i :: 0 <= i < |slots| && slots[i] != EMPTY ==> HoldsEntry(slots[i], done)
  }

  ghost predicate HoldsEntry(slot: nat, done: Merges) {
    exists a: Token, b: Token :: (a, b) in done && slot == Slot(a, b, done[(a, b)])
  }

  /** The slots are a complete, loss-free map of `done`, less than full. */
  ghost predicate Refines(slots: seq<nat>, done: Merges) {
    && IdsFit(done)
    && 0 < |slots|
    && AllStored(slots, done) && OnlyStored(slots, done)
    && CountFull(Full(slots)) == |done|
  }

  /** The grid answers for every pair of small ids. */
  ghost predicate DenseRefines(dense: seq<nat>, done: Merges) {
    && |dense| == DENSE_SIDE * DENSE_SIDE
    && forall a: Token, b: Token :: a < DENSE_SIDE && b < DENSE_SIDE ==> DenseAt(dense, a, b) == MapRank(done, a, b)
  }

  function DenseIndex(a: Token, b: Token): (i: nat)
    requires a < DENSE_SIDE && b < DENSE_SIDE
    ensures i < DENSE_SIDE * DENSE_SIDE
  {
    a * DENSE_SIDE + b
  }

  function DenseAt(dense: seq<nat>, a: Token, b: Token): nat
    requires |dense| == DENSE_SIDE * DENSE_SIDE && a < DENSE_SIDE && b < DENSE_SIDE
  {
    dense[DenseIndex(a, b)]
  }

  lemma DenseWrite(dense: seq<nat>, done: Merges, a: Token, b: Token, m: Token)
    requires DenseRefines(dense, done) && a < DENSE_SIDE && b < DENSE_SIDE
    ensures DenseRefines(dense[DenseIndex(a, b) := m], done[(a, b) := m])
  {
    var dense' := dense[DenseIndex(a, b) := m];
    forall x: Token, y: Token | x < DENSE_SIDE && y < DENSE_SIDE
      ensures DenseAt(dense', x, y) == MapRank(done[(a, b) := m], x, y)
    {
      assert DenseAt(dense, x, y) == MapRank(done, x, y);
    }
  }

  /** Writing an absent pair into the first empty slot of its walk keeps the refinement. */
  lemma SlotWrite(slots: seq<nat>, done: Merges, a: Token, b: Token, m: Token, d: nat)
    requires Refines(slots, done) && (a, b) !in done
    requires a < ID_LIMIT && b < ID_LIMIT && m < ID_LIMIT
    requires Path(Full(slots), Home(Key(a, b), |slots|), d) && slots[Cell(Home(Key(a, b), |slots|), d, |slots|)] == EMPTY
    ensures Refines(slots[Cell(Home(Key(a, b), |slots|), d, |slots|) := Slot(a, b, m)], done[(a, b) := m])
  {
    var i := Cell(Home(Key(a, b), |slots|), d, |slots|);
    var slots', done' := slots[i := Slot(a, b, m)], done[(a, b) := m];
    SlotFields(a, b, m);
    assert Full(slots') == Full(slots)[i := true];
    CountFill(Full(slots), i);
    forall x: Token, y: Token | (x, y) in done'
      ensures exists e: nat :: Stored(slots', x, y, done'[(x, y)], e)
    {
      if (x, y) == (a, b) {
        PathGrows(Full(slots), Full(slots'), Home(Key(a, b), |slots|), d);
        assert Stored(slots', a, b, m, d);
      } else {
        SlotWriteKeeps(slots, done, i, Slot(a, b, m), x, y);
      }
    }
    SlotWriteOnly(slots, done, a, b, m, i);
  }

  lemma SlotWriteKeeps(slots: seq<nat>, done: Merges, i: nat, slot: nat, x: Token, y: Token)
    requires Refines(slots, done) && (x, y) in done
    requires i < |slots| && slots[i] == EMPTY && slot != EMPTY
    ensures var slots' := slots[i := slot]; exists e: nat :: Stored(slots', x, y, done[(x, y)], e)
  {
    var e: nat :| Stored(slots, x, y, done[(x, y)], e);
    SlotFields(x, y, done[(x, y)]);
    PathGrows(Full(slots), Full(slots[i := slot]), Home(Key(x, y), |slots|), e);
    assert Stored(slots[i := slot], x, y, done[(x, y)], e);
  }

  lemma SlotWriteOnly(slots: seq<nat>, done: Merges, a: Token, b: Token, m: Token, i: nat)
    requires OnlyStored(slots, done) && (a, b) !in done && i < |slots|
    ensures OnlyStored(slots[i := Slot(a, b, m)], done[(a, b) := m])
  {
    var slots', done' := slots[i := Slot(a, b, m)], done[(a, b) := m];
    assert done'[(a, b)] == m;
    forall k | 0 <= k < |slots'| && slots'[k] != EMPTY
      ensures HoldsEntry(slots'[k], done')
    {
      if k != i {
        var x: Token, y: Token :| (x, y) in done && slots[k] == Slot(x, y, done[(x, y)]);
        assert (x, y) in done' && done'[(x, y)] == done[(x, y)];
      }
    }
  }

  /** The smallest doubling of `n` that reaches `min`. */
  function GrowTo(n: nat, min: nat): (r: nat)
    requires n > 0
    ensures r >= min && r >= n && (r == n || r < 2 * min)
    ensures PowerOfTwo(n) ==> PowerOfTwo(r)
    decreases min - n
  {
    if n >= min then n else GrowTo(2 * n, min)
  }

  /** Grid and slots answer every pair of ids below the limit as the merge map does. */
  ghost predicate TableRefines(dense: seq<nat>, slots: seq<nat>, merges: Merges) {
    DenseRefines(dense, merges) && Refines(slots, merges) && |merges| < |slots|
  }

  /** The walk from the pair's home passes more full slots than the build puts up with. */
  ghost predicate TooFar(slots: seq<nat>, a: Token, b: Token)
    requires 0 < |slots|
  {
    Path(Full(slots), Home(Key(a, b), |slots|), 65)
  }

  /** Walk to the first empty slot from the pair's home; give up exactly when it is too far. */
  method FindSlot(slots: array<nat>, a: Token, b: Token) returns (slot: Option<nat>, ghost d: nat)
    requires 0 < slots.Length
    ensures slot.Some? ==>
      && Path(Full(slots[..]), Home(Key(a, b), slots.Length), d)
      && slot.value == Cell(Home(Key(a, b), slots.Length), d, slots.Length) && slots[slot.value] == EMPTY
    ensures slot.None? <==> TooFar(slots[..], a, b)
  {
    hide Home, Key, EMPTY, Path, Cell;
    var n := slots.Length;
    var idx, displacement := Home(Key(a, b), n), 0;
    PathNone(Full(slots[..]), idx);
    while slots[idx] != EMPTY
      invariant idx < n && displacement <= MAX_DISPLACEMENT
      invariant Path(Full(slots[..]), Home(Key(a, b), n), displacement)
      invariant idx == Cell(Home(Key(a, b), n), displacement, n)
      decreases MAX_DISPLACEMENT - displacement
    {
      PathExtend(Full(slots[..]), Home(Key(a, b), n), displacement);
      idx := Next(idx, n);
      displacement := displacement + 1;
      if displacement > MAX_DISPLACEMENT {
        return None, 0;
      }
    }
    EmptyEndsPath(Full(slots[..]), Home(Key(a, b), n), displacement, MAX_DISPLACEMENT + 1);
    return Some(idx), displacement;
  }

  /** No path leads past an empty cell. */
  lemma {:induction false} EmptyEndsPath(full: seq<bool>, i: nat, d: nat, k: nat)
    requires i < |full| && !full[Cell(i, d, |full|)] && d < k
    ensures !Path(full, i, k)
    decreases d
  {
    if d > 0 {
      EmptyEndsPath(full, Next(i, |full|), d - 1, k - 1);
    }
  }

  lemma PathNone(full: seq<bool>, i: nat)
    requires i < |full|
    ensures Path(full, i, 0) && Cell(i, 0, |full|) == i
  {
  }

  /** Some of the merges, stored in `n` slots, stand in the way of another one. */
  ghost predicate Clustered(merges: Merges, n: nat) {
    exists slots: seq<nat>, done: Merges, p :: 0 < |slots| == n && InTheWay(merges, slots, done, p)
  }

  ghost predicate InTheWay(merges: Merges, slots: seq<nat>, done: Merges, p: (Token, Token))
    requires 0 < |slots|
  {
    && Refines(slots, done) && (forall q :: q in done ==> q in merges && done[q] == merges[q])
    && p in merges && p !in done && TooFar(slots, p.0, p.1)
  }

  /** At half load it takes as many merges as the walk is long, and one more. */
  lemma ClusteredIsMany(merges: Merges, n: nat)
    requires Clustered(merges, n) && n >= 64 && 2 * |merges| <= n
    ensures |merges| > MAX_DISPLACEMENT + 1
  {
    var slots: seq<nat>, done: Merges, p :| 0 < |slots| == n && InTheWay(merges, slots, done, p);
    PathCount(Full(slots), Home(Key(p.0, p.1), n), MAX_DISPLACEMENT + 1);
    SubmapSmaller(done, merges, p);
  }

  lemma SubmapSmaller(done: Merges, merges: Merges, p: (Token, Token))
    requires (forall q :: q in done ==> q in merges) && p in merges && p !in done
    ensures |done| < |merges|
  {
    var rest := merges.Keys - {p};
    assert done.Keys <= rest;
    KeysFewer(done.Keys, rest);
    assert |merges.Keys| == |merges| && |done.Keys| == |done|;
  }

  lemma KeysFewer(a: set<(Token, Token)>, b: set<(Token, Token)>)
    requires a <= b
    ensures |a| <= |b|
  {
    assert b == a + (b - a);
  }

  /** A table over the merge map; None where ids do not pack, and otherwise only where the slots cluster, for which
      there must be more than 65 merges. */
  method Build(merges: Merges, vocabLen: nat) returns (table: Option<Table>)
    ensures table.Some? ==> TableRefines(table.value.dense[..], table.value.slots[..], merges) && 2 * |merges| <= table.value.slots.Length
    ensures table.Some? ==> PowerOfTwo(table.value.slots.Length) && (table.value.slots.Length == 64 || table.value.slots.Length < 4 * |merges|)
    ensures vocabLen > ID_LIMIT || !IdsFit(merges) ==> table.None?
    ensures table.None? ==> vocabLen > ID_LIMIT || !IdsFit(merges) || (|merges| > MAX_DISPLACEMENT + 1 && Clustered(merges, GrowTo(64, 2 * |merges|)))
  {
    if vocabLen > ID_LIMIT || exists p :: p in merges.Keys && (p.0 >= ID_LIMIT || p.1 >= ID_LIMIT || merges[p] >= ID_LIMIT) {
      return None;
    }
    // At most half of the slots are ever taken.
    assert PowerOfTwo(64) by { assert PowerOfTwo(8); }
    var dense, slots := EmptyTable(GrowTo(64, 2 * |merges|));
    var ok := AddMerges(dense, slots, merges);
    if !ok {
      ClusteredIsMany(merges, slots.Length);
      return None;
    }
    var built := new Table(dense, slots);
    return Some(built);
  }

  method EmptyTable(nSlots: nat) returns (dense: array<nat>, slots: array<nat>)
    requires 0 < nSlots
    ensures fresh(dense) && fresh(slots) && dense != slots && slots.Length == nSlots
    ensures DenseRefines(dense[..], map[]) && Refines(slots[..], map[])
  {
    dense := new nat[DENSE_SIDE * DENSE_SIDE](i => NO_RANK);
    slots := new nat[nSlots](i => EMPTY);
    NoneFull(Full(slots[..]));
  }

  /** Every merge in turn, in any order; false when one of them has too far to go past those before it. */
  method AddMerges(dense: array<nat>, slots: array<nat>, merges: Merges) returns (ok: bool)
    requires dense != slots && 0 < slots.Length
    requires DenseRefines(dense[..], map[]) && Refines(slots[..], map[]) && IdsFit(merges)
    modifies dense, slots
    ensures ok ==> DenseRefines(dense[..], merges) && Refines(slots[..], merges)
    ensures !ok ==> Clustered(merges, slots.Length)
  {
    hide *;
    ghost var done: Merges := map[];
    var todo := merges.Keys;
    AddedNone(merges);
    while todo != {}
      invariant Added(merges, todo, done)
      invariant DenseRefines(dense[..], done) && Refines(slots[..], done)
      decreases |todo|
    {
      var p :| p in todo;
      AddedStep(merges, todo, done, p);
      var m := merges[p];
      ghost var before: seq<nat> := slots[..];
      ok := AddMerge(dense, slots, done, p.0, p.1, m);
      if !ok {
        GivenUp(merges, before, done, p);
        return;
      }
      done := done[(p.0, p.1) := m];
      todo := todo - {p};
    }
    AddedAll(merges, done);
    ok := true;
  }

  /** The merges not in `todo` are done. */
  ghost predicate Added(merges: Merges, todo: set<(Token, Token)>, done: Merges) {
    && IdsFit(merges) && todo <= merges.Keys && done.Keys == merges.Keys - todo
    && forall p :: p in done ==> done[p] == merges[p]
  }

  lemma AddedNone(merges: Merges)
    requires IdsFit(merges)
    ensures Added(merges, merges.Keys, map[])
  {
  }

  lemma AddedStep(merges: Merges, todo: set<(Token, Token)>, done: Merges, p: (Token, Token))
    requires Added(merges, todo, done) && p in todo
    ensures p == (p.0, p.1) && p in merges && p !in done
    ensures p.0 < ID_LIMIT && p.1 < ID_LIMIT && merges[p] < ID_LIMIT
    ensures forall q :: q in done ==> q in merges && done[q] == merges[q]
    ensures Added(merges, todo - {p}, done[p := merges[p]])
  {
    assert (p.0, p.1) in merges;
  }

  lemma GivenUp(merges: Merges, slots: seq<nat>, done: Merges, p: (Token, Token))
    requires 0 < |slots| && Refines(slots, done) && TooFar(slots, p.0, p.1)
    requires (forall q :: q in done ==> q in merges && done[q] == merges[q]) && p in merges && p !in done
    ensures Clustered(merges, |slots|)
  {
    assert InTheWay(merges, slots, done, p);
  }

  lemma AddedAll(merges: Merges, done: Merges)
    requires Added(merges, {}, done)
    ensures done == merges
  {
  }

  /** One merge into the grid, where both ids are small, and into the slots; false exactly when it has too far to go. */
  method AddMerge(dense: array<nat>, slots: array<nat>, ghost done: Merges, a: Token, b: Token, m: Token) returns (ok: bool)
    requires dense != slots && 0 < slots.Length
    requires DenseRefines(dense[..], done) && Refines(slots[..], done)
    requires (a, b) !in done && a < ID_LIMIT && b < ID_LIMIT && m < ID_LIMIT
    modifies dense, slots
    ensures ok ==> DenseRefines(dense[..], done[(a, b) := m]) && Refines(slots[..], done[(a, b) := m])
    ensures ok <==> !TooFar(old(slots[..]), a, b)
  {
    hide *;
    WriteDense(dense, done, a, b, m);
    var slot, d := FindSlot(slots, a, b);
    if slot.None? {
      return false;
    }
    ghost var before: seq<nat> := slots[..];
    SlotWrite(before, done, a, b, m, d);
    slots[slot.value] := Slot(a, b, m);
    assert slots[..] == before[slot.value := Slot(a, b, m)];
    ok := true;
  }

  method WriteDense(dense: array<nat>, ghost done: Merges, a: Token, b: Token, m: Token)
    requires DenseRefines(dense[..], done)
    modifies dense
    ensures DenseRefines(dense[..], done[(a, b) := m])
  {
    hide DenseIndex;
    ghost var before: seq<nat> := dense[..];
    if a < DENSE_SIDE && b < DENSE_SIDE {
      DenseWrite(before, done, a, b, m);
      dense[DenseIndex(a, b)] := m;
      assert dense[..] == before[DenseIndex(a, b) := m];
    }
  }

  /** Where the walk for a pair of the map still has to go. */
  ghost predicate Ahead(slots: seq<nat>, merges: Merges, a: Token, b: Token, idx: nat, d: nat)
    requires idx < |slots|
  {
    (a, b) in merges ==> Path(Full(slots), idx, d) && slots[Cell(idx, d, |slots|)] == Slot(a, b, merges[(a, b)])
  }

  /** A slot whose key field is the pair's key is the pair's entry: no false hit, no collision. */
  lemma HitIsEntry(slots: seq<nat>, merges: Merges, a: Token, b: Token, idx: nat)
    requires Refines(slots, merges) && idx < |slots| && a < ID_LIMIT && b < ID_LIMIT
    requires slots[idx] / ID_LIMIT == Key(a, b)
    ensures (a, b) in merges && slots[idx] % ID_LIMIT == merges[(a, b)]
  {
    SlotFields(a, b, 0);
    assert HoldsEntry(slots[idx], merges);
    var x: Token, y: Token :| (x, y) in merges && slots[idx] == Slot(x, y, merges[(x, y)]);
    SlotFields(x, y, merges[(x, y)]);
    KeysDiffer(a, b, x, y);
  }

  class Table {
    const dense: array<nat>
    const slots: array<nat>

    constructor (dense: array<nat>, slots: array<nat>)
      ensures this.dense == dense && this.slots == slots
    {
      this.dense, this.slots := dense, slots;
    }

    /** `rank`: the merged id of the pair, or the no-merge rank, exactly as the merge map has it. */
    method Rank(a: Token, b: Token, ghost merges: Merges) returns (rank: nat)
      requires TableRefines(dense[..], slots[..], merges)
      requires a < ID_LIMIT && b < ID_LIMIT
      ensures rank == MapRank(merges, a, b)
    {
      hide *;
      DenseAnswers(dense[..], slots[..], merges, a, b);
      if a < DENSE_SIDE && b < DENSE_SIDE {
        return dense[DenseIndex(a, b)];
      }
      var n := slots.Length;
      ghost var s: seq<nat> := slots[..];
      ghost var empty, d := WalkFrom(dense[..], s, merges, a, b);
      RankIs(merges, a, b);
      var key := Key(a, b);
      var idx: nat := Home(key, n);
      while true
        invariant 0 <= idx < n && Ahead(s, merges, a, b, idx, d)
        decreases Distance(idx, empty, n)
      {
        var slot := slots[idx];
        if slot / ID_LIMIT == key {
          HitIsEntry(s, merges, a, b, idx);
          return slot % ID_LIMIT;
        }
        MissKeeps(s, merges, a, b, idx, d);
        if slot == EMPTY {
          return NO_RANK;
        }
        Closer(idx, empty, n);
        idx := Next(idx, n);
        d := if d > 0 then d - 1 else 0;
      }
    }
  }

  lemma DenseAnswers(dense: seq<nat>, slots: seq<nat>, merges: Merges, a: Token, b: Token)
    requires TableRefines(dense, slots, merges)
    ensures |dense| == DENSE_SIDE * DENSE_SIDE
    ensures a < DENSE_SIDE && b < DENSE_SIDE ==> dense[DenseIndex(a, b)] == MapRank(merges, a, b)
  {
    hide MapRank, Refines, DenseIndex;
    assert a < DENSE_SIDE && b < DENSE_SIDE ==> DenseAt(dense, a, b) == MapRank(merges, a, b);
  }

  lemma RankIs(merges: Merges, a: Token, b: Token)
    ensures MapRank(merges, a, b) == if (a, b) in merges then merges[(a, b)] else NO_RANK
    ensures ID_LIMIT > 0
  {
  }

  /** An empty slot every walk reaches at the latest, and how far ahead the pair lies if it is in the map. */
  lemma WalkFrom(dense: seq<nat>, slots: seq<nat>, merges: Merges, a: Token, b: Token) returns (empty: nat, d: nat)
    requires TableRefines(dense, slots, merges)
    ensures IdsFit(merges) && Refines(slots, merges)
    ensures empty < |slots| && slots[empty] == EMPTY
    ensures Ahead(slots, merges, a, b, Home(Key(a, b), |slots|), d)
  {
    hide Home, Key, Slot, IdsFit, OnlyStored, HoldsEntry, DenseRefines;
    empty := SomeEmpty(Full(slots));
    d := 0;
    if (a, b) in merges {
      d :| Stored(slots, a, b, merges[(a, b)], d);
    }
  }

  lemma Closer(idx: nat, empty: nat, n: nat)
    requires idx < n && empty < n && idx != empty
    ensures Distance(Next(idx, n), empty, n) < Distance(idx, empty, n)
  {
  }

  /** A slot with another key is passed over; an empty one ends the walk only for an absent pair. */
  lemma MissKeeps(slots: seq<nat>, merges: Merges, a: Token, b: Token, idx: nat, d: nat)
    requires IdsFit(merges) && a < ID_LIMIT && b < ID_LIMIT
    requires idx < |slots| && Ahead(slots, merges, a, b, idx, d)
    requires slots[idx] / ID_LIMIT != Key(a, b)
    ensures (a, b) in merges ==> d > 0 && slots[idx] != EMPTY
    ensures Ahead(slots, merges, a, b, Next(idx, |slots|), if d > 0 then d - 1 else 0)
  {
    if (a, b) in merges {
      SlotFields(a, b, merges[(a, b)]);
    }
  }
}
