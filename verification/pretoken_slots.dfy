/** The slot array of the short-pretoken cache: linear probing over aligned pairs, as a finite map. */
module PretokenSlots {
  import opened Probing

  /** A packed pretoken; 0 marks an empty slot. */
  type Key = nat

  datatype Entry = Entry(key: Key, val: nat, ext: nat)

  type Hash = Key -> nat

  type Contents = map<Key, (nat, nat)>

  const EMPTY_KEY: Key := 0

  /** Slot counts the walk is made for: whole pairs. */
  predicate Paired(slots: seq<Entry>) {
    |slots| >= 2 && |slots| % 2 == 0
  }

  function Pairs(slots: seq<Entry>): nat {
    |slots| / 2
  }

  /** `h & mask & !1` in pairs: the pair a walk starts at. */
  function Home(h: nat, cap: nat): (p: nat)
    requires cap >= 2 && cap % 2 == 0
    ensures p < cap / 2
  {
    h % cap / 2
  }

  predicate PairFull(slots: seq<Entry>, p: nat)
    requires Paired(slots) && p < Pairs(slots)
  {
    slots[2 * p].key != EMPTY_KEY && slots[2 * p + 1].key != EMPTY_KEY
  }

  ghost function FullPairs(slots: seq<Entry>): (full: seq<bool>)
    requires Paired(slots)
    ensures |full| == Pairs(slots) && forall p: nat :: p < Pairs(slots) ==> full[p] == PairFull(slots, p)
  {
    seq(Pairs(slots), p requires 0 <= p < Pairs(slots) => PairFull(slots, p))
  }

  ghost function Taken(slots: seq<Entry>): (taken: seq<bool>)
    ensures |taken| == |slots| && forall i :: 0 <= i < |slots| ==> taken[i] == (slots[i].key != EMPTY_KEY)
  {
    seq(|slots|, i requires 0 <= i < |slots| => slots[i].key != EMPTY_KEY)
  }

  /** The key sits in slot `i`, in the pair `d` full pairs after its home. */
  ghost predicate Stored(slots: seq<Entry>, hash: Hash, key: Key, i: nat, d: nat)
    requires Paired(slots)
  {
    && i < |slots| && slots[i].key == key
    && Path(FullPairs(slots), Home(hash(key), |slots|), d) && Cell(Home(hash(key), |slots|), d, Pairs(slots)) == i / 2
  }

  ghost predicate Reachable(slots: seq<Entry>, hash: Hash, key: Key)
    requires Paired(slots)
  {
    exists i: nat, d: nat :: Stored(slots, hash, key, i, d)
  }

  ghost predicate Denotes(e: Entry, contents: Contents) {
    e.key in contents && contents[e.key] == (e.val, e.ext)
  }

  /** The slots hold exactly the entries of the map, each once and each where its walk finds it. */
  ghost predicate Refines(slots: seq<Entry>, hash: Hash, contents: Contents) {
    && Paired(slots) && EMPTY_KEY !in contents
    && (forall key :: key in contents ==> Reachable(slots, hash, key))
    && (forall i :: 0 <= i < |slots| && slots[i].key != EMPTY_KEY ==> Denotes(slots[i], contents))
    && (forall i, j :: 0 <= i < j < |slots| && slots[i].key != EMPTY_KEY ==> slots[i].key != slots[j].key)
    && CountFull(Taken(slots)) == |contents|
  }

  /** The first empty slot of the walk of hash `h`. */
  ghost predicate IsFirstEmpty(slots: seq<Entry>, h: nat, slot: nat)
    requires Paired(slots)
  {
    && slot < |slots| && slots[slot].key == EMPTY_KEY
    && (slot % 2 == 1 ==> slots[slot - 1].key != EMPTY_KEY)
    && exists d: nat :: Path(FullPairs(slots), Home(h, |slots|), d) && Cell(Home(h, |slots|), d, Pairs(slots)) == slot / 2
  }

  /** There is no second one. */
  lemma FirstEmptyUnique(slots: seq<Entry>, h: nat, s: nat, t: nat)
    requires Paired(slots) && IsFirstEmpty(slots, h, s) && IsFirstEmpty(slots, h, t)
    ensures s == t
  {
    var full, home := FullPairs(slots), Home(h, |slots|);
    var d: nat :| Path(full, home, d) && Cell(home, d, Pairs(slots)) == s / 2;
    var e: nat :| Path(full, home, e) && Cell(home, e, Pairs(slots)) == t / 2;
    assert !PairFull(slots, s / 2) && !PairFull(slots, t / 2);
    PathsMeet(full, home, d, e);
  }

  lemma SlotInPair(slots: seq<Entry>, i: nat)
    requires Paired(slots) && i < |slots|
    ensures i / 2 < Pairs(slots) && (i == 2 * (i / 2) || i == 2 * (i / 2) + 1)
  {
  }

  // ---------------------------------------------------------------------------
  // Writing
  // ---------------------------------------------------------------------------

  lemma WriteFills(slots: seq<Entry>, i: nat, e: Entry)
    requires Paired(slots) && i < |slots| && slots[i].key == EMPTY_KEY && e.key != EMPTY_KEY
    ensures CountFull(Taken(slots[i := e])) == CountFull(Taken(slots)) + 1
    ensures forall p: nat :: p < Pairs(slots) && FullPairs(slots)[p] ==> FullPairs(slots[i := e])[p]
  {
    assert Taken(slots[i := e]) == Taken(slots)[i := true];
    CountFill(Taken(slots), i);
  }

  lemma WriteReaches(slots: seq<Entry>, hash: Hash, i: nat, e: Entry, key: Key)
    requires Paired(slots) && i < |slots| && slots[i].key == EMPTY_KEY && e.key != EMPTY_KEY
    requires key != EMPTY_KEY && Reachable(slots, hash, key)
    ensures Reachable(slots[i := e], hash, key)
  {
    var j: nat, d: nat :| Stored(slots, hash, key, j, d);
    WriteFills(slots, i, e);
    PathGrows(FullPairs(slots), FullPairs(slots[i := e]), Home(hash(key), |slots|), d);
    assert Stored(slots[i := e], hash, key, j, d);
  }

  lemma WriteReachesNew(slots: seq<Entry>, hash: Hash, slot: nat, e: Entry)
    requires Paired(slots) && IsFirstEmpty(slots, hash(e.key), slot) && e.key != EMPTY_KEY
    ensures Reachable(slots[slot := e], hash, e.key)
  {
    var home := Home(hash(e.key), |slots|);
    var d: nat :| Path(FullPairs(slots), home, d) && Cell(home, d, Pairs(slots)) == slot / 2;
    WriteFills(slots, slot, e);
    PathGrows(FullPairs(slots), FullPairs(slots[slot := e]), home, d);
    assert Stored(slots[slot := e], hash, e.key, slot, d);
  }

  lemma KeyOfSlot(slots: seq<Entry>, hash: Hash, contents: Contents, i: nat)
    requires Refines(slots, hash, contents) && i < |slots| && slots[i].key != EMPTY_KEY
    ensures slots[i].key in contents && contents[slots[i].key] == (slots[i].val, slots[i].ext)
  {
    assert Denotes(slots[i], contents);
  }

  /** Writing an absent key into the first empty slot of its walk adds it to the map. */
  lemma WriteAbsent(slots: seq<Entry>, hash: Hash, contents: Contents, slot: nat, e: Entry)
    requires Refines(slots, hash, contents) && e.key != EMPTY_KEY && e.key !in contents
    requires IsFirstEmpty(slots, hash(e.key), slot)
    ensures Refines(slots[slot := e], hash, contents[e.key := (e.val, e.ext)])
  {
    hide Reachable, IsFirstEmpty, CountFull, Taken;
    FirstEmptyFacts(slots, hash(e.key), slot);
    var more, after := slots[slot := e], contents[e.key := (e.val, e.ext)];
    WriteFills(slots, slot, e);
    forall key | key in after ensures Reachable(more, hash, key) {
      if key == e.key {
        WriteReachesNew(slots, hash, slot, e);
      } else {
        WriteReaches(slots, hash, slot, e, key);
      }
    }
    forall i | 0 <= i < |more| && more[i].key != EMPTY_KEY ensures Denotes(more[i], after) && (i != slot ==> more[i].key != e.key) {
      if i != slot {
        KeyOfSlot(slots, hash, contents, i);
      }
    }
  }

  lemma FirstEmptyFacts(slots: seq<Entry>, h: nat, slot: nat)
    requires Paired(slots) && IsFirstEmpty(slots, h, slot)
    ensures slot < |slots| && slots[slot].key == EMPTY_KEY
  {
  }

  lemma SameKeysReach(slots: seq<Entry>, hash: Hash, i: nat, e: Entry, key: Key)
    requires Paired(slots) && i < |slots| && slots[i].key == e.key && Reachable(slots, hash, key)
    ensures Reachable(slots[i := e], hash, key)
  {
    var j: nat, d: nat :| Stored(slots, hash, key, j, d);
    assert FullPairs(slots[i := e]) == FullPairs(slots);
    assert Stored(slots[i := e], hash, key, j, d);
  }

  /** Overwriting a key's own slot changes its value and nothing else. */
  lemma WritePresent(slots: seq<Entry>, hash: Hash, contents: Contents, i: nat, e: Entry)
    requires Refines(slots, hash, contents) && e.key != EMPTY_KEY && i < |slots| && slots[i].key == e.key
    ensures e.key in contents && Refines(slots[i := e], hash, contents[e.key := (e.val, e.ext)])
  {
    hide Reachable, CountFull, Taken;
    var more, after := slots[i := e], contents[e.key := (e.val, e.ext)];
    KeyOfSlot(slots, hash, contents, i);
    SameTaken(slots, i, e);
    forall key | key in after ensures Reachable(more, hash, key) {
      SameKeysReach(slots, hash, i, e, key);
    }
    forall j | 0 <= j < |more| && more[j].key != EMPTY_KEY ensures Denotes(more[j], after) {
      if j != i {
        KeyOfSlot(slots, hash, contents, j);
      }
    }
    assert after.Keys == contents.Keys;
    assert |after| == |contents|;
  }

  lemma SameTaken(slots: seq<Entry>, i: nat, e: Entry)
    requires i < |slots| && slots[i].key == e.key
    ensures Taken(slots[i := e]) == Taken(slots)
  {
  }

  lemma NothingStored(slots: seq<Entry>, hash: Hash)
    requires Paired(slots) && forall i :: 0 <= i < |slots| ==> slots[i].key == EMPTY_KEY
    ensures Refines(slots, hash, map[])
  {
    NoneFull(Taken(slots));
  }

  // ---------------------------------------------------------------------------
  // Walking
  // ---------------------------------------------------------------------------

  /** Where the walk of a key stands: `done` full pairs are behind it, and the key, if present, lies ahead. */
  ghost predicate Walking(slots: seq<Entry>, hash: Hash, contents: Contents, key: Key, h: nat, p: nat, done: nat, ahead: nat)
    requires Paired(slots)
  {
    && p < Pairs(slots)
    && Path(FullPairs(slots), Home(h, |slots|), done) && Cell(Home(h, |slots|), done, Pairs(slots)) == p
    && (key in contents ==> LiesAhead(slots, key, p, ahead))
  }

  ghost predicate LiesAhead(slots: seq<Entry>, key: Key, p: nat, d: nat)
    requires Paired(slots) && p < Pairs(slots)
  {
    && Path(FullPairs(slots), p, d)
    && (slots[2 * Cell(p, d, Pairs(slots))].key == key || slots[2 * Cell(p, d, Pairs(slots)) + 1].key == key)
  }

  lemma WalkStart(slots: seq<Entry>, hash: Hash, contents: Contents, key: Key) returns (ahead: nat)
    requires Refines(slots, hash, contents)
    ensures Walking(slots, hash, contents, key, hash(key), Home(hash(key), |slots|), 0, ahead)
  {
    ahead := 0;
    if key in contents {
      assert Reachable(slots, hash, key);
      var i: nat, d: nat :| Stored(slots, hash, key, i, d);
      SlotInPair(slots, i);
      ahead := d;
    }
  }

  /** A full pair without the key is passed; a pair with an empty slot ends the walk of an absent key. */
  lemma WalkStep(slots: seq<Entry>, hash: Hash, contents: Contents, key: Key, h: nat, p: nat, done: nat, ahead: nat)
    requires Paired(slots) && Walking(slots, hash, contents, key, h, p, done, ahead)
    requires slots[2 * p].key != key && slots[2 * p + 1].key != key
    ensures key in contents ==> PairFull(slots, p) && ahead > 0
    ensures PairFull(slots, p) ==> Walking(slots, hash, contents, key, h, Next(p, Pairs(slots)), done + 1, if ahead > 0 then ahead - 1 else 0)
  {
    if PairFull(slots, p) {
      PathExtend(FullPairs(slots), Home(h, |slots|), done);
    }
    assert key in contents ==> ahead > 0 && FullPairs(slots)[p];
  }

  /** Where a walk that finds an empty slot stands is where the key belongs. */
  lemma WalkEmpty(slots: seq<Entry>, hash: Hash, contents: Contents, key: Key, h: nat, p: nat, done: nat, ahead: nat)
    requires Paired(slots) && Walking(slots, hash, contents, key, h, p, done, ahead) && !PairFull(slots, p)
    ensures IsFirstEmpty(slots, h, if slots[2 * p].key == EMPTY_KEY then 2 * p else 2 * p + 1)
  {
    var slot := if slots[2 * p].key == EMPTY_KEY then 2 * p else 2 * p + 1;
    assert slot / 2 == p;
  }

  /** Below a full load some pair has an empty slot, so every walk ends. */
  lemma SomeRoom(slots: seq<Entry>, hash: Hash, contents: Contents) returns (p: nat)
    requires Refines(slots, hash, contents) && |contents| < |slots|
    ensures p < Pairs(slots) && !PairFull(slots, p)
  {
    var i := SomeEmpty(Taken(slots));
    SlotInPair(slots, i);
    p := i / 2;
  }
}
