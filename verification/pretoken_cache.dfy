/** The short-pretoken cache: a growing hash table over slot pairs that behaves as a finite map. */
module PretokenCache {
  import opened Probing
  import opened PretokenSlots

  /** The smallest table of a seeded cache, 2^16 slots. */
  const MIN_SLOTS: nat := 0x1_0000

  /** Another entry would take the load over 3/4. */
  predicate Overloaded(len: nat, cap: nat) {
    (len + 1) * 4 > cap * 3
  }

  /** One more entry fits exactly when at most three quarters of the slots are full with it. */
  lemma LoadLimit(len: nat, cap: nat)
    ensures !Overloaded(len, 4 * cap) <==> len < 3 * cap
  {
  }

  datatype Lookup = Hit(val: nat, ext: nat) | Miss(slot: nat)

  /** `required_capacity`: the least power of two that holds `n` entries, `minSlots` slots and the floor. */
  method RequiredCapacity(n: nat, minSlots: nat) returns (cap: nat)
    ensures PowerOfTwo(cap) && cap >= 2
    ensures cap >= 0x1_0000 && cap >= minSlots && !Overloaded(n, cap)
    ensures cap == MIN_SLOTS || cap / 2 < minSlots || Overloaded(n, cap / 2)
  {
    hide PowerOfTwo;
    cap := MIN_SLOTS;
    PowerOfFloor();
    while cap < minSlots
      invariant PowerOfTwo(cap) && cap >= MIN_SLOTS && (cap == MIN_SLOTS || cap / 2 < minSlots)
      decreases minSlots - cap
    {
      PowerDoubles(cap);
      cap := cap * 2;
    }
    while Overloaded(n, cap)
      invariant PowerOfTwo(cap) && cap >= MIN_SLOTS && cap >= minSlots
      invariant cap == MIN_SLOTS || cap / 2 < minSlots || Overloaded(n, cap / 2)
      decreases (n + 1) * 4 - cap * 3
    {
      PowerDoubles(cap);
      cap := cap * 2;
    }
  }

  lemma PowerOfFloor()
    ensures PowerOfTwo(MIN_SLOTS)
  {
    assert PowerOfTwo(0x10);
    assert PowerOfTwo(0x100);
    assert PowerOfTwo(0x1000);
  }

  /** `h & mask & !1`. */
  function PairIndex(h: nat, mask: nat): nat {
    h % (mask + 1) / 2 * 2
  }

  /** `(idx + 2) & mask`. */
  function NextIndex(idx: nat, mask: nat): nat {
    (idx + 2) % (mask + 1)
  }

  lemma PairIndexIsHome(h: nat, cap: nat)
    requires cap >= 2 && cap % 2 == 0
    ensures PairIndex(h, cap - 1) == 2 * Home(h, cap)
  {
  }

  lemma NextIndexIsNext(p: nat, cap: nat)
    requires cap >= 2 && cap % 2 == 0 && p < cap / 2
    ensures NextIndex(2 * p, cap - 1) == 2 * Next(p, cap / 2)
  {
    hide *;
    NextIndexIs(2 * p, cap);
    NextIs(p, cap / 2);
    assert cap == 2 * (cap / 2);
    if p + 1 < cap / 2 {
      SmallMod(2 * p + 2, cap);
    }
  }

  lemma NextIndexIs(idx: nat, cap: nat)
    requires cap >= 1
    ensures NextIndex(idx, cap - 1) == (idx + 2) % cap
  {
  }

  lemma NextIs(p: nat, n: nat)
    requires p < n
    ensures Next(p, n) == if p + 1 == n then 0 else p + 1
  {
  }

  lemma SmallMod(a: nat, n: nat)
    requires a < n
    ensures a % n == a
  {
  }

  ghost predicate KeyBelow(slots: seq<Entry>, i: nat, key: Key) {
    key != EMPTY_KEY && exists j :: 0 <= j < i <= |slots| && slots[j].key == key
  }

  /** The entries of the first `i` slots, as the map has them. */
  ghost predicate Moved(slots: seq<Entry>, contents: Contents, i: nat, moved: Contents) {
    && (forall key :: key in moved <==> KeyBelow(slots, i, key))
    && (forall key :: key in moved ==> key in contents && moved[key] == contents[key])
  }

  lemma MovedNone(slots: seq<Entry>, contents: Contents)
    ensures Moved(slots, contents, 0, map[])
  {
  }

  lemma BelowNext(slots: seq<Entry>, i: nat, key: Key)
    requires i < |slots|
    ensures KeyBelow(slots, i + 1, key) <==> KeyBelow(slots, i, key) || (key != EMPTY_KEY && slots[i].key == key)
  {
  }

  /** The next entry to move is not among those moved before. */
  lemma MovedStep(slots: seq<Entry>, hash: Hash, contents: Contents, i: nat, moved: Contents)
    requires Refines(slots, hash, contents) && i < |slots| && Moved(slots, contents, i, moved)
    ensures var e := slots[i];
      if e.key == EMPTY_KEY then Moved(slots, contents, i + 1, moved)
      else e.key !in moved && Moved(slots, contents, i + 1, moved[e.key := (e.val, e.ext)])
  {
    hide *;
    var e := slots[i];
    NewBelow(slots, hash, contents, i);
    forall key ensures KeyBelow(slots, i + 1, key) <==> KeyBelow(slots, i, key) || (key != EMPTY_KEY && e.key == key) {
      BelowNext(slots, i, key);
    }
    if e.key == EMPTY_KEY {
      MovedSkip(slots, contents, i, moved);
    } else {
      KeyOfSlot(slots, hash, contents, i);
      MovedAdd(slots, contents, i, moved, e);
    }
  }

  lemma MovedSkip(slots: seq<Entry>, contents: Contents, i: nat, moved: Contents)
    requires Moved(slots, contents, i, moved) && forall key :: KeyBelow(slots, i + 1, key) <==> KeyBelow(slots, i, key)
    ensures Moved(slots, contents, i + 1, moved)
  {
    hide KeyBelow;
  }

  lemma MovedAdd(slots: seq<Entry>, contents: Contents, i: nat, moved: Contents, e: Entry)
    requires Moved(slots, contents, i, moved) && !KeyBelow(slots, i, e.key)
    requires e.key in contents && contents[e.key] == (e.val, e.ext)
    requires forall key :: KeyBelow(slots, i + 1, key) <==> KeyBelow(slots, i, key) || key == e.key
    ensures e.key !in moved && Moved(slots, contents, i + 1, moved[e.key := (e.val, e.ext)])
  {
    hide KeyBelow;
  }

  lemma NewBelow(slots: seq<Entry>, hash: Hash, contents: Contents, i: nat)
    requires Refines(slots, hash, contents) && i < |slots|
    ensures !KeyBelow(slots, i, slots[i].key)
  {
    hide CountFull, Taken, Reachable, Denotes;
  }

  lemma MovedAll(slots: seq<Entry>, hash: Hash, contents: Contents, moved: Contents)
    requires Refines(slots, hash, contents) && Moved(slots, contents, |slots|, moved)
    ensures moved == contents
  {
    hide CountFull, Taken, Denotes;
    forall key | key in contents ensures key in moved {
      assert Reachable(slots, hash, key);
      var i: nat, d: nat :| Stored(slots, hash, key, i, d);
      assert KeyBelow(slots, |slots|, key);
    }
  }

  lemma MovedFits(slots: seq<Entry>, contents: Contents, i: nat, moved: Contents)
    requires Moved(slots, contents, i, moved)
    ensures |moved| <= |contents|
  {
    SubsetSize(moved.Keys, contents.Keys);
  }

  lemma SubsetSize(a: set<Key>, b: set<Key>)
    requires a <= b
    ensures |a| <= |b|
  {
    assert b == a + (b - a);
  }

  class ShortPretokenCache {
    var slots: array<Entry>
    var mask: nat
    var len: nat
    const hash: Hash
    ghost var contents: Contents

    /** The slots are a table of whole pairs that holds exactly `held`. */
    ghost predicate Holds(held: Contents)
      reads `slots, `mask, slots
    {
      slots.Length >= 2 && PowerOfTwo(slots.Length) && mask == slots.Length - 1 && Refines(slots[..], hash, held)
    }

    /** The table is the map, at most 3/4 full. */
    ghost predicate Valid()
      reads this, slots
    {
      Holds(contents) && len == |contents| && len * 4 <= slots.Length * 3
    }

    constructor WithPow2Capacity(cap: nat, hash: Hash)
      requires PowerOfTwo(cap) && cap >= 2
      ensures Valid() && fresh(slots) && slots.Length == cap && contents == map[] && this.hash == hash
    {
      slots := new Entry[cap](i => Entry(EMPTY_KEY, 0, 0));
      mask, len, contents := cap - 1, 0, map[];
      this.hash := hash;
      new;
      NothingStored(slots[..], hash);
    }

    /** `get_or_slot`: the key's value, or the slot it belongs in. */
    method GetOrSlot(key: Key, h: nat) returns (r: Lookup)
      requires Valid() && key != EMPTY_KEY && h == hash(key)
      ensures key in contents ==> r == Hit(contents[key].0, contents[key].1)
      ensures key !in contents ==> r.Miss? && IsFirstEmpty(slots[..], h, r.slot)
    {
      hide Refines, Walking, Home, Next, PairIndex, NextIndex, IsFirstEmpty, PowerOfTwo, Distance;
      ghost var s := slots[..];
      TableFacts(s, hash, contents);
      ghost var room := SomeRoom(s, hash, contents);
      ghost var ahead := WalkStart(s, hash, contents, key);
      ghost var p, done: nat := Home(h, |s|), 0;
      PairIndexIsHome(h, |s|);
      var idx := PairIndex(h, mask);
      while true
        invariant p < |s| / 2 && idx == 2 * p && Walking(s, hash, contents, key, h, p, done, ahead)
        decreases Distance(p, room, |s| / 2)
      {
        var e0, e1 := slots[idx], slots[idx + 1];
        if e0.key == key {
          KeyOfSlot(s, hash, contents, idx);
          return Hit(e0.val, e0.ext);
        }
        if e1.key == key {
          KeyOfSlot(s, hash, contents, idx + 1);
          return Hit(e1.val, e1.ext);
        }
        WalkStep(s, hash, contents, key, h, p, done, ahead);
        if e0.key == EMPTY_KEY || e1.key == EMPTY_KEY {
          WalkEmpty(s, hash, contents, key, h, p, done, ahead);
        }
        if e0.key == EMPTY_KEY {
          return Miss(idx);
        }
        if e1.key == EMPTY_KEY {
          return Miss(idx + 1);
        }
        NextIndexIsNext(p, |s|);
        StepCloser(s, p, room);
        idx := NextIndex(idx, mask);
        p, done, ahead := Next(p, |s| / 2), done + 1, if ahead > 0 then ahead - 1 else 0;
      }
    }

    /** `first_empty`: the first empty slot of the walk of `h`. */
    method FirstEmpty(h: nat, ghost held: Contents) returns (slot: nat)
      requires Holds(held) && |held| < slots.Length
      ensures slot < slots.Length && Paired(slots[..]) && IsFirstEmpty(slots[..], h, slot)
    {
      hide Refines, Walking, Home, Next, PairIndex, NextIndex, IsFirstEmpty, PowerOfTwo, Distance;
      ghost var s := slots[..];
      TableFacts(s, hash, held);
      ghost var room := SomeRoom(s, hash, held);
      WalkOpen(s, hash, held, h);
      ghost var p, done: nat := Home(h, |s|), 0;
      PairIndexIsHome(h, |s|);
      var idx := PairIndex(h, mask);
      while true
        invariant p < |s| / 2 && idx == 2 * p && Walking(s, hash, held, EMPTY_KEY, h, p, done, 0)
        decreases Distance(p, room, |s| / 2)
      {
        if slots[idx].key == EMPTY_KEY || slots[idx + 1].key == EMPTY_KEY {
          WalkEmpty(s, hash, held, EMPTY_KEY, h, p, done, 0);
        }
        if slots[idx].key == EMPTY_KEY {
          return idx;
        }
        if slots[idx + 1].key == EMPTY_KEY {
          return idx + 1;
        }
        WalkStep(s, hash, held, EMPTY_KEY, h, p, done, 0);
        NextIndexIsNext(p, |s|);
        StepCloser(s, p, room);
        idx := NextIndex(idx, mask);
        p, done := Next(p, |s| / 2), done + 1;
      }
    }

    /** `grow`: twice the slots, the same map. */
    method Grow()
      requires Valid()
      modifies this
      ensures fresh(slots) && slots.Length == 2 * old(slots.Length)
      ensures Valid() && contents == old(contents) && len == old(len)
    {
      hide *;
      var before := slots;
      ghost var s, moved: Contents := before[..], map[];
      ValidFacts();
      var newCap := before.Length * 2;
      slots := new Entry[newCap](i => Entry(EMPTY_KEY, 0, 0));
      mask := newCap - 1;
      EmptyHolds(slots[..], hash, |s|);
      HoldsIntro(map[]);
      MovedNone(s, contents);
      for i := 0 to before.Length
        invariant slots.Length == newCap && mask == newCap - 1 && fresh(slots) && before[..] == s
        invariant contents == old(contents) && len == old(len)
        invariant Holds(moved) && Moved(s, contents, i, moved)
      {
        var e := before[i];
        MovedStep(s, hash, contents, i, moved);
        if e.key == EMPTY_KEY {
          continue;
        }
        MovedFits(s, contents, i, moved);
        var idx := FirstEmpty(hash(e.key), moved);
        Put(idx, e, moved);
        moved := moved[e.key := (e.val, e.ext)];
      }
      MovedAll(s, hash, contents, moved);
      ValidIntro();
    }

    lemma ValidFacts()
      requires Valid()
      ensures Holds(contents) && Refines(slots[..], hash, contents) && slots.Length >= 2 && slots.Length % 2 == 0
      ensures PowerOfTwo(slots.Length) && PowerOfTwo(slots.Length * 2) && mask == slots.Length - 1
      ensures len == |contents| && len * 4 <= slots.Length * 3
    {
      PowerDoubles(slots.Length);
    }

    lemma HoldsIntro(held: Contents)
      requires slots.Length >= 2 && PowerOfTwo(slots.Length) && mask == slots.Length - 1 && Refines(slots[..], hash, held)
      ensures Holds(held)
    {
    }

    lemma ValidIntro()
      requires Holds(contents) && len == |contents| && len * 4 <= slots.Length * 3
      ensures Valid()
    {
    }

    /** Write an absent key's entry where its walk first finds room. */
    method Put(idx: nat, e: Entry, ghost held: Contents)
      requires Holds(held) && e.key != EMPTY_KEY && e.key !in held && idx < slots.Length
      requires Paired(slots[..]) && IsFirstEmpty(slots[..], hash(e.key), idx)
      modifies slots
      ensures Holds(held[e.key := (e.val, e.ext)])
    {
      hide IsFirstEmpty, PowerOfTwo, Refines;
      ghost var t := slots[..];
      WriteAbsent(t, hash, held, idx, e);
      slots[idx] := e;
      assert slots[..] == t[idx := e];
    }

    /** Grow when another entry would overload the table. */
    method MakeRoom()
      requires Valid()
      modifies this
      ensures Valid() && contents == old(contents) && len == old(len) && !Overloaded(len, slots.Length)
      ensures Holds(contents) && |contents| == len < slots.Length
      ensures slots.Length == if old(Overloaded(len, slots.Length)) then 2 * old(slots.Length) else old(slots.Length)
      ensures if old(Overloaded(len, slots.Length)) then fresh(slots) else slots == old(slots)
    {
      hide Holds;
      ValidFacts();
      if Overloaded(len, slots.Length) {
        Grow();
      }
    }

    /** Write a new entry into a table with room for it. */
    method Fill(idx: nat, e: Entry)
      requires Valid() && !Overloaded(len, slots.Length)
      requires e.key != EMPTY_KEY && e.key !in contents && idx < slots.Length
      requires Paired(slots[..]) && IsFirstEmpty(slots[..], hash(e.key), idx)
      modifies this, slots
      ensures Valid() && contents == old(contents)[e.key := (e.val, e.ext)] && slots == old(slots)
    {
      hide Holds, IsFirstEmpty, Paired;
      Put(idx, e, contents);
      contents := contents[e.key := (e.val, e.ext)];
      len := len + 1;
    }

    /** `insert`: add an absent key, growing first if it would take the load over 3/4. */
    method Insert(key: Key, h: nat, val: nat, ext: nat)
      requires Valid() && key != EMPTY_KEY && key !in contents && h == hash(key)
      modifies this, slots
      ensures Valid() && contents == old(contents)[key := (val, ext)]
      ensures slots.Length == if old(Overloaded(len, slots.Length)) then 2 * old(slots.Length) else old(slots.Length)
      ensures slots == old(slots) || fresh(slots)
    {
      hide *;
      MakeRoom();
      var idx := FirstEmpty(h, contents);
      Fill(idx, Entry(key, val, ext));
    }

    /** `insert_at`: the same with the slot a lookup of the key reported, which growing invalidates. */
    method InsertAt(slot: nat, key: Key, h: nat, val: nat, ext: nat)
      requires Valid() && key != EMPTY_KEY && key !in contents && h == hash(key)
      requires Paired(slots[..]) && IsFirstEmpty(slots[..], h, slot)
      modifies this, slots
      ensures Valid() && contents == old(contents)[key := (val, ext)]
      ensures slots.Length == if old(Overloaded(len, slots.Length)) then 2 * old(slots.Length) else old(slots.Length)
      ensures slots == old(slots) || fresh(slots)
    {
      hide *;
      var at := slot;
      FirstEmptyFacts(slots[..], h, slot);
      var crowded := Overloaded(len, slots.Length);
      MakeRoom();
      if crowded {
        at := FirstEmpty(h, contents);
      }
      Fill(at, Entry(key, val, ext));
    }

    /** Overwrite the value of a key where it sits. */
    method Overwrite(i: nat, e: Entry)
      requires Valid() && i < slots.Length && slots[i].key == e.key && e.key != EMPTY_KEY
      modifies this, slots
      ensures Valid() && e.key in old(contents) && contents == old(contents)[e.key := (e.val, e.ext)] && slots == old(slots)
    {
      hide Refines, PowerOfTwo;
      ghost var t := slots[..];
      WritePresent(t, hash, contents, i, e);
      contents := contents[e.key := (e.val, e.ext)];
      slots[i] := e;
      assert slots[..] == t[i := e];
    }

    /** `replace`: the key's value is overwritten, or the key is inserted. */
    method Replace(key: Key, h: nat, val: nat, ext: nat)
      requires Valid() && key != EMPTY_KEY && h == hash(key)
      modifies this, slots
      ensures Valid() && contents == old(contents)[key := (val, ext)]
      ensures slots == old(slots) || fresh(slots)
    {
      hide *;
      ghost var s := slots[..];
      ValidFacts();
      ghost var room := SomeRoom(s, hash, contents);
      ghost var ahead := WalkStart(s, hash, contents, key);
      ghost var p, done: nat := Home(h, |s|), 0;
      PairIndexIsHome(h, |s|);
      var idx := PairIndex(h, mask);
      PairsHalve(s);
      while true
        invariant p < |s| / 2 && idx == 2 * p && Walking(s, hash, contents, key, h, p, done, ahead)
        invariant Valid() && contents == old(contents) && slots == old(slots) && slots[..] == s && mask == |s| - 1
        decreases Distance(p, room, |s| / 2)
      {
        var k0, k1 := slots[idx].key, slots[idx + 1].key;
        if k0 == key {
          Overwrite(idx, Entry(key, val, ext));
          return;
        }
        if k1 == key {
          Overwrite(idx + 1, Entry(key, val, ext));
          return;
        }
        WalkStep(s, hash, contents, key, h, p, done, ahead);
        PairFullIs(s, p);
        if k0 == EMPTY_KEY || k1 == EMPTY_KEY {
          Insert(key, h, val, ext);
          return;
        }
        NextIndexIsNext(p, |s|);
        StepCloser(s, p, room);
        idx := NextIndex(idx, mask);
        p, done, ahead := Next(p, |s| / 2), done + 1, if ahead > 0 then ahead - 1 else 0;
      }
    }

    /** Insert a key unless it is there. */
    method Seed(e: Entry)
      requires Valid() && e.key != EMPTY_KEY
      modifies this, slots
      ensures Valid() && contents == if e.key in old(contents) then old(contents) else old(contents)[e.key := (e.val, e.ext)]
      ensures slots == old(slots) || fresh(slots)
      ensures old(!Overloaded(|contents|, slots.Length)) ==> slots.Length == old(slots.Length)
    {
      hide *;
      ValidFacts();
      var h := hash(e.key);
      var r := GetOrSlot(e.key, h);
      if r.Miss? {
        Insert(e.key, h, e.val, e.ext);
      }
    }

    /** `clear`: every slot empty, the allocation kept. */
    method Clear()
      requires Valid()
      modifies this, slots
      ensures Valid() && contents == map[] && slots == old(slots)
    {
      hide PowerOfTwo, Refines;
      ValidFacts();
      for i := 0 to slots.Length
        invariant slots == old(slots) && mask == old(mask)
        invariant forall j :: 0 <= j < i ==> slots[j] == Entry(EMPTY_KEY, 0, 0)
      {
        slots[i] := Entry(EMPTY_KEY, 0, 0);
      }
      EmptyHolds(slots[..], hash, slots.Length / 2);
      len, contents := 0, map[];
    }

    /** `reset_to_capacity`: an empty table of exactly `cap` slots. */
    method ResetToCapacity(cap: nat)
      requires Valid() && PowerOfTwo(cap) && cap >= 2
      modifies this, slots
      ensures Valid() && contents == map[] && slots.Length == cap
      ensures if cap == old(slots.Length) then slots == old(slots) else fresh(slots)
    {
      hide Refines;
      if cap == slots.Length {
        Clear();
        return;
      }
      slots := new Entry[cap](i => Entry(EMPTY_KEY, 0, 0));
      mask, len, contents := cap - 1, 0, map[];
      EmptyHolds(slots[..], hash, cap / 2);
    }

    /** `probe_pair`: found exactly when the key sits in its home pair, and then with its value. */
    method ProbePair(key: Key, h: nat) returns (val: nat, ext: nat, found: bool)
      requires Valid() && h == hash(key)
      ensures key != EMPTY_KEY ==> (found <==> exists i: nat :: Stored(slots[..], hash, key, i, 0))
      ensures key != EMPTY_KEY && found ==> key in contents && contents[key] == (val, ext)
    {
      hide Refines, PowerOfTwo, Stored;
      ValidFacts();
      ghost var s := slots[..];
      PairIndexIsHome(h, |s|);
      var idx := PairIndex(h, mask);
      var e0, e1 := slots[idx], slots[idx + 1];
      val, ext := if e0.key == key then e0.val else e1.val, if e0.key == key then e0.ext else e1.ext;
      found := e0.key == key || e1.key == key;
      HomeStored(s, hash, key);
      if key != EMPTY_KEY && found {
        KeyOfSlot(s, hash, contents, if e0.key == key then idx else idx + 1);
      }
    }
  }

  lemma PairFullIs(s: seq<Entry>, p: nat)
    requires Paired(s) && p < Pairs(s)
    ensures PairFull(s, p) <==> s[2 * p].key != EMPTY_KEY && s[2 * p + 1].key != EMPTY_KEY
  {
  }

  lemma PairsHalve(s: seq<Entry>)
    requires Paired(s)
    ensures Pairs(s) == |s| / 2 && |s| == 2 * (|s| / 2)
  {
  }

  /** The key is in its home pair when one of the pair's two slots has it. */
  lemma HomeStored(s: seq<Entry>, hash: Hash, key: Key)
    requires Paired(s)
    ensures (exists i: nat :: Stored(s, hash, key, i, 0))
       <==> s[2 * Home(hash(key), |s|)].key == key || s[2 * Home(hash(key), |s|) + 1].key == key
  {
    var p := Home(hash(key), |s|);
    if exists i: nat :: Stored(s, hash, key, i, 0) {
      var i: nat :| Stored(s, hash, key, i, 0);
      SlotInPair(s, i);
    }
    assert s[2 * p].key == key ==> Stored(s, hash, key, 2 * p, 0);
    assert s[2 * p + 1].key == key ==> Stored(s, hash, key, 2 * p + 1, 0);
  }

  // ---------------------------------------------------------------------------
  // Seeding
  // ---------------------------------------------------------------------------

  /** The entries as a map; of equal keys the first counts. */
  function Seeds(entries: seq<Entry>): (m: Contents)
    ensures |m| <= |entries|
  {
    if entries == [] then map[]
    else
      var prior, e := Seeds(entries[..|entries| - 1]), entries[|entries| - 1];
      if e.key in prior then prior else prior[e.key := (e.val, e.ext)]
  }

  /** `with_at_least`. */
  method WithAtLeast(n: nat, minSlots: nat, hash: Hash) returns (cache: ShortPretokenCache)
    ensures fresh(cache) && fresh(cache.slots) && cache.Valid() && cache.contents == map[] && cache.hash == hash
    ensures cache.slots.Length >= minSlots && !Overloaded(n, cache.slots.Length)
  {
    var cap := RequiredCapacity(n, minSlots);
    cache := new ShortPretokenCache.WithPow2Capacity(cap, hash);
  }

  /** Seeding a cache made for `n` entries with at most `n` of them never grows it. */
  method Seeded(entries: seq<Entry>, n: nat, minSlots: nat, hash: Hash) returns (cache: ShortPretokenCache)
    requires |entries| <= n && forall e :: e in entries ==> e.key != EMPTY_KEY
    ensures fresh(cache) && cache.Valid() && cache.contents == Seeds(entries)
    ensures cache.slots.Length >= minSlots && !Overloaded(n, cache.slots.Length)
  {
    hide *;
    cache := WithAtLeast(n, minSlots, hash);
    ghost var cap := cache.slots.Length;
    for i := 0 to |entries|
      invariant fresh(cache) && fresh(cache.slots) && cache.Valid()
      invariant cache.contents == Seeds(entries[..i]) && cache.slots.Length == cap
    {
      SeedsNext(entries, i, n, cap);
      assert entries[i] in entries;
      cache.Seed(entries[i]);
    }
    assert entries[..|entries|] == entries;
  }

  lemma SeedsNext(entries: seq<Entry>, i: nat, n: nat, cap: nat)
    requires i < |entries| <= n && !Overloaded(n, cap)
    ensures var prior, e := Seeds(entries[..i]), entries[i];
      && Seeds(entries[..i + 1]) == (if e.key in prior then prior else prior[e.key := (e.val, e.ext)])
      && !Overloaded(|prior|, cap)
  {
    assert entries[..i + 1][..i] == entries[..i];
  }

  lemma TableFacts(s: seq<Entry>, hash: Hash, held: Contents)
    requires Refines(s, hash, held)
    ensures Paired(s) && EMPTY_KEY !in held
  {
  }

  lemma WalkOpen(s: seq<Entry>, hash: Hash, held: Contents, h: nat)
    requires Refines(s, hash, held)
    ensures Walking(s, hash, held, EMPTY_KEY, h, Home(h, |s|), 0, 0)
  {
  }

  lemma StepCloser(s: seq<Entry>, p: nat, room: nat)
    requires Paired(s) && p < Pairs(s) && room < Pairs(s) && PairFull(s, p) && !PairFull(s, room)
    ensures Distance(Next(p, Pairs(s)), room, Pairs(s)) < Distance(p, room, Pairs(s))
  {
  }

  lemma EmptyHolds(slots: seq<Entry>, hash: Hash, half: nat)
    requires |slots| == 2 * half && half >= 1 && forall i :: 0 <= i < |slots| ==> slots[i].key == EMPTY_KEY
    ensures Refines(slots, hash, map[])
  {
    NothingStored(slots, hash);
  }
}
