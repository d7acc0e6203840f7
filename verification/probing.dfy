/** Linear probing around a ring of cells, some of them full. */
module Probing {
  predicate PowerOfTwo(n: nat) {
    n == 1 || (n >= 2 && n % 2 == 0 && PowerOfTwo(n / 2))
  }

  lemma PowerDoubles(n: nat)
    requires PowerOfTwo(n)
    ensures PowerOfTwo(n * 2)
  {
  }

  function Next(i: nat, n: nat): (r: nat)
    requires i < n
    ensures r < n
  {
    if i + 1 == n then 0 else i + 1
  }

  /** The cell `d` steps after `i`. */
  function Cell(i: nat, d: nat, n: nat): (r: nat)
    requires i < n
    ensures r < n
    decreases d
  {
    if d == 0 then i else Cell(Next(i, n), d - 1, n)
  }

  /** The `d` cells from `i` on are all full. */
  ghost predicate Path(full: seq<bool>, i: nat, d: nat)
    requires i < |full|
    decreases d
  {
    d == 0 || (full[i] && Path(full, Next(i, |full|), d - 1))
  }

  /** Steps from `i` forward to `e`. */
  function Distance(i: nat, e: nat, n: nat): nat
    requires i < n && e < n
  {
    if i <= e then e - i else n - i + e
  }

  lemma {:induction false} PathExtend(full: seq<bool>, i: nat, d: nat)
    requires i < |full| && Path(full, i, d) && full[Cell(i, d, |full|)]
    ensures Path(full, i, d + 1) && Cell(i, d + 1, |full|) == Next(Cell(i, d, |full|), |full|)
    decreases d
  {
    if d > 0 {
      PathExtend(full, Next(i, |full|), d - 1);
    }
  }

  /** Filling cells keeps every path. */
  lemma {:induction false} PathGrows(full: seq<bool>, full': seq<bool>, i: nat, d: nat)
    requires |full| == |full'| && i < |full| && Path(full, i, d)
    requires forall k :: 0 <= k < |full| && full[k] ==> full'[k]
    ensures Path(full', i, d)
    decreases d
  {
    if d > 0 {
      PathGrows(full, full', Next(i, |full|), d - 1);
    }
  }

  /** Two paths from one cell to empty cells are the same path. */
  lemma {:induction false} PathsMeet(full: seq<bool>, i: nat, d: nat, d': nat)
    requires i < |full| && Path(full, i, d) && Path(full, i, d')
    requires !full[Cell(i, d, |full|)] && !full[Cell(i, d', |full|)]
    ensures d == d'
    decreases d
  {
    if d > 0 && d' > 0 {
      PathsMeet(full, Next(i, |full|), d - 1, d' - 1);
    }
  }

  function CountFull(full: seq<bool>): (c: nat)
    ensures c <= |full|
  {
    if full == [] then 0 else (if full[0] then 1 else 0) + CountFull(full[1..])
  }

  lemma {:induction false} CountFill(full: seq<bool>, i: nat)
    requires i < |full| && !full[i]
    ensures CountFull(full[i := true]) == CountFull(full) + 1
  {
    if i > 0 {
      CountFill(full[1..], i - 1);
      assert full[i := true][1..] == full[1..][i - 1 := true];
    } else {
      assert full[i := true][1..] == full[1..];
    }
  }

  /** A cell not on the path may be emptied. */
  lemma {:induction false} PathAvoids(full: seq<bool>, i: nat, d: nat, e: nat)
    requires i < |full| && e < |full| && Path(full, i, d) && d <= Distance(i, e, |full|)
    ensures Path(full[e := false], i, d)
    decreases d
  {
    if d > 0 {
      PathAvoids(full, Next(i, |full|), d - 1, e);
    }
  }

  /** A path of full cells counts them all, up to once around. */
  lemma {:induction false} PathCount(full: seq<bool>, i: nat, d: nat)
    requires i < |full| && Path(full, i, d)
    ensures CountFull(full) >= if d < |full| then d else |full|
    decreases d
  {
    if d > |full| {
      PathPrefix(full, i, d, |full|);
      PathCount(full, i, |full|);
    } else if d > 0 {
      var rest := full[i := false];
      PathAvoids(full, Next(i, |full|), d - 1, i);
      PathCount(rest, Next(i, |full|), d - 1);
      CountFill(rest, i);
      assert rest[i := true] == full;
    }
  }

  lemma {:induction false} PathPrefix(full: seq<bool>, i: nat, d: nat, k: nat)
    requires i < |full| && Path(full, i, d) && k <= d
    ensures Path(full, i, k)
    decreases d
  {
    if k > 0 {
      PathPrefix(full, Next(i, |full|), d - 1, k - 1);
    }
  }

  /** A ring with fewer full cells than cells has an empty one. */
  lemma {:induction false} SomeEmpty(full: seq<bool>) returns (e: nat)
    requires CountFull(full) < |full|
    ensures e < |full| && !full[e]
  {
    if full[0] {
      e := SomeEmpty(full[1..]);
      e := e + 1;
    } else {
      e := 0;
    }
  }

  lemma {:induction false} NoneFull(full: seq<bool>)
    requires forall k :: 0 <= k < |full| ==> !full[k]
    ensures CountFull(full) == 0
  {
    if full != [] {
      NoneFull(full[1..]);
    }
  }
}
