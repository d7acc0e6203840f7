/** The doubly-linked list every merge loop lays over index arrays, and what one merge does to it. */
module MergeList {
  import opened MergeSpec

  /** `live` are the surviving positions below `n`, in order; a link of `n` or more is no neighbour. */
  ghost predicate Linked(next: seq<nat>, prev: seq<nat>, live: seq<nat>, n: nat) {
    && n <= |next| && n <= |prev|
    && Increasing(live, n)
    && (forall k :: 0 <= k < |live| - 1 ==> next[live[k]] == live[k + 1])
    && (forall k :: 0 < k < |live| ==> prev[live[k]] == live[k - 1])
    && next[live[|live| - 1]] >= n
    && prev[0] >= n
  }

  /** Strictly increasing positions below `n`, the first of which is position 0. */
  ghost predicate Increasing(live: seq<nat>, n: nat) {
    && 0 < |live| && live[0] == 0 && Within(live, n)
    && (forall j, k :: 0 <= j < k < |live| ==> live[j] < live[k])
  }

  ghost predicate Within(live: seq<nat>, n: nat) {
    forall k :: 0 <= k < |live| ==> live[k] < n
  }

  ghost function Survivors(symbols: seq<Token>, live: seq<nat>): (s: seq<Token>)
    requires Within(live, |symbols|)
    ensures |s| == |live|
    ensures forall k :: 0 <= k < |live| ==> s[k] == symbols[live[k]]
  {
    seq(|live|, k requires 0 <= k < |live| => symbols[live[k]])
  }

  ghost function Drop(live: seq<nat>, k: nat): (r: seq<nat>)
    requires k < |live|
    ensures |r| == |live| - 1
    ensures forall j :: 0 <= j < |r| ==> r[j] == if j < k then live[j] else live[j + 1]
  {
    live[..k] + live[k + 1..]
  }

  ghost function AllPositions(n: nat): (r: seq<nat>)
    ensures |r| == n && forall k :: 0 <= k < n ==> r[k] == k
  {
    seq(n, k => k)
  }

  lemma IncreasingDrop(live: seq<nat>, n: nat, k: nat)
    requires Increasing(live, n) && 0 < k < |live|
    ensures Increasing(Drop(live, k), n)
  {
  }

  /** The k-th survivor sits at position k or later. */
  lemma {:induction false} IncreasingAtLeast(live: seq<nat>, n: nat, k: nat)
    requires Increasing(live, n) && k < |live|
    ensures k <= live[k]
  {
    if k > 0 {
      IncreasingAtLeast(live, n, k - 1);
      assert live[k - 1] < live[k];
    }
  }

  /** Unlinking the right element of the pair at `k` keeps the list, whatever becomes of its own links. */
  lemma Unlink(next: seq<nat>, prev: seq<nat>, live: seq<nat>, n: nat, k: nat, next': seq<nat>, prev': seq<nat>)
    requires Linked(next, prev, live, n) && k + 1 < |live|
    requires |next'| == |next| && |prev'| == |prev|
    requires next'[live[k]] == next[live[k + 1]]
    requires k + 2 < |live| ==> prev'[live[k + 2]] == live[k]
    requires forall p :: 0 <= p < n && p != live[k] && p != live[k + 1] ==> next'[p] == next[p]
    requires forall p :: 0 <= p < n && p != live[k + 1] && (k + 2 < |live| ==> p != live[k + 2]) ==> prev'[p] == prev[p]
    ensures Linked(next', prev', Drop(live, k + 1), n)
  {
    IncreasingDrop(live, n, k + 1);
    UnlinkNext(next, prev, live, n, k, next');
    UnlinkPrev(next, prev, live, n, k, prev');
  }

  lemma UnlinkNext(next: seq<nat>, prev: seq<nat>, live: seq<nat>, n: nat, k: nat, next': seq<nat>)
    requires Linked(next, prev, live, n) && k + 1 < |live|
    requires |next'| == |next|
    requires next'[live[k]] == next[live[k + 1]]
    requires forall p :: 0 <= p < n && p != live[k] && p != live[k + 1] ==> next'[p] == next[p]
    ensures var r := Drop(live, k + 1);
      (forall j :: 0 <= j < |r| - 1 ==> next'[r[j]] == r[j + 1]) && next'[r[|r| - 1]] >= n
  {
    var r := Drop(live, k + 1);
    forall j | 0 <= j < |r|
      ensures j < |r| - 1 ==> next'[r[j]] == r[j + 1]
      ensures j == |r| - 1 ==> next'[r[j]] >= n
    {
      if j < k {
        assert live[j] < live[k] < live[k + 1];
        assert next'[live[j]] == next[live[j]];
      } else if j > k {
        assert live[k] < live[k + 1] < live[j + 1];
        assert next'[live[j + 1]] == next[live[j + 1]];
      }
    }
  }

  lemma UnlinkPrev(next: seq<nat>, prev: seq<nat>, live: seq<nat>, n: nat, k: nat, prev': seq<nat>)
    requires Linked(next, prev, live, n) && k + 1 < |live|
    requires |prev'| == |prev|
    requires k + 2 < |live| ==> prev'[live[k + 2]] == live[k]
    requires forall p :: 0 <= p < n && p != live[k + 1] && (k + 2 < |live| ==> p != live[k + 2]) ==> prev'[p] == prev[p]
    ensures var r := Drop(live, k + 1);
      (forall j :: 0 < j < |r| ==> prev'[r[j]] == r[j - 1]) && prev'[0] >= n
  {
    var r := Drop(live, k + 1);
    forall j | 0 <= j < |r|
      ensures 0 < j ==> prev'[r[j]] == r[j - 1]
      ensures j == 0 ==> prev'[r[j]] >= n
    {
      if j <= k {
        assert live[j] < live[k + 1];
        assert k + 2 < |live| ==> live[k + 1] < live[k + 2];
        assert prev'[live[j]] == prev[live[j]];
      } else if j > k + 1 {
        assert live[k + 1] < live[k + 2] < live[j + 1];
        assert prev'[live[j + 1]] == prev[live[j + 1]];
      }
    }
  }

  /** Overwriting the left symbol and dropping the right one merges the pair. */
  lemma SurvivorsMerge(symbols: seq<Token>, live: seq<nat>, k: nat, t: Token)
    requires Increasing(live, |symbols|) && k + 1 < |live|
    ensures Within(Drop(live, k + 1), |symbols|)
    ensures Survivors(symbols[live[k] := t], Drop(live, k + 1)) == MergeAt(Survivors(symbols, live), k, t)
  {
    var before, after := Survivors(symbols, live), Survivors(symbols[live[k] := t], Drop(live, k + 1));
    var merged := MergeAt(before, k, t);
    forall j | 0 <= j < |after|
      ensures after[j] == merged[j]
    {
      if j < k {
        assert live[j] < live[k];
      } else if j > k {
        assert live[k] < live[j + 1];
        assert merged[j] == before[j + 1];
      }
    }
  }

  /** The survivors, moved to the front of `symbols` in list order. */
  method Compact(symbols: array<Token>, next: array<nat>, ghost prev: seq<nat>, ghost live: seq<nat>, n: nat) returns (write: nat)
    requires n <= symbols.Length && Linked(next[..], prev, live, n) && symbols != next
    modifies symbols
    ensures write <= symbols.Length && symbols[..write] == old(Survivors(symbols[..], live))
  {
    write := 0;
    var i := 0;
    ghost var all := Survivors(symbols[..], live);
    while i < n
      invariant write <= |live|
      invariant if write < |live| then i == live[write] else i >= n
      invariant write <= symbols.Length
      invariant symbols[..write] == all[..write]
      invariant forall k :: write <= k < |live| ==> symbols[live[k]] == all[k]
      decreases |live| - write
    {
      IncreasingAtLeast(live, n, write);
      symbols[write] := symbols[i];
      assert all[..write + 1] == all[..write] + [all[write]];
      i := next[i];
      write := write + 1;
    }
    assert all[..write] == all;
  }
}
