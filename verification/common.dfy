/** Small shared definitions. */
module Common {
  const TWO_32: nat := 0x1_0000_0000

  /** Parallel chunks hold at least this many bytes. */
  const MIN_CHUNK_BYTES: nat := 0x10_0000

  /** `chunk_target_bytes`, for a number of threads. */
  function ChunkTarget(total: nat, threads: nat): (target: nat)
    requires threads > 0
    ensures target >= MIN_CHUNK_BYTES
  {
    var share := total / (16 * threads);
    if share < MIN_CHUNK_BYTES then MIN_CHUNK_BYTES else share
  }

  /** About sixteen chunks for every thread, unless they would be too small. */
  lemma TargetIs(total: nat, threads: nat)
    requires threads > 0
    ensures var target := ChunkTarget(total, threads);
      (target == 0x10_0000 || target * (16 * threads) <= total) && total < (target + 1) * (16 * threads)
  {
    var d, share := 16 * threads, total / (16 * threads);
    assert share * d <= total < (share + 1) * d;
    TimesGrows(share + 1, ChunkTarget(total, threads) + 1, d);
  }

  /** Multiplication keeps the order. */
  lemma TimesGrows(a: nat, b: nat, d: nat)
    ensures a <= b ==> a * d <= b * d
  {
    if a <= b {
      assert b * d == a * d + (b - a) * d;
    }
  }

  datatype Option<+T> = None | Some(value: T)

  /** Concatenation of a sequence of sequences, in order. */
  function Concat<T>(parts: seq<seq<T>>): seq<T> {
    if parts == [] then [] else parts[0] + Concat(parts[1..])
  }

  lemma ConcatSnoc<T>(parts: seq<seq<T>>, last: seq<T>)
    ensures Concat(parts + [last]) == Concat(parts) + last
  {
    if parts == [] {
      assert parts + [last] == [last];
    } else {
      assert (parts + [last])[1..] == parts[1..] + [last];
      ConcatSnoc(parts[1..], last);
    }
  }

  lemma ConcatPlus<T>(a: seq<seq<T>>, b: seq<seq<T>>)
    ensures Concat(a + b) == Concat(a) + Concat(b)
  {
    if a == [] {
      assert a + b == b;
    } else {
      assert (a + b)[1..] == a[1..] + b;
      ConcatPlus(a[1..], b);
    }
  }
}
