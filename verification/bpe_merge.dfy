/** The merge entry points: short sequences scan, longer ones use the heap. */
module BpeMerge {
  import opened MergeSpec
  import MergeScan
  import MergeHeap

  /** Short sequences by scanning, longer ones by the heap, `none` being the link to no neighbour. */
  method MergeSymbolsWith(none: nat, rules: Rules, symbols: array<Token>) returns (len: nat)
    requires MergeScan.RanksFit(rules)
    requires symbols.Length <= none
    modifies symbols
    ensures len <= symbols.Length
    ensures symbols[..len] == MergeAll(rules, old(symbols[..]))
  {
    var n := symbols.Length;
    if n < 2 {
      assert symbols[..n] == symbols[..];
      return n;
    }
    if n <= MergeScan.SMALL_MERGE_MAX {
      assert symbols[..n] == symbols[..];
      len := MergeScan.MergeScanned(rules, symbols, n, MergeScan.SMALL_MERGE_MAX);
    } else {
      ghost var merges, pops;
      len, merges, pops := MergeHeap.MergeWithHeap(none, rules, symbols);
    }
  }

  /** `bpe_merge_symbols_ranked`, over any table of ranks below the no-merge rank; its positions are usize, which no
      sequence outgrows. */
  method MergeSymbols(rules: Rules, symbols: array<Token>) returns (len: nat)
    requires MergeScan.RanksFit(rules)
    modifies symbols
    ensures len <= symbols.Length
    ensures symbols[..len] == MergeAll(rules, old(symbols[..]))
  {
    len := MergeSymbolsWith(symbols.Length, rules, symbols);
  }

  /** `bpe_merge_symbols_by_rank`: the rank is the merged token; positions are u32. */
  method MergeSymbolsByRank(getRank: (Token, Token) -> nat, symbols: array<Token>) returns (len: nat)
    requires forall a, b :: getRank(a, b) <= NO_RANK
    requires symbols.Length <= MergeHeap.NONE
    modifies symbols
    ensures len <= symbols.Length
    ensures symbols[..len] == MergeAll(RankRules(getRank), old(symbols[..]))
  {
    len := MergeSymbolsWith(MergeHeap.NONE, RankRules(getRank), symbols);
  }
}
