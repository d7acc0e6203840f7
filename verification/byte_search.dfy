/** Substring search: the first occurrence at or after a position. */
module ByteSearch {
  import opened Common
  import opened Utf8

  function FindFrom(s: Bytes, u: Bytes, from: nat): (r: Option<nat>)
    ensures r.Some? ==> from <= r.value && OccursAt(s, u, r.value)
    ensures r.Some? ==> forall p :: from <= p < r.value ==> !OccursAt(s, u, p)
    ensures r.None? ==> forall p :: from <= p ==> !OccursAt(s, u, p)
    decreases |s| - from
  {
    if from + |u| > |s| then None
    else if OccursAt(s, u, from) then Some(from)
    else FindFrom(s, u, from + 1)
  }
}
