/** Index facts about splicing an element into, or cutting one out of, a sequence. */
module SeqFacts {
  /** Element `i` of `s` with `x` spliced in at `k`. */
  lemma SpliceIndex<T>(s: seq<T>, k: nat, x: T, i: nat)
    requires k <= |s| && i <= |s|
    ensures (s[..k] + [x] + s[k..])[i] == if i < k then s[i] else if i == k then x else s[i - 1]
  {
  }

  /** Element `i` of `s` with the element at `k` cut out. */
  lemma CutIndex<T>(s: seq<T>, k: nat, i: nat)
    requires k < |s| && i < |s| - 1
    ensures (s[..k] + s[k + 1..])[i] == if i < k then s[i] else s[i + 1]
  {
  }

  /** Element `i` of `s` with `x` put in front. */
  lemma ConsIndex<T>(s: seq<T>, x: T, i: nat)
    requires i <= |s|
    ensures ([x] + s)[i] == if i == 0 then x else s[i - 1]
  {
  }
}
