/** The two JavaScript string operations the modifier parser relies on. */
module Strings {
  import opened Wrappers

  /** `t` occurs in `s` starting at index `k`. */
  predicate OccursAt(s: string, t: string, k: int) {
    0 <= k && k + |t| <= |s| && s[k..k + |t|] == t
  }

  /** Two adjacent occurrences form an occurrence of the concatenation. */
  lemma OccursConcat(s: string, a: string, b: string, k: int)
    requires OccursAt(s, a, k) && OccursAt(s, b, k + |a|)
    ensures OccursAt(s, a + b, k)
  {
    assert s[k..k + |a| + |b|] == s[k..k + |a|] + s[k + |a|..k + |a| + |b|];
  }

  /** `s.indexOf(t, from)`: the first occurrence of `t` at or after `from`, if any. */
  function IndexOf(s: string, t: string, from: nat): (r: Option<nat>)
    ensures r.Some? ==> from <= r.value && OccursAt(s, t, r.value)
    ensures r.Some? ==> forall k :: from <= k < r.value ==> !OccursAt(s, t, k)
    ensures r.None? ==> forall k :: from <= k ==> !OccursAt(s, t, k)
    decreases |s| - from
  {
    if from + |t| > |s| then None
    else if s[from..from + |t|] == t then Some(from)
    else IndexOf(s, t, from + 1)
  }

  /** `s.replace(t, '')` with a string pattern: removes the FIRST occurrence of `t`, wherever it is. */
  function DeleteFirst(s: string, t: string): (r: string)
    ensures forall k :: OccursAt(s, t, k) ==> |r| == |s| - |t|
    ensures (forall k :: !OccursAt(s, t, k)) ==> r == s
  {
    match IndexOf(s, t, 0)
    case None => s
    case Some(f) => s[..f] + s[f + |t|..]
  }

  /** When `t` first occurs at `k`, `DeleteFirst` cuts out exactly `s[k..k + |t|]`. */
  lemma DeleteFirstAt(s: string, t: string, k: nat)
    requires OccursAt(s, t, k)
    requires forall j :: 0 <= j < k ==> !OccursAt(s, t, j)
    ensures DeleteFirst(s, t) == s[..k] + s[k + |t|..]
  {
    var f := IndexOf(s, t, 0);
    assert f.Some?;
    assert f.value == k;
  }
}
