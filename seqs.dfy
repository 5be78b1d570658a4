/**
 * Sequence helpers shared by the extractors: an Option type for Python's
 * `None`, the `list(set(xs))` deduplication and the `", ".join(xs)` join.
 */
module Seqs {

  /** `None` or a value, as the extractors return for an absent field. */
  datatype Option<+T> = None | Some(value: T)

  /** `xs[0] if xs else None`. */
  function First<T>(xs: seq<T>): Option<T>
  {
    if xs == [] then None else Some(xs[0])
  }

  predicate NoDuplicates<T(==)>(xs: seq<T>)
  {
    forall i, j | 0 <= i < j < |xs| :: xs[i] != xs[j]
  }

  predicate StartsWith(s: string, prefix: string)
  {
    |prefix| <= |s| && s[..|prefix|] == prefix
  }

  /** `w` stands in `s` starting at index `i`. */
  predicate OccursAt(w: string, s: string, i: nat)
  {
    i + |w| <= |s| && s[i..i + |w|] == w
  }

  ghost predicate IsSubstring(w: string, s: string)
  {
    exists i: nat :: OccursAt(w, s, i)
  }

  /**
   * `list(set(xs))`. Python gives no order for the result; this model keeps
   * the first occurrence of each element, and everything stated about it
   * holds for any listing of the same set.
   */
  function Dedup<T(==)>(xs: seq<T>): (r: seq<T>)
    ensures NoDuplicates(r)
    ensures forall x | x in xs :: x in r
    ensures forall x | x in r :: x in xs
    ensures |r| <= |xs|
    decreases |xs|
  {
    if xs == [] then []
    else
      var init := xs[..|xs| - 1];
      assert xs == init + [xs[|xs| - 1]];
      var rest := Dedup(init);
      if xs[|xs| - 1] in rest then rest else rest + [xs[|xs| - 1]]
  }

  /** `sep.join(xs)`. */
  function Join(xs: seq<string>, sep: string): string
  {
    if xs == [] then ""
    else if |xs| == 1 then xs[0]
    else xs[0] + sep + Join(xs[1..], sep)
  }

  /** Every joined piece can be found in the joined string. */
  lemma {:induction false} JoinContainsEach(xs: seq<string>, sep: string, k: nat)
    requires k < |xs|
    ensures IsSubstring(xs[k], Join(xs, sep))
  {
    var s := Join(xs, sep);
    if |xs| == 1 {
      assert OccursAt(xs[0], s, 0);
    } else if k == 0 {
      assert s == xs[0] + (sep + Join(xs[1..], sep));
      assert OccursAt(xs[0], s, 0);
    } else {
      var tail := Join(xs[1..], sep);
      JoinContainsEach(xs[1..], sep, k - 1);
      var i: nat :| OccursAt(xs[k], tail, i);
      var off := |xs[0]| + |sep|;
      assert s == (xs[0] + sep) + tail;
      assert s[off + i..off + i + |xs[k]|] == tail[i..i + |xs[k]|];
      assert OccursAt(xs[k], s, off + i);
    }
  }
}
