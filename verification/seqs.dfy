/**
 The two array operations the tracker applies to its collections:
 `Array.prototype.splice(idx, 1)` (delete by position) and
 `Array.prototype.filter` (the calendar's per-day selection).
 */
module Seqs {

  /** Where `splice(idx, 1)` starts on an array of length `len`: a negative
      index counts from the end (clamped at 0), a large one clamps at `len`. */
  function SpliceStart(len: nat, idx: int): (k: nat)
    ensures k <= len
    ensures 0 <= idx <= len ==> k == idx
    ensures idx > len ==> k == len
    ensures idx < 0 && len + idx >= 0 ==> k == len + idx
    ensures len + idx < 0 ==> k == 0
  {
    if idx < 0 then (if len + idx < 0 then 0 else len + idx)
    else if idx > len then len
    else idx
  }

  /** `s.splice(idx, 1)`: the array left after removing one element at `idx`. */
  function RemoveAt<T>(s: seq<T>, idx: int): (r: seq<T>)
    ensures 0 <= idx < |s| ==> |r| == |s| - 1
    ensures 0 <= idx < |s| ==> forall j :: 0 <= j < idx ==> r[j] == s[j]
    ensures 0 <= idx < |s| ==> forall j :: idx <= j < |r| ==> r[j] == s[j + 1]
    ensures 0 <= idx < |s| ==> multiset(r) + multiset{s[idx]} == multiset(s)
    ensures idx >= |s| ==> r == s
    ensures idx < 0 ==> r == RemoveAt(s, SpliceStart(|s|, idx))
    decreases if idx < 0 then 1 else 0
  {
    var k := SpliceStart(|s|, idx);
    if k < |s| then
      assert s == s[..k] + [s[k]] + s[k + 1..];
      s[..k] + s[k + 1..]
    else
      s
  }

  /** Putting the removed element back where it was restores the array. */
  lemma RemoveAtThenReinsert<T>(s: seq<T>, i: int)
    requires 0 <= i < |s|
    ensures RemoveAt(s, i)[..i] + [s[i]] + RemoveAt(s, i)[i..] == s
  {
    var r := RemoveAt(s, i);
    var t := r[..i] + [s[i]] + r[i..];
    assert |t| == |s|;
    forall j | 0 <= j < |s| ensures t[j] == s[j] {
      if j < i {
        assert t[j] == r[j];
      } else if j > i {
        assert t[j] == r[j - 1];
      }
    }
  }

  /** `s.filter(p)`. */
  function Filter<T(!new)>(p: T -> bool, s: seq<T>): (r: seq<T>)
    ensures |r| <= |s|
    ensures forall x :: multiset(r)[x] == if p(x) then multiset(s)[x] else 0
  {
    if |s| == 0 then
      []
    else
      var r := Filter(p, s[..|s| - 1]);
      assert s == s[..|s| - 1] + [s[|s| - 1]];
      if p(s[|s| - 1]) then r + [s[|s| - 1]] else r
  }

  /** Filtering distributes over concatenation, so survivors keep the order
      they had in the input. */
  lemma {:induction false} FilterConcat<T(!new)>(p: T -> bool, a: seq<T>, b: seq<T>)
    ensures Filter(p, a + b) == Filter(p, a) + Filter(p, b)
    decreases |b|
  {
    if |b| == 0 {
      assert a + b == a;
    } else {
      var b' := b[..|b| - 1];
      assert (a + b)[..|a + b| - 1] == a + b';
      FilterConcat(p, a, b');
    }
  }

  /** A filter keeps an element exactly when it satisfies the predicate. */
  lemma FilterMembership<T(!new)>(p: T -> bool, s: seq<T>, x: T)
    ensures x in Filter(p, s) <==> x in s && p(x)
  {
    var r := Filter(p, s);
    assert x in r <==> multiset(r)[x] > 0;
    assert x in s <==> multiset(s)[x] > 0;
  }
}
