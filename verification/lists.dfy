/** The list primitives the board is built from: JavaScript's `filter` and
    `findIndex`, and `arrayMove` of the sortable drag-and-drop library. */
module Lists {

  /** `s.filter(p)`: the elements of `s` that satisfy `p`, in their order. */
  function Filter<T>(s: seq<T>, p: T -> bool): (r: seq<T>)
    ensures |r| <= |s|
    ensures forall i :: 0 <= i < |r| ==> r[i] in s && p(r[i])
    ensures forall i :: 0 <= i < |s| && p(s[i]) ==> s[i] in r
  {
    if s == [] then []
    else if p(s[0]) then [s[0]] + Filter(s[1..], p) else Filter(s[1..], p)
  }

  /** Filtering distributes over concatenation: the kept elements stay in order. */
  lemma {:induction false} FilterConcat<T>(a: seq<T>, b: seq<T>, p: T -> bool)
    ensures Filter(a + b, p) == Filter(a, p) + Filter(b, p)
  {
    if a == [] {
      assert a + b == b;
    } else {
      assert (a + b)[0] == a[0];
      assert (a + b)[1..] == a[1..] + b;
      FilterConcat(a[1..], b, p);
    }
  }

  /** A filter that rejects nothing returns its input. */
  lemma {:induction false} FilterKeepsAll<T>(s: seq<T>, p: T -> bool)
    requires forall i :: 0 <= i < |s| ==> p(s[i])
    ensures Filter(s, p) == s
  {
    if s != [] {
      FilterKeepsAll(s[1..], p);
    }
  }

  /** Filtering twice with the same predicate is filtering once. */
  lemma FilterIdempotent<T>(s: seq<T>, p: T -> bool)
    ensures Filter(Filter(s, p), p) == Filter(s, p)
  {
    FilterKeepsAll(Filter(s, p), p);
  }

  /** `s.findIndex(x => x === v)` on a list of keys: -1 when absent, else the first position. */
  function IndexOf<T(==)>(xs: seq<T>, v: T): (r: int)
    ensures -1 <= r < |xs|
    ensures r == -1 <==> v !in xs
    ensures 0 <= r ==> xs[r] == v && forall i :: 0 <= i < r ==> xs[i] != v
  {
    if xs == [] then -1
    else if xs[0] == v then 0
    else
      var k := IndexOf(xs[1..], v);
      if k == -1 then -1 else k + 1
  }

  /** No key occurs twice. */
  ghost predicate Distinct<T>(xs: seq<T>) {
    forall i, j :: 0 <= i < j < |xs| ==> xs[i] != xs[j]
  }

  /** In a list without repeats, the key at position k is found at position k. */
  lemma IndexOfDistinct<T>(xs: seq<T>, k: nat)
    requires Distinct(xs) && k < |xs|
    ensures IndexOf(xs, xs[k]) == k
  {
  }

  /** The list without its element at position k. */
  function RemoveAt<T>(s: seq<T>, k: nat): (r: seq<T>)
    requires k < |s|
    ensures |r| == |s| - 1
    ensures forall i :: 0 <= i < |r| ==> r[i] == if i < k then s[i] else s[i + 1]
  {
    s[..k] + s[k + 1..]
  }

  lemma RemoveAtMultiset<T>(s: seq<T>, k: nat)
    requires k < |s|
    ensures multiset(RemoveAt(s, k)) + multiset{s[k]} == multiset(s)
  {
    assert s == s[..k] + [s[k]] + s[k + 1..];
  }

  /** The list with x inserted so that it sits at position k. */
  function InsertAt<T>(s: seq<T>, k: nat, x: T): (r: seq<T>)
    requires k <= |s|
    ensures |r| == |s| + 1
    ensures r[k] == x
    ensures forall i :: 0 <= i < |r| && i != k ==> r[i] == if i < k then s[i] else s[i - 1]
  {
    s[..k] + [x] + s[k..]
  }

  lemma InsertAtMultiset<T>(s: seq<T>, k: nat, x: T)
    requires k <= |s|
    ensures multiset(InsertAt(s, k, x)) == multiset(s) + multiset{x}
  {
    assert s == s[..k] + s[k..];
  }

  lemma RemoveInsert<T>(s: seq<T>, k: nat, x: T)
    requires k <= |s|
    ensures RemoveAt(InsertAt(s, k, x), k) == s
  {
  }

  lemma InsertRemove<T>(s: seq<T>, k: nat)
    requires k < |s|
    ensures InsertAt(RemoveAt(s, k), k, s[k]) == s
  {
  }

  /** `arrayMove(s, from, to)` for indices in range: the element at `from` is
      taken out and put back so that it sits at `to`. */
  function ArrayMove<T>(s: seq<T>, from: nat, to: nat): (r: seq<T>)
    requires from < |s| && to < |s|
    ensures |r| == |s|
    ensures multiset(r) == multiset(s)
    ensures r[to] == s[from]
    ensures RemoveAt(r, to) == RemoveAt(s, from)
  {
    RemoveInsert(RemoveAt(s, from), to, s[from]);
    RemoveAtMultiset(s, from);
    InsertAtMultiset(RemoveAt(s, from), to, s[from]);
    InsertAt(RemoveAt(s, from), to, s[from])
  }

  /** Where the element at position k of `ArrayMove(s, from, to)` came from:
      the moved element lands on `to`, the ones in between shift by one towards
      `from`, the rest stay where they were. */
  function MoveSource(from: nat, to: nat, k: nat): nat
  {
    if k == to then from
    else if from < to && from <= k < to then k + 1
    else if to < from && to < k <= from then k - 1
    else k
  }

  /** `arrayMove` as a shift: an independent, position-by-position reading. */
  lemma ArrayMoveAt<T>(s: seq<T>, from: nat, to: nat, k: nat)
    requires from < |s| && to < |s| && k < |s|
    ensures MoveSource(from, to, k) < |s|
    ensures ArrayMove(s, from, to)[k] == s[MoveSource(from, to, k)]
  {
    var r := ArrayMove(s, from, to);
    var t := RemoveAt(s, from);
    if k != to {
      assert r[k] == if k < to then t[k] else t[k - 1];
    }
  }

  /** Moving an element onto its own position changes nothing (`arrayMove(s, i, i)`). */
  lemma ArrayMoveSame<T>(s: seq<T>, i: nat)
    requires i < |s|
    ensures ArrayMove(s, i, i) == s
  {
    InsertRemove(s, i);
  }

  /** The inverse law: moving back with the indices swapped restores the list. */
  lemma {:induction false} ArrayMoveInverse<T>(s: seq<T>, from: nat, to: nat)
    requires from < |s| && to < |s|
    ensures ArrayMove(ArrayMove(s, from, to), to, from) == s
  {
    var r := ArrayMove(s, from, to);
    assert RemoveAt(r, to) == RemoveAt(s, from);
    InsertRemove(s, from);
  }

  /** A move keeps a list free of repeats. */
  lemma ArrayMoveDistinct<T>(s: seq<T>, from: nat, to: nat)
    requires from < |s| && to < |s| && Distinct(s)
    ensures Distinct(ArrayMove(s, from, to))
  {
    var r := ArrayMove(s, from, to);
    forall i, j | 0 <= i < j < |r| ensures r[i] != r[j] {
      ArrayMoveAt(s, from, to, i);
      ArrayMoveAt(s, from, to, j);
      assert MoveSource(from, to, i) != MoveSource(from, to, j);
    }
  }

  /** A rejected first element contributes nothing. */
  lemma FilterConsRejected<T>(x: T, b: seq<T>, p: T -> bool)
    requires !p(x)
    ensures Filter([x] + b, p) == Filter(b, p)
  {
    var s := [x] + b;
    assert s[0] == x && s[1..] == b;
  }

  /** Dropping an element the filter rejects does not change the filtered list. */
  lemma FilterRemoveRejected<T>(s: seq<T>, k: nat, p: T -> bool)
    requires k < |s| && !p(s[k])
    ensures Filter(RemoveAt(s, k), p) == Filter(s, p)
  {
    var a, b := s[..k], s[k + 1..];
    assert s == a + ([s[k]] + b);
    assert RemoveAt(s, k) == a + b;
    FilterConsRejected(s[k], b, p);
    FilterConcat(a, [s[k]] + b, p);
    FilterConcat(a, b, p);
  }

  /** Inserting an element the filter rejects does not change the filtered list. */
  lemma FilterInsertRejected<T>(s: seq<T>, k: nat, x: T, p: T -> bool)
    requires k <= |s| && !p(x)
    ensures Filter(InsertAt(s, k, x), p) == Filter(s, p)
  {
    RemoveInsert(s, k, x);
    FilterRemoveRejected(InsertAt(s, k, x), k, p);
  }

  /** When exactly the element at k is rejected, filtering removes just that position. */
  lemma FilterRejectsOne<T>(s: seq<T>, k: nat, p: T -> bool)
    requires k < |s| && !p(s[k])
    requires forall i :: 0 <= i < |s| && i != k ==> p(s[i])
    ensures Filter(s, p) == RemoveAt(s, k)
  {
    FilterRemoveRejected(s, k, p);
    var t := RemoveAt(s, k);
    forall i | 0 <= i < |t| ensures p(t[i]) {
      assert t[i] == if i < k then s[i] else s[i + 1];
    }
    FilterKeepsAll(t, p);
  }

  /** Moving an element the filter rejects leaves the filtered list as it was. */
  lemma FilterArrayMoveRejected<T>(s: seq<T>, from: nat, to: nat, p: T -> bool)
    requires from < |s| && to < |s| && !p(s[from])
    ensures Filter(ArrayMove(s, from, to), p) == Filter(s, p)
  {
    FilterInsertRejected(RemoveAt(s, from), to, s[from], p);
    FilterRemoveRejected(s, from, p);
  }

  /** Replacing a rejected element by another rejected one leaves the filtered list as it was. */
  lemma FilterReplaceRejected<T>(s: seq<T>, k: nat, y: T, p: T -> bool)
    requires k < |s| && !p(s[k]) && !p(y)
    ensures Filter(s[k := y], p) == Filter(s, p)
  {
    assert RemoveAt(s[k := y], k) == RemoveAt(s, k);
    FilterRemoveRejected(s[k := y], k, p);
    FilterRemoveRejected(s, k, p);
  }
}
