/** Small generic helpers over sequences: an optional value, order-preserving
    filtering, the subsequence relation, and the ordered sets that JavaScript's
    `Set` (which remembers insertion order) stands for. */
module Common {

  /** A value that may be absent (JavaScript's `undefined`). */
  datatype Option<+T> = None | Some(value: T)

  /** `xs.filter(keep)`. */
  function Filter<T>(xs: seq<T>, keep: T -> bool): (r: seq<T>)
    ensures |r| <= |xs|
    ensures forall x :: x in r ==> x in xs && keep(x)
  {
    if xs == [] then []
    else if keep(xs[0]) then [xs[0]] + Filter(xs[1..], keep)
    else Filter(xs[1..], keep)
  }

  /** `ys` is `xs` with some elements left out and the rest kept in order. */
  predicate IsSubsequence<T(==)>(ys: seq<T>, xs: seq<T>)
    decreases |xs|
  {
    if ys == [] then true
    else if xs == [] then false
    else if ys[0] == xs[0] then IsSubsequence(ys[1..], xs[1..])
    else IsSubsequence(ys, xs[1..])
  }

  lemma {:induction false} SubsequenceOfSelf<T>(xs: seq<T>)
    ensures IsSubsequence(xs, xs)
  {
    if xs != [] {
      SubsequenceOfSelf(xs[1..]);
    }
  }

  lemma {:induction false} SubsequenceDropFront<T>(ys: seq<T>, xs: seq<T>)
    requires ys != [] && IsSubsequence(ys, xs)
    ensures IsSubsequence(ys[1..], xs)
    decreases |xs|, 1
  {
    if ys[0] == xs[0] {
      SubsequenceSkip(ys[1..], xs);
    } else {
      SubsequenceDropFront(ys, xs[1..]);
      SubsequenceSkip(ys[1..], xs);
    }
  }

  lemma {:induction false} SubsequenceSkip<T>(ys: seq<T>, xs: seq<T>)
    requires xs != [] && IsSubsequence(ys, xs[1..])
    ensures IsSubsequence(ys, xs)
    decreases |xs|, 0
  {
    if ys != [] && ys[0] == xs[0] {
      SubsequenceDropFront(ys, xs[1..]);
    }
  }

  /** Filtering keeps exactly the elements that pass, in their original order. */
  lemma {:induction false} FilterIsSubsequence<T>(xs: seq<T>, keep: T -> bool)
    ensures IsSubsequence(Filter(xs, keep), xs)
    ensures forall x :: x in xs ==> (x in Filter(xs, keep) <==> keep(x))
  {
    if xs != [] {
      FilterIsSubsequence(xs[1..], keep);
      var rest := Filter(xs[1..], keep);
      if !keep(xs[0]) && rest != [] {
        assert IsSubsequence(rest, xs[1..]);
        assert rest[0] in xs[1..] && keep(rest[0]);
      }
      if !keep(xs[0]) && rest != [] && rest[0] == xs[0] {
        assert false;
      }
    }
  }

  /** Keeping everything changes nothing. */
  lemma {:induction false} FilterAll<T>(xs: seq<T>, keep: T -> bool)
    requires forall x :: x in xs ==> keep(x)
    ensures Filter(xs, keep) == xs
  {
    if xs != [] {
      FilterAll(xs[1..], keep);
    }
  }

  /** Filtering distributes over concatenation. */
  lemma {:induction false} FilterAppend<T>(xs: seq<T>, ys: seq<T>, keep: T -> bool)
    ensures Filter(xs + ys, keep) == Filter(xs, keep) + Filter(ys, keep)
  {
    if xs != [] {
      var zs := xs + ys;
      assert zs != [] && zs[0] == xs[0];
      assert zs[1..] == xs[1..] + ys;
      FilterAppend(xs[1..], ys, keep);
      if keep(xs[0]) {
        assert Filter(zs, keep) == [xs[0]] + Filter(zs[1..], keep);
        assert Filter(xs, keep) == [xs[0]] + Filter(xs[1..], keep);
        assert [xs[0]] + (Filter(xs[1..], keep) + Filter(ys, keep))
            == ([xs[0]] + Filter(xs[1..], keep)) + Filter(ys, keep);
      } else {
        assert Filter(zs, keep) == Filter(zs[1..], keep);
        assert Filter(xs, keep) == Filter(xs[1..], keep);
      }
    } else {
      assert xs + ys == ys;
    }
  }

  /** Each value kept by the test occurs in the result as often as in the
      input, and no other value occurs at all. */
  lemma {:induction false} FilterCount<T>(xs: seq<T>, keep: T -> bool)
    ensures forall x :: multiset(Filter(xs, keep))[x] == if keep(x) then multiset(xs)[x] else 0
  {
    if xs != [] {
      FilterCount(xs[1..], keep);
      assert xs == [xs[0]] + xs[1..];
    }
  }

  /** Keeping nothing leaves nothing. */
  lemma {:induction false} FilterNone<T>(xs: seq<T>, keep: T -> bool)
    requires forall x :: x in xs ==> !keep(x)
    ensures Filter(xs, keep) == []
  {
    if xs != [] {
      FilterNone(xs[1..], keep);
    }
  }

  /** A sequence is its part before `i`, its element at `i`, and the rest. */
  lemma Around<T>(s: seq<T>, i: nat)
    requires i < |s|
    ensures s[..i] + [s[i]] + s[i + 1..] == s
  {
  }

  lemma Assoc<T>(a: seq<T>, b: seq<T>, c: seq<T>)
    ensures a + (b + c) == (a + b) + c
  {
  }

  /** The slices of `a + [x] + b` around a position inside `a`. */
  lemma SlicesInLeft<T>(a: seq<T>, x: T, b: seq<T>, i: nat)
    requires i < |a|
    ensures (a + [x] + b)[i] == a[i]
    ensures (a + [x] + b)[..i] == a[..i]
    ensures (a + [x] + b)[i + 1..] == a[i + 1..] + [x] + b
  {
  }

  /** The slices of `a + [x] + b` around `x`. */
  lemma SlicesAtMiddle<T>(a: seq<T>, x: T, b: seq<T>)
    ensures (a + [x] + b)[|a|] == x
    ensures (a + [x] + b)[..|a|] == a
    ensures (a + [x] + b)[|a| + 1..] == b
  {
  }

  predicate NoDuplicates<T(==)>(xs: seq<T>) {
    forall i, j :: 0 <= i < j < |xs| ==> xs[i] != xs[j]
  }

  /** Position of the first occurrence of `x` in `xs`. */
  function IndexOf<T(==)>(xs: seq<T>, x: T): (i: nat)
    requires x in xs
    ensures i < |xs| && xs[i] == x && x !in xs[..i]
  {
    if xs[0] == x then 0 else 1 + IndexOf(xs[1..], x)
  }

  /** The first occurrence is the one with no earlier copy. */
  lemma IndexOfIsFirst<T>(xs: seq<T>, x: T, i: nat)
    requires i < |xs| && xs[i] == x && x !in xs[..i]
    ensures x in xs && IndexOf(xs, x) == i
  {
    var k := IndexOf(xs, x);
    assert k == i;
  }

  /** Appending leaves the first occurrence of an element already present. */
  lemma IndexOfInPrefix<T>(xs: seq<T>, z: T, x: T)
    requires x in xs
    ensures x in xs + [z] && IndexOf(xs + [z], x) == IndexOf(xs, x)
  {
    var i := IndexOf(xs, x);
    assert (xs + [z])[..i] == xs[..i];
    IndexOfIsFirst(xs + [z], x, i);
  }

  /** `set.add(x)` on an insertion-ordered set: a new element goes last. */
  function Added<T(==)>(xs: seq<T>, x: T): (r: seq<T>)
    ensures x in r
    ensures forall y :: y in r ==> y in xs || y == x
    ensures forall y :: y in xs ==> y in r
    ensures xs <= r
    ensures NoDuplicates(xs) ==> NoDuplicates(r)
    ensures x in xs ==> r == xs
  {
    if x in xs then xs
    else
      if NoDuplicates(xs) then
        SnocNoDuplicates(xs, x);
        xs + [x]
      else
        xs + [x]
  }

  /** `set.delete(x)` on an insertion-ordered set. */
  function Without<T(==)>(xs: seq<T>, x: T): (r: seq<T>)
    ensures x !in r
    ensures forall y :: y in r ==> y in xs
    ensures forall y :: y in xs && y != x ==> y in r
    ensures IsSubsequence(r, xs)
    ensures NoDuplicates(xs) ==> NoDuplicates(r)
    ensures x !in xs ==> r == xs
  {
    if xs == [] then []
    else
      var rest := Without(xs[1..], x);
      if xs[0] == x then
        SubsequenceSkip(rest, xs);
        rest
      else
        assert ([xs[0]] + rest)[1..] == rest;
        if NoDuplicates(xs) then
          assert xs[0] !in xs[1..];
          ConsNoDuplicates(xs[0], rest);
          [xs[0]] + rest
        else
          [xs[0]] + rest
  }

  lemma ConsNoDuplicates<T>(x: T, xs: seq<T>)
    requires x !in xs && NoDuplicates(xs)
    ensures NoDuplicates([x] + xs)
  {
    forall i, j | 0 <= i < j < |[x] + xs|
      ensures ([x] + xs)[i] != ([x] + xs)[j]
    {
      if i == 0 {
        assert xs[j - 1] in xs;
      }
    }
  }

  /** `set.add(x)` of a new element keeps the elements distinct. */
  lemma SnocNoDuplicates<T>(xs: seq<T>, x: T)
    requires x !in xs && NoDuplicates(xs)
    ensures NoDuplicates(xs + [x])
  {
    forall i, j | 0 <= i < j < |xs + [x]|
      ensures (xs + [x])[i] != (xs + [x])[j]
    {
      if j == |xs| {
        assert xs[i] in xs;
      }
    }
  }
}
