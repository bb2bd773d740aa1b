/** Shared vocabulary: optional values, the exceptions the Python classes raise, and results. */
module Common {

  /** A value that may be missing (Python's None). */
  datatype Option<+T> = None | Some(value: T)

  /** The Python exception classes raised by the modelled data structures (StopIteration
      being how an iterator ends). */
  datatype Error = ValueError | IndexError | OverflowError | TypeError | AttributeError | StopIteration

  /** The outcome of a call: a returned value, or the exception it raised. */
  datatype Result<+T> = Ok(value: T) | Err(error: Error)

  /** Python's list indexing: a negative index counts from the end, and an index outside
      [-|s|, |s|) raises IndexError. */
  function PyIndex<T>(s: seq<T>, i: int): (r: Result<T>)
    ensures r.Ok? <==> -|s| <= i < |s|
    ensures 0 <= i < |s| ==> r == Ok(s[i])
    ensures -|s| <= i < 0 ==> r == Ok(s[|s| + i])
  {
    if 0 <= i < |s| then Ok(s[i])
    else if -|s| <= i < 0 then Ok(s[|s| + i])
    else Err(IndexError)
  }

  function Min(a: int, b: int): int { if a <= b then a else b }

  function Max(a: int, b: int): int { if a >= b then a else b }

  /** Non-decreasing order. */
  predicate Sorted(s: seq<int>) {
    forall i, j :: 0 <= i < j < |s| ==> s[i] <= s[j]
  }

  /** Strictly increasing order. */
  predicate StrictlyIncreasing(s: seq<int>) {
    forall i, j :: 0 <= i < j < |s| ==> s[i] < s[j]
  }

  /** The elements of s in the opposite order. */
  function Reversed<T>(s: seq<T>): (r: seq<T>)
    ensures |r| == |s|
    ensures forall k :: 0 <= k < |s| ==> r[k] == s[|s| - 1 - k]
  {
    if s == [] then [] else Reversed(s[1..]) + [s[0]]
  }

  /** Reversing twice gives back the original sequence. */
  lemma ReversedTwice<T>(s: seq<T>)
    ensures Reversed(Reversed(s)) == s
  {
    assert forall k :: 0 <= k < |s| ==> Reversed(Reversed(s))[k] == s[k];
  }

  /** The index of the first occurrence of x in s, or -1 when x does not occur. */
  function FirstIndex<T(==)>(s: seq<T>, x: T): (r: int)
    ensures r == -1 <==> x !in s
    ensures r != -1 ==> 0 <= r < |s| && s[r] == x && x !in s[..r]
  {
    if s == [] then -1
    else if s[0] == x then 0
    else
      var i := FirstIndex(s[1..], x);
      if i == -1 then -1
      else
        assert s[..i + 1] == [s[0]] + s[1..][..i];
        i + 1
  }

  /** Where x first occurs at i, i is x's first index. */
  lemma FirstIndexAt<T>(s: seq<T>, x: T, i: nat)
    requires i < |s| && s[i] == x && x !in s[..i]
    ensures FirstIndex(s, x) == i
  {
    var j := FirstIndex(s, x);
    assert forall k :: 0 <= k < i ==> s[..i][k] == s[k];
    assert forall k :: 0 <= k < j ==> s[..j][k] == s[k];
  }

  /** A sorted sequence stays sorted with an element in front that is at most its first. */
  lemma SortedCons(x: int, s: seq<int>)
    requires Sorted(s) && (s != [] ==> x <= s[0])
    ensures Sorted([x] + s)
  {
  }

  /** x placed into the sorted sequence s before the first element at least x. */
  function InsertSorted(x: int, s: seq<int>): (r: seq<int>)
    requires Sorted(s)
    ensures Sorted(r) && multiset(r) == multiset(s) + multiset{x} && |r| == |s| + 1
    ensures r[0] == if s == [] || x <= s[0] then x else s[0]
  {
    if s == [] || x <= s[0] then
      SortedCons(x, s);
      [x] + s
    else
      assert s == [s[0]] + s[1..];
      var t := InsertSorted(x, s[1..]);
      assert s[0] <= t[0];
      SortedCons(s[0], t);
      assert multiset([s[0]] + t) == multiset{s[0]} + multiset(t);
      [s[0]] + t
  }

  /** Python's sorted(): the elements of s in non-decreasing order. */
  function SortedCopy(s: seq<int>): (r: seq<int>)
    ensures Sorted(r) && multiset(r) == multiset(s) && |r| == |s|
  {
    if s == [] then []
    else
      assert s == [s[0]] + s[1..];
      InsertSorted(s[0], SortedCopy(s[1..]))
  }

  /** Two sorted arrangements of the same elements are equal. */
  lemma {:induction false} SortedUnique(a: seq<int>, b: seq<int>)
    requires Sorted(a) && Sorted(b) && multiset(a) == multiset(b)
    ensures a == b
  {
    assert |a| == |multiset(a)| == |multiset(b)| == |b|;
    if a != [] {
      SameHead(a, b);
      TailMultiset(a);
      TailMultiset(b);
      SortedUnique(a[1..], b[1..]);
      assert a == [a[0]] + a[1..] && b == [b[0]] + b[1..];
    }
  }

  /** sorted() gives the one sorted arrangement of the elements. */
  lemma SortedCopyUnique(s: seq<int>, t: seq<int>)
    requires Sorted(t) && multiset(s) == multiset(t)
    ensures SortedCopy(s) == t
  {
    SortedUnique(SortedCopy(s), t);
  }

  /** Dropping the head removes one occurrence of it. */
  lemma TailMultiset(a: seq<int>)
    requires a != []
    ensures multiset(a[1..]) == multiset(a) - multiset{a[0]}
  {
    assert a == [a[0]] + a[1..];
  }

  /** Two non-empty sorted arrangements of the same elements start alike. */
  lemma SameHead(a: seq<int>, b: seq<int>)
    requires Sorted(a) && Sorted(b) && multiset(a) == multiset(b) && a != [] && b != []
    ensures a[0] == b[0]
  {
    assert a[0] in multiset(b) && b[0] in multiset(a);
  }

  /** Concatenation is associative. */
  lemma ConcatAssoc<T>(a: seq<T>, b: seq<T>, c: seq<T>)
    ensures a + (b + c) == (a + b) + c
  {
  }

  /** A sequence is empty or holds its first element. */
  lemma EmptyOrHead<T>(s: seq<T>)
    ensures s == [] || s[0] in s
  {
  }

  /** Two strictly increasing sequences with the same elements are equal. */
  lemma {:induction false} IncreasingUnique(a: seq<int>, b: seq<int>)
    requires StrictlyIncreasing(a) && StrictlyIncreasing(b)
    requires forall x :: x in a <==> x in b
    ensures a == b
    decreases |a|
  {
    if a == [] {
      EmptyOrHead(b);
    } else {
      assert a[0] in b && b != [] && b[0] in a;
      assert a[0] == b[0];
      forall x
        ensures x in a[1..] <==> x in b[1..]
      {
        assert x in a[1..] <==> x in a && x != a[0];
        assert x in b[1..] <==> x in b && x != b[0];
      }
      IncreasingUnique(a[1..], b[1..]);
      assert a == [a[0]] + a[1..] && b == [b[0]] + b[1..];
    }
  }

  // ---------------------------------------------------------------- the implicit d-ary tree

  /** Slot of the parent of slot s > 0. */
  function Parent(d: nat, s: nat): (p: nat)
    requires d >= 1 && s >= 1
    ensures p < s
  {
    var q, r := (s - 1) / d, (s - 1) % d;
    assert s - 1 == q * d + r;
    MulMono(1, d, q);
    q
  }

  /** Slot of the first child of slot s. */
  function FirstChild(d: nat, s: nat): nat {
    s * d + 1
  }

  /** s is a child of slot i exactly when it lies in [i*d+1, i*d+d]. */
  lemma ChildRange(d: nat, i: nat, s: nat)
    requires d >= 1 && s >= 1
    ensures Parent(d, s) == i <==> FirstChild(d, i) <= s < FirstChild(d, i) + d
  {
    var q, r := (s - 1) / d, (s - 1) % d;
    assert s - 1 == q * d + r && 0 <= r < d;
    if q < i {
      assert q + 1 <= i;
      MulMono(q + 1, i, d);
      assert (q + 1) * d <= i * d;
    } else if q > i {
      MulMono(i + 1, q, d);
      assert (i + 1) * d <= q * d;
    }
  }

  lemma MulMono(a: nat, b: nat, d: nat)
    requires a <= b
    ensures a * d <= b * d
  {
  }

  /** The first child of any slot lies strictly after it. */
  lemma ChildAfter(d: nat, i: nat)
    requires d >= 1
    ensures FirstChild(d, i) > i
  {
    MulMono(1, d, i);
  }
}
