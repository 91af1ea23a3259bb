/** Sequence helpers shared by the stores and views: the Array.prototype.filter
    and slice(0, n) the components call, and the order-preserving de-duplication
    that both `new Set(array)` and an insertion-ordered Map perform. */
module Seqs {

  /** No value occurs twice. */
  predicate NoDup<T(==,!new)>(s: seq<T>) {
    forall i, j :: 0 <= i < j < |s| ==> s[i] != s[j]
  }

  function Min(a: int, b: int): int {
    if a <= b then a else b
  }

  /** Array.prototype.filter: the order-preserving sub-sequence of the elements
      that satisfy `p`. */
  function Filter<T(!new)>(s: seq<T>, p: T -> bool): (r: seq<T>)
    ensures |r| <= |s|
    ensures forall x :: x in r <==> x in s && p(x)
  {
    if |s| == 0 then [] else (if p(s[0]) then [s[0]] else []) + Filter(s[1..], p)
  }

  /** Every kept element keeps its multiplicity and every dropped one is gone
      entirely. */
  lemma {:induction false} FilterMultiset<T(!new)>(s: seq<T>, p: T -> bool)
    ensures forall x :: multiset(Filter(s, p))[x] == if p(x) then multiset(s)[x] else 0
  {
    if |s| > 0 {
      FilterMultiset(s[1..], p);
      assert s == [s[0]] + s[1..];
    }
  }

  lemma {:induction false} FilterAppend<T(!new)>(a: seq<T>, b: seq<T>, p: T -> bool)
    ensures Filter(a + b, p) == Filter(a, p) + Filter(b, p)
  {
    if |a| == 0 {
      assert a + b == b;
    } else {
      assert (a + b)[1..] == a[1..] + b;
      FilterAppend(a[1..], b, p);
    }
  }

  /** Filtering a sequence all of whose elements pass returns it unchanged. */
  lemma {:induction false} FilterAllPass<T(!new)>(s: seq<T>, p: T -> bool)
    requires forall i :: 0 <= i < |s| ==> p(s[i])
    ensures Filter(s, p) == s
  {
    if |s| > 0 {
      FilterAllPass(s[1..], p);
    }
  }

  /** Filtering with two predicates that agree on every element gives the
      same result. */
  lemma {:induction false} FilterCongruent<T(!new)>(s: seq<T>, p: T -> bool, q: T -> bool)
    requires forall i :: 0 <= i < |s| ==> p(s[i]) == q(s[i])
    ensures Filter(s, p) == Filter(s, q)
  {
    if |s| > 0 {
      FilterCongruent(s[1..], p, q);
    }
  }

  /** The step of a `forEach` that pushes `g(x)` for every `x` passing `p`:
      if the tail's output is `g` over the filtered tail, so is the whole. */
  lemma MapFilterStep<T(!new), U>(s: seq<T>, p: T -> bool, g: T -> U, rest: seq<U>, r: seq<U>)
    requires |s| > 0
    requires r == (if p(s[0]) then [g(s[0])] else []) + rest
    requires |rest| == |Filter(s[1..], p)|
    requires forall i :: 0 <= i < |rest| ==> rest[i] == g(Filter(s[1..], p)[i])
    ensures |r| == |Filter(s, p)|
    ensures forall i :: 0 <= i < |r| ==> r[i] == g(Filter(s, p)[i])
  {
    var f := Filter(s, p);
    var tail := Filter(s[1..], p);
    var front := if p(s[0]) then [s[0]] else [];
    assert f == front + tail;
    forall i | 0 <= i < |r|
      ensures r[i] == g(f[i])
    {
      if i >= |front| {
        assert r[i] == rest[i - |front|];
        assert f[i] == tail[i - |front|];
      }
    }
  }

  /** A rearrangement of a sequence whose elements all pass `p` passes too. */
  lemma AllPassPermuted<T(!new)>(s: seq<T>, r: seq<T>, p: T -> bool)
    requires multiset(r) == multiset(s)
    requires forall x :: x in s ==> p(x)
    ensures forall i :: 0 <= i < |r| ==> p(r[i])
  {
    forall i | 0 <= i < |r|
      ensures p(r[i])
    {
      assert r[i] in multiset(r);
    }
  }

  function Differs<T(==)>(x: T): T -> bool {
    y => y != x
  }

  /** Every occurrence of `x` removed, the rest in their original order
      (`filter(q => q !== x)`). */
  function RemoveAll<T(==,!new)>(s: seq<T>, x: T): (r: seq<T>)
    ensures x !in r
    ensures forall y :: y != x ==> multiset(r)[y] == multiset(s)[y]
    ensures forall y :: y != x ==> (y in r <==> y in s)
    ensures |r| == |s| - multiset(s)[x]
  {
    var r := Filter(s, Differs(x));
    FilterMultiset(s, Differs(x));
    assert multiset(s) == multiset(r) + multiset{x}[x := multiset(s)[x]];
    r
  }

  lemma RemoveAbsent<T(!new)>(s: seq<T>, x: T)
    requires x !in s
    ensures RemoveAll(s, x) == s
  {
    FilterAllPass(s, Differs(x));
  }

  lemma RemoveAllAppend<T(!new)>(a: seq<T>, b: seq<T>, x: T)
    ensures RemoveAll(a + b, x) == RemoveAll(a, x) + RemoveAll(b, x)
  {
    FilterAppend(a, b, Differs(x));
  }

  /** Removing `x` from a sequence that starts with `x` and holds no other
      copy of it leaves the tail. */
  lemma RemoveHead<T(!new)>(s: seq<T>, x: T)
    requires |s| > 0 && s[0] == x && x !in s[1..]
    ensures RemoveAll(s, x) == s[1..]
  {
    assert s == [x] + s[1..];
    RemoveAllAppend([x], s[1..], x);
    RemoveAbsent(s[1..], x);
    assert [x][1..] == [];
  }

  lemma NoDupRemoveAll<T(!new)>(s: seq<T>, x: T)
    requires NoDup(s)
    ensures NoDup(RemoveAll(s, x))
  {
    NoDupFilter(s, Differs(x));
  }

  lemma {:induction false} NoDupFilter<T(!new)>(s: seq<T>, p: T -> bool)
    requires NoDup(s)
    ensures NoDup(Filter(s, p))
  {
    if |s| > 0 {
      NoDupFilter(s[1..], p);
      var t := Filter(s[1..], p);
      assert s[0] !in s[1..];
      assert s[0] !in t;
    }
  }

  /** A sequence without repeats has as many elements as its value set. */
  lemma {:induction false} NoDupCard<T(!new)>(s: seq<T>)
    ensures NoDup(s) ==> |set x | x in s| == |s|
  {
    if |s| > 0 && NoDup(s) {
      var t := s[1..];
      assert NoDup(t);
      NoDupCard(t);
      assert s[0] !in t;
      assert (set x | x in s) == {s[0]} + (set x | x in t) by {
        assert s == [s[0]] + t;
      }
    }
  }

  /** slice(0, n): the first min(n, |s|) elements. */
  function Take<T>(s: seq<T>, n: nat): (r: seq<T>)
    ensures |r| == Min(n, |s|)
    ensures r <= s
  {
    if |s| <= n then s else s[..n]
  }

  lemma NoDupPrefix<T(!new)>(s: seq<T>, t: seq<T>)
    requires NoDup(s) && t <= s
    ensures NoDup(t)
  {
    assert forall i :: 0 <= i < |t| ==> t[i] == s[i];
  }

  /** Keep the first occurrence of every value, in first-seen order: what
      adding the elements one by one to a JS Set or Map key list yields. */
  function Dedup<T(==,!new)>(s: seq<T>): (r: seq<T>)
    ensures NoDup(r)
    ensures forall x :: x in r <==> x in s
    decreases |s|
  {
    if |s| == 0 then []
    else
      var d := Dedup(s[..|s| - 1]);
      var x := s[|s| - 1];
      assert forall y :: y in s <==> y in s[..|s| - 1] || y == x by {
        assert s == s[..|s| - 1] + [x];
      }
      if x in d then d else d + [x]
  }

  /** De-duplicating a sequence without duplicates changes nothing. */
  lemma {:induction false} DedupNoDup<T(!new)>(s: seq<T>)
    requires NoDup(s)
    ensures Dedup(s) == s
    decreases |s|
  {
    if |s| > 0 {
      var init := s[..|s| - 1];
      assert NoDup(init);
      DedupNoDup(init);
      assert s[|s| - 1] !in init;
      assert init + [s[|s| - 1]] == s;
    }
  }
  /** The position of the first occurrence of `x` (`indexOf`). */
  function FirstIndex<T(==)>(s: seq<T>, x: T): (i: nat)
    requires x in s
    ensures i < |s| && s[i] == x && x !in s[..i]
  {
    if s[0] == x then 0
    else
      var i := 1 + FirstIndex(s[1..], x);
      assert s[..i] == [s[0]] + s[1..][..i - 1];
      i
  }

  /** Any position holding `x` with no earlier copy is the first index. */
  lemma FirstIndexUnique<T>(s: seq<T>, x: T, i: int)
    requires 0 <= i < |s| && s[i] == x && x !in s[..i]
    ensures FirstIndex(s, x) == i
  {
  }

  /** Extending a sequence keeps the first index of what it already holds. */
  lemma FirstIndexExtend<T>(s: seq<T>, t: seq<T>, x: T)
    requires x in s
    ensures FirstIndex(s + t, x) == FirstIndex(s, x)
  {
    var k := FirstIndex(s, x);
    assert (s + t)[..k] == s[..k];
    FirstIndexUnique(s + t, x, k);
  }

  /** `Dedup` keeps values in the order of their first occurrences, as a JS
      Set built from the array does. */
  lemma {:induction false} DedupFirstSeen<T(!new)>(s: seq<T>)
    ensures forall i, j :: 0 <= i < j < |Dedup(s)| ==>
              FirstIndex(s, Dedup(s)[i]) < FirstIndex(s, Dedup(s)[j])
    decreases |s|
  {
    if |s| > 0 {
      var init := s[..|s| - 1];
      var x := s[|s| - 1];
      var d := Dedup(init);
      DedupFirstSeen(init);
      assert s == init + [x];
      forall y | y in init
        ensures FirstIndex(s, y) == FirstIndex(init, y)
      {
        FirstIndexExtend(init, [x], y);
      }
      if x !in d {
        assert x !in init;
        FirstIndexUnique(s, x, |s| - 1);
        var r := d + [x];
        forall i, j | 0 <= i < j < |r|
          ensures FirstIndex(s, r[i]) < FirstIndex(s, r[j])
        {
          assert r[i] == d[i] && r[i] in init;
          if j < |d| {
            assert r[j] == d[j] && r[j] in init;
          }
        }
      }
    }
  }
}
