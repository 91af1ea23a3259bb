/** The six-way store comparator shared by the home list and the search page,
    and the stable sort the engine runs it through.

    The comparators are plain subtractions of JS numbers. For the price keys
    the operands are `Math.min(...)` / `Math.max(...)` over the sale prices,
    which are +Infinity / -Infinity for a store without menu items; the
    difference of two equal infinities is NaN, which the engine's sort treats
    as 0. The model therefore orders every store by a `SortKey` that is either
    a finite integer or `PastEnd` (after every finite key), and proves that
    this order is exactly the sign of the source's comparator. */
module StoreOrder {
  import opened Types
  import Seqs

  /** The JS number values the comparators compute with. */
  datatype Num = Fin(v: int) | PosInf | NegInf | NaN

  /** IEEE subtraction restricted to integers and the two infinities. */
  function Sub(x: Num, y: Num): Num {
    match (x, y)
    case (Fin(a), Fin(b)) => Fin(a - b)
    case (NaN, _) => NaN
    case (_, NaN) => NaN
    case (PosInf, PosInf) => NaN
    case (NegInf, NegInf) => NaN
    case (PosInf, _) => PosInf
    case (NegInf, _) => NegInf
    case (Fin(_), PosInf) => NegInf
    case (Fin(_), NegInf) => PosInf
  }

  /** The sign the engine's SortCompare takes of a comparator result; NaN
      counts as 0 (equal). */
  function Sign(n: Num): int {
    match n
    case Fin(v) => if v < 0 then -1 else if v > 0 then 1 else 0
    case PosInf => 1
    case NegInf => -1
    case NaN => 0
  }

  /** The smallest sale price of a non-empty item list. */
  function MinSale(items: seq<MenuItem>): (m: int)
    requires |items| > 0
    ensures exists i :: 0 <= i < |items| && items[i].salePrice == m
    ensures forall i :: 0 <= i < |items| ==> m <= items[i].salePrice
  {
    if |items| == 1 then items[0].salePrice
    else
      var rest := MinSale(items[1..]);
      assert forall i :: 1 <= i < |items| ==> items[i] == items[1..][i - 1];
      if items[0].salePrice <= rest then items[0].salePrice else rest
  }

  /** The largest sale price of a non-empty item list. */
  function MaxSale(items: seq<MenuItem>): (m: int)
    requires |items| > 0
    ensures exists i :: 0 <= i < |items| && items[i].salePrice == m
    ensures forall i :: 0 <= i < |items| ==> items[i].salePrice <= m
  {
    if |items| == 1 then items[0].salePrice
    else
      var rest := MaxSale(items[1..]);
      assert forall i :: 1 <= i < |items| ==> items[i] == items[1..][i - 1];
      if items[0].salePrice >= rest then items[0].salePrice else rest
  }

  /** `Math.min(...prices)`: +Infinity for no arguments. */
  function MathMin(items: seq<MenuItem>): Num {
    if |items| == 0 then PosInf else Fin(MinSale(items))
  }

  /** `Math.max(...prices)`: -Infinity for no arguments. */
  function MathMax(items: seq<MenuItem>): Num {
    if |items| == 0 then NegInf else Fin(MaxSale(items))
  }

  /** The comparator of components/home/StoreList.tsx and app/search/page.tsx,
      as the number it returns. */
  function Comparator(a: Store, b: Store, opt: SortOption): Num {
    match opt
    case Distance => Fin(a.distance - b.distance)
    case Reviews => Fin(b.reviewCount - a.reviewCount)
    case Favorites => Fin(b.favoriteCount - a.favoriteCount)
    case Notifications => Fin(b.notificationCount - a.notificationCount)
    case PriceLow => Sub(MathMin(a.menuItems), MathMin(b.menuItems))
    case PriceHigh => Sub(MathMax(b.menuItems), MathMax(a.menuItems))
  }

  /** A position in the sort order: a finite key, or after every finite key. */
  datatype SortKey = Finite(value: int) | PastEnd

  predicate KeyLe(a: SortKey, b: SortKey) {
    match (a, b)
    case (Finite(x), Finite(y)) => x <= y
    case (_, PastEnd) => true
    case (PastEnd, Finite(_)) => false
  }

  lemma KeyLeTotalPreorder(a: SortKey, b: SortKey, c: SortKey)
    ensures KeyLe(a, a)
    ensures KeyLe(a, b) || KeyLe(b, a)
    ensures KeyLe(a, b) && KeyLe(b, c) ==> KeyLe(a, c)
    ensures KeyLe(a, b) && KeyLe(b, a) ==> a == b
  {
  }

  /** The key each sort option orders by, ascending: distance; the negated
      review, favourite and notification counts (those sort descending); the
      lowest sale price; the negated highest sale price. A store without menu
      items gets `PastEnd` under both price options. */
  function Key(st: Store, opt: SortOption): SortKey {
    match opt
    case Distance => Finite(st.distance)
    case Reviews => Finite(-st.reviewCount)
    case Favorites => Finite(-st.favoriteCount)
    case Notifications => Finite(-st.notificationCount)
    case PriceLow => if |st.menuItems| == 0 then PastEnd else Finite(MinSale(st.menuItems))
    case PriceHigh => if |st.menuItems| == 0 then PastEnd else Finite(-MaxSale(st.menuItems))
  }

  /** The key order is exactly the sign of the source's comparator: `a` may
      precede `b` iff the comparator is not positive, and they tie iff it is
      0 (or NaN). */
  lemma ComparatorAgreesWithKey(a: Store, b: Store, opt: SortOption)
    ensures Sign(Comparator(a, b, opt)) <= 0 <==> KeyLe(Key(a, opt), Key(b, opt))
    ensures Sign(Comparator(a, b, opt)) == 0 <==> Key(a, opt) == Key(b, opt)
  {
  }

  /** Every pair, not just every adjacent pair, is in key order. */
  predicate SortedBy(s: seq<Store>, opt: SortOption) {
    forall i, j :: 0 <= i < j < |s| ==> KeyLe(Key(s[i], opt), Key(s[j], opt))
  }

  /** No element of `s` sorts before the key `k`. */
  predicate AllAtLeast(k: SortKey, s: seq<Store>, opt: SortOption) {
    forall i :: 0 <= i < |s| ==> KeyLe(k, Key(s[i], opt))
  }

  lemma AllAtLeastMultiset(k: SortKey, s: seq<Store>, t: seq<Store>, opt: SortOption)
    requires AllAtLeast(k, s, opt)
    requires multiset(t) <= multiset(s)
    ensures AllAtLeast(k, t, opt)
  {
    forall i | 0 <= i < |t|
      ensures KeyLe(k, Key(t[i], opt))
    {
      assert t[i] in multiset(t);
      assert t[i] in s;
    }
  }

  /** One insertion-sort step: `x` goes before the first element whose key is
      not smaller, so it stays ahead of the equal keys that follow it. */
  function Insert(x: Store, s: seq<Store>, opt: SortOption): (r: seq<Store>)
    ensures multiset(r) == multiset(s) + multiset{x}
    ensures SortedBy(s, opt) ==> SortedBy(r, opt)
  {
    if |s| == 0 then [x]
    else if KeyLe(Key(x, opt), Key(s[0], opt)) then
      InsertFront(x, s, opt);
      [x] + s
    else
      var t := Insert(x, s[1..], opt);
      InsertPast(x, s, t, opt);
      [s[0]] + t
  }

  lemma SortedTail(s: seq<Store>, opt: SortOption)
    requires |s| > 0 && SortedBy(s, opt)
    ensures SortedBy(s[1..], opt)
  {
    var t := s[1..];
    forall i, j | 0 <= i < j < |t|
      ensures KeyLe(Key(t[i], opt), Key(t[j], opt))
    {
      assert t[i] == s[i + 1] && t[j] == s[j + 1];
    }
  }

  /** A sorted sequence with a head that bounds the rest is sorted. */
  lemma SortedCons(y: Store, t: seq<Store>, opt: SortOption)
    requires SortedBy(t, opt) && AllAtLeast(Key(y, opt), t, opt)
    ensures SortedBy([y] + t, opt)
  {
    var r := [y] + t;
    forall i, j | 0 <= i < j < |r|
      ensures KeyLe(Key(r[i], opt), Key(r[j], opt))
    {
      assert r[j] == t[j - 1];
      if i > 0 {
        assert r[i] == t[i - 1];
      }
    }
  }

  lemma InsertFront(x: Store, s: seq<Store>, opt: SortOption)
    requires |s| > 0 && KeyLe(Key(x, opt), Key(s[0], opt))
    ensures SortedBy(s, opt) ==> SortedBy([x] + s, opt)
  {
    if SortedBy(s, opt) {
      forall j | 0 <= j < |s|
        ensures KeyLe(Key(x, opt), Key(s[j], opt))
      {
        KeyLeTotalPreorder(Key(x, opt), Key(s[0], opt), Key(s[j], opt));
      }
      SortedCons(x, s, opt);
    }
  }

  lemma InsertPast(x: Store, s: seq<Store>, t: seq<Store>, opt: SortOption)
    requires |s| > 0 && !KeyLe(Key(x, opt), Key(s[0], opt))
    requires multiset(t) == multiset(s[1..]) + multiset{x}
    requires SortedBy(s[1..], opt) ==> SortedBy(t, opt)
    ensures multiset([s[0]] + t) == multiset(s) + multiset{x}
    ensures SortedBy(s, opt) ==> SortedBy([s[0]] + t, opt)
  {
    assert s == [s[0]] + s[1..];
    if SortedBy(s, opt) {
      SortedTail(s, opt);
      var k := Key(s[0], opt);
      KeyLeTotalPreorder(Key(x, opt), k, k);
      var u := s[1..] + [x];
      forall i | 0 <= i < |u|
        ensures KeyLe(k, Key(u[i], opt))
      {
        if i < |s| - 1 {
          assert u[i] == s[i + 1];
        }
      }
      assert multiset(t) == multiset(u);
      AllAtLeastMultiset(k, u, t, opt);
      SortedCons(s[0], t, opt);
    }
  }

  /** The engine's stable sort under the comparator for `opt`. */
  function SortStores(s: seq<Store>, opt: SortOption): (r: seq<Store>)
    ensures multiset(r) == multiset(s)
    ensures SortedBy(r, opt)
  {
    if |s| == 0 then []
    else
      assert s == [s[0]] + s[1..];
      Insert(s[0], SortStores(s[1..], opt), opt)
  }

  /** The stores of `s` whose key is `k`, in their order in `s`. */
  function WithKey(s: seq<Store>, opt: SortOption, k: SortKey): seq<Store> {
    if |s| == 0 then []
    else (if Key(s[0], opt) == k then [s[0]] else []) + WithKey(s[1..], opt, k)
  }

  /** Filtering a one-element sequence. */
  lemma WithKeySingle(x: Store, opt: SortOption, k: SortKey)
    ensures WithKey([x], opt, k) == if Key(x, opt) == k then [x] else []
  {
    assert [x][1..] == [];
  }

  lemma WithKeyCons(x: Store, s: seq<Store>, opt: SortOption, k: SortKey)
    ensures WithKey([x] + s, opt, k) == WithKey([x], opt, k) + WithKey(s, opt, k)
  {
    assert ([x] + s)[1..] == s;
    WithKeySingle(x, opt, k);
  }

  lemma {:induction false} InsertWithKey(x: Store, s: seq<Store>, opt: SortOption, k: SortKey)
    ensures WithKey(Insert(x, s, opt), opt, k)
            == (if Key(x, opt) == k then [x] else []) + WithKey(s, opt, k)
  {
    WithKeySingle(x, opt, k);
    if |s| == 0 {
      assert Insert(x, s, opt) == [x];
      assert s == [];
    } else if KeyLe(Key(x, opt), Key(s[0], opt)) {
      assert Insert(x, s, opt) == [x] + s;
      WithKeyCons(x, s, opt, k);
    } else {
      InsertWithKey(x, s[1..], opt, k);
      InsertWithKeySkip(x, s, opt, k);
    }
  }

  /** The step of `InsertWithKey` where `x` moves past the head of `s`. */
  lemma InsertWithKeySkip(x: Store, s: seq<Store>, opt: SortOption, k: SortKey)
    requires |s| > 0 && !KeyLe(Key(x, opt), Key(s[0], opt))
    requires WithKey(Insert(x, s[1..], opt), opt, k)
             == (if Key(x, opt) == k then [x] else []) + WithKey(s[1..], opt, k)
    ensures WithKey(Insert(x, s, opt), opt, k)
            == (if Key(x, opt) == k then [x] else []) + WithKey(s, opt, k)
  {
    assert Insert(x, s, opt) == [s[0]] + Insert(x, s[1..], opt);
    assert [s[0]] + s[1..] == s;
    WithKeyPastHead(x, s[0], Insert(x, s[1..], opt), s[1..], opt, k);
  }

  lemma WithKeyPastHead(x: Store, y: Store, t: seq<Store>, rest: seq<Store>, opt: SortOption, k: SortKey)
    requires Key(y, opt) != Key(x, opt)
    requires WithKey(t, opt, k) == (if Key(x, opt) == k then [x] else []) + WithKey(rest, opt, k)
    ensures WithKey([y] + t, opt, k)
            == (if Key(x, opt) == k then [x] else []) + WithKey([y] + rest, opt, k)
  {
    var head := if Key(x, opt) == k then [x] else [];
    var f0 := WithKey([y], opt, k);
    var r := WithKey(rest, opt, k);
    WithKeyCons(y, t, opt, k);
    WithKeyCons(y, rest, opt, k);
    WithKeySingle(y, opt, k);
    if head != [] {
      assert f0 == [];
      assert f0 + (head + r) == head + r;
      assert f0 + r == r;
    } else {
      assert head + r == r;
      assert head + (f0 + r) == f0 + r;
    }
  }

  /** Stability: among stores with equal keys the sort keeps the input order;
      for every key value the stores carrying it appear in the same order
      before and after sorting. */
  lemma {:induction false} SortIsStable(s: seq<Store>, opt: SortOption, k: SortKey)
    ensures WithKey(SortStores(s, opt), opt, k) == WithKey(s, opt, k)
  {
    if |s| > 0 {
      SortIsStable(s[1..], opt, k);
      InsertWithKey(s[0], SortStores(s[1..], opt), opt, k);
    }
  }

  /** The stores in the `k` list are exactly the stores with key `k`. */
  lemma {:induction false} WithKeyMembers(s: seq<Store>, opt: SortOption, k: SortKey)
    ensures forall x :: x in WithKey(s, opt, k) <==> x in s && Key(x, opt) == k
  {
    if |s| > 0 {
      WithKeyMembers(s[1..], opt, k);
      assert s == [s[0]] + s[1..];
    }
  }

  /** A non-empty sequence's head is in the list of its own key. */
  lemma WithKeyHead(s: seq<Store>, opt: SortOption)
    ensures |s| > 0 ==> WithKey(s, opt, Key(s[0], opt)) == [s[0]] + WithKey(s[1..], opt, Key(s[0], opt))
  {
  }

  /** Two sorted sequences that list the stores of every key in the same
      order are equal. */
  lemma {:induction false} SortedUnique(a: seq<Store>, b: seq<Store>, opt: SortOption)
    requires SortedBy(a, opt) && SortedBy(b, opt)
    requires forall k :: WithKey(a, opt, k) == WithKey(b, opt, k)
    ensures a == b
    decreases |a|
  {
    WithKeyHead(a, opt);
    WithKeyHead(b, opt);
    if |a| > 0 && |b| > 0 {
      SortedHeadsEqual(a, b, opt);
      WithKeyTails(a, b, opt);
      SortedTail(a, opt);
      SortedTail(b, opt);
      SortedUnique(a[1..], b[1..], opt);
      assert a == [a[0]] + a[1..];
      assert b == [b[0]] + b[1..];
    }
  }

  lemma SortedHeadsEqual(a: seq<Store>, b: seq<Store>, opt: SortOption)
    requires |a| > 0 && |b| > 0 && SortedBy(a, opt) && SortedBy(b, opt)
    requires forall k :: WithKey(a, opt, k) == WithKey(b, opt, k)
    ensures a[0] == b[0]
  {
    var ka := Key(a[0], opt);
    var kb := Key(b[0], opt);
    WithKeyHead(a, opt);
    WithKeyHead(b, opt);
    WithKeyMembers(a, opt, kb);
    WithKeyMembers(b, opt, ka);
    assert b[0] in WithKey(a, opt, kb);
    var i :| 0 <= i < |a| && a[i] == b[0];
    var j :| 0 <= j < |b| && b[j] == a[0];
    assert KeyLe(ka, kb) by {
      if i > 0 {
        assert KeyLe(Key(a[0], opt), Key(a[i], opt));
      }
    }
    assert KeyLe(kb, ka) by {
      if j > 0 {
        assert KeyLe(Key(b[0], opt), Key(b[j], opt));
      }
    }
    KeyLeTotalPreorder(ka, kb, ka);
    assert a[0] == WithKey(a, opt, ka)[0] == WithKey(b, opt, ka)[0] == b[0];
  }

  lemma WithKeyTails(a: seq<Store>, b: seq<Store>, opt: SortOption)
    requires |a| > 0 && |b| > 0 && a[0] == b[0]
    requires forall k :: WithKey(a, opt, k) == WithKey(b, opt, k)
    ensures forall k :: WithKey(a[1..], opt, k) == WithKey(b[1..], opt, k)
  {
    forall k
      ensures WithKey(a[1..], opt, k) == WithKey(b[1..], opt, k)
    {
      var h := if Key(a[0], opt) == k then [a[0]] else [];
      assert WithKey(a, opt, k) == h + WithKey(a[1..], opt, k);
      assert WithKey(b, opt, k) == h + WithKey(b[1..], opt, k);
      assert WithKey(a[1..], opt, k) == WithKey(a, opt, k)[|h|..];
      assert WithKey(b[1..], opt, k) == WithKey(b, opt, k)[|h|..];
    }
  }

  /** The sort's result is the only key-sorted sequence that keeps every
      key's stores in input order, so every stable sort under this comparator
      returns it. */
  lemma SortUnique(s: seq<Store>, r: seq<Store>, opt: SortOption)
    requires SortedBy(r, opt)
    requires forall k :: WithKey(r, opt, k) == WithKey(s, opt, k)
    ensures r == SortStores(s, opt)
  {
    forall k
      ensures WithKey(SortStores(s, opt), opt, k) == WithKey(s, opt, k)
    {
      SortIsStable(s, opt, k);
    }
    SortedUnique(r, SortStores(s, opt), opt);
  }

  /** Sorting an already sorted sequence changes nothing. */
  lemma SortSorted(s: seq<Store>, opt: SortOption)
    requires SortedBy(s, opt)
    ensures SortStores(s, opt) == s
  {
    SortUnique(s, s, opt);
  }

  /** What `SortedBy` means for each option, in terms of the store fields:
      ascending distance, descending counts, and for the price options the
      stores with items ordered by lowest (ascending) or highest (descending)
      sale price, followed by any stores without items. */
  lemma SortedFieldOrder(s: seq<Store>, opt: SortOption, i: int, j: int)
    requires SortedBy(s, opt) && 0 <= i < j < |s|
    ensures opt == Distance ==> s[i].distance <= s[j].distance
    ensures opt == Reviews ==> s[i].reviewCount >= s[j].reviewCount
    ensures opt == Favorites ==> s[i].favoriteCount >= s[j].favoriteCount
    ensures opt == Notifications ==> s[i].notificationCount >= s[j].notificationCount
    ensures opt == PriceLow && |s[j].menuItems| > 0 ==>
              |s[i].menuItems| > 0 && MinSale(s[i].menuItems) <= MinSale(s[j].menuItems)
    ensures opt == PriceHigh && |s[j].menuItems| > 0 ==>
              |s[i].menuItems| > 0 && MaxSale(s[i].menuItems) >= MaxSale(s[j].menuItems)
  {
    assert KeyLe(Key(s[i], opt), Key(s[j], opt));
  }
}
