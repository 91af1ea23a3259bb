/** The values a store card derives from its store
    (components/home/StoreCard.tsx): the cheapest item, the distance text,
    the availability badge, the day label and the menu tag line. */
module StoreCard {
  import opened Types
  import opened Seqs
  import opened Text
  import StoreOrder

  /** `menuItems.reduce((min, item) => item.salePrice < min.salePrice ? item : min)`.
      Without a seed `reduce` throws on an empty array, so the card needs at
      least one item. The strict comparison keeps the earliest of several
      cheapest items. */
  function LowestPriceItem(items: seq<MenuItem>): (r: MenuItem)
    requires |items| > 0
    ensures forall i :: 0 <= i < |items| ==> r.salePrice <= items[i].salePrice
    ensures exists i :: 0 <= i < |items| && items[i] == r &&
              forall j :: 0 <= j < i ==> items[j].salePrice > r.salePrice
    decreases |items|
  {
    if |items| == 1 then items[0]
    else
      var init := items[..|items| - 1];
      var last := items[|items| - 1];
      var m := LowestPriceItem(init);
      assert forall i :: 0 <= i < |init| ==> init[i] == items[i];
      if last.salePrice < m.salePrice then last else m
  }

  /** The card's price is the smallest sale price the price sort uses. */
  lemma LowestPriceIsMinSale(items: seq<MenuItem>)
    requires |items| > 0
    ensures LowestPriceItem(items).salePrice == StoreOrder.MinSale(items)
  {
  }

  /** `formatDistance(meters)`: under a kilometre the whole metres and "m";
      from a kilometre on a one-decimal kilometre figure whose digits are not
      modelled. */
  datatype DistanceText = Metres(text: string) | Kilometres(meters: int)

  function FormatDistance(meters: int): (r: DistanceText)
    ensures r.Metres? <==> meters < 1000
    ensures r.Kilometres? ==> r.meters == meters
    ensures r.Metres? ==>
              var t := r.text;
              && |t| > 1 && t[|t| - 1] == 'm'
              && IsCanonicalDecimal(t[..|t| - 1]) && ParseDecimal(t[..|t| - 1]) == meters
  {
    if meters < 1000 then
      var d := IntToDecimal(meters);
      IntDecimalRoundTrip(meters);
      assert (d + "m")[..|d|] == d;
      Metres(d + "m")
    else Kilometres(meters)
  }

  const BadgeCap: int := 5

  /** The count on the availability badge: "5+" from five on, otherwise the
      exact count. */
  function AvailabilityBadge(count: int): (r: string)
    ensures r == "5+" <==> count >= BadgeCap
    ensures count < BadgeCap ==> IsCanonicalDecimal(r) && ParseDecimal(r) == count
  {
    if count >= BadgeCap then "5+"
    else
      IntDecimalRoundTrip(count);
      var d := IntToDecimal(count);
      assert |d| == 2 ==> d[1] != '+';
      d
  }

  /** `pickupDay`: today's label when the store picks up today, tomorrow's
      otherwise. */
  function PickupDayLabel(st: Store): (r: string)
    ensures r == "오늘" <==> st.pickupAvailable.today
    ensures r == "내일" <==> !st.pickupAvailable.today
  {
    if st.pickupAvailable.today then "오늘" else "내일"
  }

  const MaxTags: nat := 3
  const TagSeparator: string := " | "

  /** The spans of lines 129-134 from position `idx` on: each name, followed
      by the separator while `idx < shown - 1`. */
  function Spans(items: seq<MenuItem>, idx: nat, shown: int): string
    decreases |items|
  {
    if |items| == 0 then ""
    else items[0].name + (if idx < shown - 1 then TagSeparator else "") + Spans(items[1..], idx + 1, shown)
  }

  /** The text of the tag line. */
  function MenuTags(items: seq<MenuItem>): string {
    Spans(Take(items, MaxTags), 0, Min(|items|, MaxTags))
  }

  function Names(items: seq<MenuItem>): (r: seq<string>)
    ensures |r| == |items|
    ensures forall i :: 0 <= i < |items| ==> r[i] == items[i].name
  {
    if |items| == 0 then [] else [items[0].name] + Names(items[1..])
  }

  /** Reference definition: the strings joined with the separator between
      consecutive ones only. */
  function Join(names: seq<string>, sep: string): string {
    if |names| == 0 then ""
    else if |names| == 1 then names[0]
    else names[0] + sep + Join(names[1..], sep)
  }

  lemma {:induction false} SpansIsJoin(items: seq<MenuItem>, idx: nat)
    ensures Spans(items, idx, idx + |items|) == Join(Names(items), TagSeparator)
    decreases |items|
  {
    if |items| > 0 {
      SpansIsJoin(items[1..], idx + 1);
      assert Names(items)[1..] == Names(items[1..]);
    }
  }

  /** The tag line is the first min(3, n) item names joined by " | ", with
      no separator after the last one. */
  lemma MenuTagsIsJoin(items: seq<MenuItem>)
    ensures MenuTags(items) == Join(Names(Take(items, MaxTags)), TagSeparator)
  {
    SpansIsJoin(Take(items, MaxTags), 0);
  }
}
