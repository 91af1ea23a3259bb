/** The recent-search list (store/useSearchHistoryStore.ts): trimmed,
    most recent first, without repeats, at most `MaxHistory` entries. */
module SearchHistoryStore {
  import opened Seqs
  import opened Text

  const MaxHistory: nat := 10

  /** `addSearch(query)`. A query that trims to nothing leaves the history
      as it is. Otherwise the trimmed query goes to the front, every older
      copy of it is dropped, and the list is cut to `MaxHistory`. */
  function AddSearch(history: seq<string>, query: string): (r: seq<string>)
    ensures Trim(query) == "" ==> r == history
    ensures Trim(query) != "" ==>
              && 0 < |r| <= MaxHistory
              && r[0] == Trim(query)
              && multiset(r)[Trim(query)] == 1
              && r[1..] == Take(RemoveAll(history, Trim(query)), MaxHistory - 1)
    ensures NoDup(history) ==> NoDup(r)
  {
    var t := Trim(query);
    if t == "" then history
    else
      var rest := RemoveAll(history, t);
      FrontOfHistory(history, t, rest);
      Take([t] + rest, MaxHistory)
  }

  /** What putting `t` in front of the other entries and cutting to the cap
      yields. */
  lemma FrontOfHistory(history: seq<string>, t: string, rest: seq<string>)
    requires rest == RemoveAll(history, t)
    ensures var r := Take([t] + rest, MaxHistory);
            && 0 < |r| <= MaxHistory
            && r[0] == t
            && multiset(r)[t] == 1
            && r[1..] == Take(rest, MaxHistory - 1)
            && (NoDup(history) ==> NoDup(r))
  {
    var r := Take([t] + rest, MaxHistory);
    assert r == [t] + Take(rest, MaxHistory - 1);
    assert r[1..] == Take(rest, MaxHistory - 1);
    assert t !in r[1..];
    assert multiset(r) == multiset{t} + multiset(r[1..]) by {
      assert r == [t] + r[1..];
    }
    if NoDup(history) {
      NoDupRemoveAll(history, t);
      NoDupPrefix(rest, r[1..]);
    }
  }

  /** `removeSearch(query)`: every entry equal to the untrimmed query is
      dropped; the others keep their order. */
  function RemoveSearch(history: seq<string>, query: string): (r: seq<string>)
    ensures query !in r
    ensures forall q :: q != query ==> multiset(r)[q] == multiset(history)[q]
    ensures r == Filter(history, Differs(query))
  {
    RemoveAll(history, query)
  }

  /** `clearHistory()`; the history also starts out in this state. */
  function ClearHistory(): (r: seq<string>)
    ensures |r| == 0
  {
    []
  }

  /** Adding the same query twice in a row is the same as adding it once. */
  lemma AddSearchIdempotent(history: seq<string>, query: string)
    ensures AddSearch(AddSearch(history, query), query) == AddSearch(history, query)
  {
    var t := Trim(query);
    if t != "" {
      var once := AddSearch(history, query);
      assert 0 < |once| <= MaxHistory && once[0] == t && multiset(once)[t] == 1;
      assert t !in once[1..] by {
        assert once == [t] + once[1..];
        assert multiset(once) == multiset{t} + multiset(once[1..]);
      }
      RemoveHead(once, t);
      assert [t] + RemoveAll(once, t) == once;
      assert AddSearch(once, query) == Take(once, MaxHistory);
    }
  }

  /** Adding a raw query or its trimmed text gives the same history; the
      search box passes the trimmed text. */
  lemma AddSearchTrimmed(history: seq<string>, query: string)
    ensures AddSearch(history, Trim(query)) == AddSearch(history, query)
  {
    TrimIdempotent(query);
  }

  /** Removing an entry that was just added leaves the older entries other
      than it, cut to one less than the cap. */
  lemma RemoveAfterAdd(history: seq<string>, query: string)
    requires Trim(query) != ""
    ensures RemoveSearch(AddSearch(history, query), Trim(query))
            == Take(RemoveSearch(history, Trim(query)), MaxHistory - 1)
  {
    var t := Trim(query);
    var once := AddSearch(history, query);
    RemoveHead(once, t);
  }
}
