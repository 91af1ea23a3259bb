/** The favourites store (store/useFavoriteStore.ts). A JS `Set` remembers
    insertion order, and the persistence adapter turns it into an array with
    `Array.from` and back with `new Set(array)`, so the set is modelled as
    its insertion order: a sequence without duplicates. */
module FavoriteStore {
  import opened Seqs

  datatype FavoriteSet = FavoriteSet(order: seq<string>)

  /** The representation invariant every Set value has. */
  predicate Valid(fs: FavoriteSet) {
    NoDup(fs.order)
  }

  /** The members as a mathematical set, forgetting the insertion order. */
  function Members(fs: FavoriteSet): set<string> {
    set id | id in fs.order
  }

  /** `isFavorite(storeId)`: `favorites.has(storeId)`. */
  predicate IsFavorite(fs: FavoriteSet, id: string): (b: bool)
    ensures b <==> id in Members(fs)
  {
    id in fs.order
  }

  /** `favorites.size`: the number of members. */
  function Size(fs: FavoriteSet): (n: nat)
    ensures Valid(fs) ==> n == |Members(fs)|
  {
    NoDupCard(fs.order);
    |fs.order|
  }

  /** The initial `new Set<string>()`. */
  function Initial(): (fs: FavoriteSet)
    ensures Valid(fs)
    ensures forall id :: !IsFavorite(fs, id)
  {
    FavoriteSet([])
  }

  /** `toggleFavorite(storeId)`: delete the id when present, add it (at the
      end of the insertion order) when absent. */
  function Toggle(fs: FavoriteSet, id: string): (r: FavoriteSet)
    ensures IsFavorite(r, id) <==> !IsFavorite(fs, id)
    ensures forall other :: other != id ==> (IsFavorite(r, other) <==> IsFavorite(fs, other))
    ensures Valid(fs) ==> Valid(r)
  {
    if id in fs.order then
      var rest := RemoveAll(fs.order, id);
      assert Valid(fs) ==> NoDup(rest) by {
        if Valid(fs) {
          NoDupRemoveAll(fs.order, id);
        }
      }
      FavoriteSet(rest)
    else FavoriteSet(fs.order + [id])
  }

  /** Toggling the same id twice restores the member set. An id that was
      absent leaves no trace at all; an id that was present comes back at the
      end of the insertion order. */
  lemma ToggleTwice(fs: FavoriteSet, id: string)
    ensures Members(Toggle(Toggle(fs, id), id)) == Members(fs)
    ensures !IsFavorite(fs, id) ==> Toggle(Toggle(fs, id), id) == fs
    ensures IsFavorite(fs, id) ==> Toggle(Toggle(fs, id), id).order == RemoveAll(fs.order, id) + [id]
  {
    var once := Toggle(fs, id);
    if id !in fs.order {
      RemoveAppended(fs.order, id);
    }
  }

  lemma RemoveAppended(s: seq<string>, id: string)
    requires id !in s
    ensures RemoveAll(s + [id], id) == s
  {
    RemoveAllAppend(s, [id], id);
    RemoveAbsent(s, id);
    assert RemoveAll([id], id) == [];
  }

  /** `Array.from(favorites)` in the persistence adapter's `setItem`. */
  function Serialize(fs: FavoriteSet): (a: seq<string>)
    ensures |a| == Size(fs)
    ensures forall id :: id in a <==> IsFavorite(fs, id)
    ensures Valid(fs) ==> NoDup(a)
  {
    fs.order
  }

  /** `new Set(parsed.state.favorites)` in `getItem`: the first occurrence of
      every id, in array order. */
  function Deserialize(a: seq<string>): (fs: FavoriteSet)
    ensures Valid(fs)
    ensures forall id :: IsFavorite(fs, id) <==> id in a
  {
    FavoriteSet(Dedup(a))
  }

  /** Writing a favourite set out and reading it back gives the same set, in
      the same order. */
  lemma SerializeRoundTrip(fs: FavoriteSet)
    requires Valid(fs)
    ensures Deserialize(Serialize(fs)) == fs
  {
    DedupNoDup(fs.order);
  }

  /** Reading an array and writing it back removes repeated ids only. */
  lemma DeserializeRoundTrip(a: seq<string>)
    ensures NoDup(a) ==> Serialize(Deserialize(a)) == a
    ensures Serialize(Deserialize(Serialize(Deserialize(a)))) == Serialize(Deserialize(a))
  {
    if NoDup(a) {
      DedupNoDup(a);
    }
    DedupNoDup(Dedup(a));
  }
}
