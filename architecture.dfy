/**
 * The process-wide architecture cache of the Architecture model: a hash from
 * architecture name to architecture record, filled once from the store on
 * first use and kept in step by the create, update and destroy hooks.
 */
module Architecture {
  import opened Wrappers
  import opened OrderedHash

  /** The part of an architecture record the cache looks at. */
  datatype Arch = Arch(id: int, name: string)

  type ArchHash = Hash<string, Arch>

  /** Every key is the name of the record it maps to. */
  ghost predicate NamesMatch(h: ArchHash) {
    forall k :: k in h.values ==> h.values[k].name == k
  }

  /** No two keys map to records with the same id. */
  ghost predicate IdsUnique(h: ArchHash) {
    forall k1, k2 :: k1 in h.values && k2 in h.values && k1 != k2 ==> h.values[k1].id != h.values[k2].id
  }

  /** The records of the store have pairwise distinct ids (a primary key). */
  ghost predicate StoreIdsUnique(store: seq<Arch>) {
    forall i, j :: 0 <= i < j < |store| ==> store[i].id != store[j].id
  }

  /** The hash the population loop builds from `find(:all)`, record by record. */
  function Load(store: seq<Arch>): (h: ArchHash)
    ensures h.Wf() && NamesMatch(h)
  {
    if store == [] then Empty()
    else
      var last := store[|store| - 1];
      Load(store[..|store| - 1]).Put(last.name, last)
  }

  /** The keys of the loaded hash are exactly the names in the store. */
  lemma {:induction false} LoadKeys(store: seq<Arch>)
    ensures Load(store).values.Keys == set r | r in store :: r.name
  {
    if store != [] {
      var init := store[..|store| - 1];
      var last := store[|store| - 1];
      LoadKeys(init);
      assert store == init + [last];
      assert (set r | r in store :: r.name) == (set r | r in init :: r.name) + {last.name};
    }
  }

  /** On duplicate names the record that comes last in the store wins. */
  lemma {:induction false} LoadLastWins(store: seq<Arch>, i: nat)
    requires i < |store|
    requires forall j :: i < j < |store| ==> store[j].name != store[i].name
    ensures store[i].name in Load(store).values
    ensures Load(store).values[store[i].name] == store[i]
  {
    var init := store[..|store| - 1];
    if i < |store| - 1 {
      assert init[i] == store[i];
      forall j | i < j < |init| ensures init[j].name != init[i].name {
        assert init[j] == store[j];
      }
      LoadLastWins(init, i);
    }
  }

  /** Every value of the loaded hash is a record of the store. */
  lemma {:induction false} LoadValuesFromStore(store: seq<Arch>)
    ensures forall n :: n in Load(store).values ==> Load(store).values[n] in store
  {
    if store != [] {
      var init := store[..|store| - 1];
      LoadValuesFromStore(init);
      assert forall r :: r in init ==> r in store;
    }
  }

  /** With a primary key in the store, the loaded hash holds each id at most once. */
  lemma LoadIdsUnique(store: seq<Arch>)
    requires StoreIdsUnique(store)
    ensures IdsUnique(Load(store))
  {
    var h := Load(store);
    LoadValuesFromStore(store);
    forall k1, k2 | k1 in h.values && k2 in h.values && k1 != k2
      ensures h.values[k1].id != h.values[k2].id
    {
      var i1 :| 0 <= i1 < |store| && store[i1] == h.values[k1];
      var i2 :| 0 <= i2 < |store| && store[i2] == h.values[k2];
      assert store[i1].name == k1 && store[i2].name == k2;
      assert i1 != i2;
    }
  }

  /**
   * The position, at `from` or later in iteration order, of the first entry
   * whose record has the given id.
   */
  function FirstIndexWithId(h: ArchHash, id: int, from: nat): (r: Option<nat>)
    requires h.Wf() && from <= |h.keys|
    ensures r.Some? ==> from <= r.value < |h.keys| && h.values[h.keys[r.value]].id == id
    ensures r.Some? ==> forall j :: from <= j < r.value ==> h.values[h.keys[j]].id != id
    ensures r.None? ==> forall j :: from <= j < |h.keys| ==> h.values[h.keys[j]].id != id
    decreases |h.keys| - from
  {
    assert forall j :: 0 <= j < |h.keys| ==> h.keys[j] in h.values;
    if from == |h.keys| then None
    else if h.values[h.keys[from]].id == id then Some(from)
    else FirstIndexWithId(h, id, from + 1)
  }

  /** The key `after_update` drops: the first one whose record has the id, if any. */
  function StaleKey(h: ArchHash, id: int): (r: Option<string>)
    requires h.Wf()
    ensures r.Some? ==> r.value in h.values && h.values[r.value].id == id
    ensures r.Some? ==> FirstIndexWithId(h, id, 0).Some? && r.value == h.keys[FirstIndexWithId(h, id, 0).value]
    ensures r.None? ==> forall k :: k in h.values ==> h.values[k].id != id
    ensures IdsUnique(h) ==> forall k :: k in h.values && h.values[k].id == id ==> r == Some(k)
  {
    assert forall k :: k in h.values ==> exists j :: 0 <= j < |h.keys| && h.keys[j] == k;
    match FirstIndexWithId(h, id, 0)
    case Some(i) => Some(h.keys[i])
    case None => None
  }

  /** The cache after `after_update` of record `a`. */
  function Rename(h: ArchHash, a: Arch): (r: ArchHash)
    requires h.Wf()
    ensures r.Wf()
    ensures a.name in r.values && r.values[a.name] == a
    ensures forall k :: k in r.values && k != a.name ==> k in h.values && r.values[k] == h.values[k]
    ensures forall k :: k in h.values && k != a.name && Some(k) != StaleKey(h, a.id) ==> k in r.values
    ensures StaleKey(h, a.id).Some? && StaleKey(h, a.id).value != a.name ==> StaleKey(h, a.id).value !in r.values
    ensures NamesMatch(h) ==> NamesMatch(r)
  {
    var scanned := match StaleKey(h, a.id)
      case Some(k) => h.Delete(k)
      case None => h;
    scanned.Put(a.name, a)
  }

  /**
   * An update keeps each id at most once in the cache, whatever was under the
   * new name before, and the updated id ends up under the new name only.
   */
  lemma RenameIdsUnique(h: ArchHash, a: Arch)
    requires h.Wf() && IdsUnique(h)
    ensures IdsUnique(Rename(h, a))
    ensures forall k :: k in Rename(h, a).values && Rename(h, a).values[k].id == a.id ==> k == a.name
  {
  }

  /**
   * An update that keeps the name deletes the record's own entry and stores
   * it again, so the key moves to the end of the iteration order.
   */
  lemma RenameInPlaceMovesLast(h: ArchHash, a: Arch)
    requires h.Wf()
    requires StaleKey(h, a.id) == Some(a.name)
    ensures Rename(h, a).keys == Without(h.keys, a.name) + [a.name]
    ensures Rename(h, a).values == h.values[a.name := a]
  {
  }

  /** An update of an id the cache does not hold removes nothing. */
  lemma RenameOfUnknownId(h: ArchHash, a: Arch)
    requires h.Wf()
    requires forall k :: k in h.values ==> h.values[k].id != a.id
    ensures Rename(h, a) == h.Put(a.name, a)
  {
  }

  /**
   * A create keeps each id at most once in the cache when no other name
   * already holds that id.
   */
  lemma CreateIdsUnique(h: ArchHash, a: Arch)
    requires h.Wf() && IdsUnique(h)
    requires forall k :: k in h.values && k != a.name ==> h.values[k].id != a.id
    ensures IdsUnique(h.Put(a.name, a))
  {
  }

  /** A destroy never breaks either invariant. */
  lemma DestroyKeepsInvariants(h: ArchHash, name: string)
    requires h.Wf()
    ensures NamesMatch(h) ==> NamesMatch(h.Delete(name))
    ensures IdsUnique(h) ==> IdsUnique(h.Delete(name))
  {
  }

  /** The class-level `@cache` of Architecture, with `populated` for "@cache is set". */
  class ArchCache {
    var cache: ArchHash
    var populated: bool

    ghost predicate Valid()
      reads this
    {
      cache.Wf() && NamesMatch(cache) && (!populated ==> cache == Empty())
    }

    constructor ()
      ensures Valid() && !populated
    {
      cache := Empty();
      populated := false;
    }

    /** What `archcache` returns given the store's current records. */
    function Current(store: seq<Arch>): (h: ArchHash)
      reads this
      requires Valid()
      ensures h.Wf() && NamesMatch(h)
    {
      if populated then cache else Load(store)
    }

    /** `Architecture.archcache`: fill the hash on first use, afterwards return it as it is. */
    method Archcache(store: seq<Arch>) returns (h: ArchHash)
      requires Valid()
      modifies this
      ensures Valid() && populated
      ensures h == cache && h == old(Current(store))
      ensures old(populated) ==> cache == old(cache)
      ensures !old(populated) && StoreIdsUnique(store) ==> IdsUnique(h)
    {
      if populated {
        return cache;
      }
      cache := Empty();
      populated := true;
      var i := 0;
      while i < |store|
        invariant 0 <= i <= |store|
        invariant populated
        invariant cache == Load(store[..i])
      {
        assert store[..i + 1][..i] == store[..i];
        cache := cache.Put(store[i].name, store[i]);
        i := i + 1;
      }
      assert store[..i] == store;
      h := cache;
      if StoreIdsUnique(store) {
        LoadIdsUnique(store);
      }
    }

    /** `after_create`: the new record goes under its name. */
    method AfterCreate(a: Arch, store: seq<Arch>)
      requires Valid()
      modifies this
      ensures Valid() && populated
      ensures cache == old(Current(store)).Put(a.name, a)
      ensures IdsUnique(old(Current(store))) &&
        (forall k :: k in old(Current(store)).values && k != a.name ==> old(Current(store)).values[k].id != a.id)
        ==> IdsUnique(cache)
    {
      var h := Archcache(store);
      if IdsUnique(h) && forall k :: k in h.values && k != a.name ==> h.values[k].id != a.id {
        CreateIdsUnique(h, a);
      }
      cache := h.Put(a.name, a);
    }

    /**
     * `after_update`: scan the entries in order, delete the first whose record
     * has this id and stop, then store the record under its current name.
     */
    method AfterUpdate(a: Arch, store: seq<Arch>)
      requires Valid()
      modifies this
      ensures Valid() && populated
      ensures cache == Rename(old(Current(store)), a)
      ensures IdsUnique(old(Current(store))) ==> IdsUnique(cache)
    {
      var h := Archcache(store);
      var i := 0;
      while i < |h.keys|
        invariant 0 <= i <= |h.keys|
        invariant cache == h
        invariant FirstIndexWithId(h, a.id, 0) == FirstIndexWithId(h, a.id, i)
      {
        var k := h.keys[i];
        if h.values[k].id == a.id {
          cache := cache.Delete(k);
          break;
        }
        i := i + 1;
      }
      cache := cache.Put(a.name, a);
      assert cache == Rename(h, a);
      if IdsUnique(h) {
        RenameIdsUnique(h, a);
      }
    }

    /** `after_destroy`: the record's name is no longer a key. */
    method AfterDestroy(a: Arch, store: seq<Arch>)
      requires Valid()
      modifies this
      ensures Valid() && populated
      ensures cache == old(Current(store)).Delete(a.name)
      ensures IdsUnique(old(Current(store))) ==> IdsUnique(cache)
    {
      var h := Archcache(store);
      DestroyKeepsInvariants(h, a.name);
      cache := h.Delete(a.name);
    }
  }
}
