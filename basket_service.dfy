/**
 * The basket service: the one mutable basket of a browser session, kept in
 * step with the encrypted browser store. A change event is raised after
 * every `Add`, every `Remove` that found a match and every load that
 * restored a value; the reset after a decryption failure raises nothing.
 */
module Code {
  import opened Dtos
  import opened Storage
  import opened BasketLists

  /** The single key under which the whole basket is persisted. */
  const StorageKey: string := "basket"

  /** The store holds exactly `items` under the basket key. */
  ghost predicate StoredIs(entries: map<string, seq<MenuItem>>, items: seq<MenuItem>) {
    StorageKey in entries && entries[StorageKey] == items
  }

  /** No key other than the basket key differs between the two stores. */
  ghost predicate OnlyBasketKeyTouched(before: map<string, seq<MenuItem>>, after: map<string, seq<MenuItem>>) {
    before - {StorageKey} == after - {StorageKey}
  }

  class BasketService {
    const localStorage: ProtectedLocalStorage
    var basket: BasketDto
    /** How many times the OnChange event has been raised. */
    ghost var notifications: nat

    /** Memory and store agree: the store's basket entry is the current basket. */
    ghost predicate InSync()
      reads this, basket, localStorage
    {
      StoredIs(localStorage.entries, basket.menuItems)
    }

    /** A new service starts with an empty basket and has raised no event; the store is not touched. */
    constructor (localStorage: ProtectedLocalStorage)
      ensures this.localStorage == localStorage
      ensures fresh(basket) && basket.menuItems == []
      ensures notifications == 0
    {
      this.localStorage := localStorage;
      basket := new BasketDto();
      notifications := 0;
    }

    /**
     * Restores the basket from the store, given the outcome of the read.
     * A completed, successful read with a value replaces the basket and
     * raises one event; any other completed read changes nothing; a
     * decryption failure purges the stored entry and starts an empty
     * basket, raising nothing and returning normally. Any other failure of
     * the read is not caught: it propagates to the caller (`propagated`)
     * with the basket, the store and the event count untouched.
     */
    method LoadAsync(read: GetResult) returns (propagated: bool)
      modifies this, localStorage
      ensures propagated <==> read.ReadFailed?
      ensures read.ReadFailed? ==>
        basket == old(basket) && basket.menuItems == old(basket.menuItems) &&
        localStorage.entries == old(localStorage.entries) &&
        notifications == old(notifications)
      ensures read.Completed? && read.success && read.value.Some? ==>
        fresh(basket) && basket.menuItems == read.value.value &&
        localStorage.entries == old(localStorage.entries) &&
        notifications == old(notifications) + 1
      ensures read.Completed? && !(read.success && read.value.Some?) ==>
        basket == old(basket) && basket.menuItems == old(basket.menuItems) &&
        localStorage.entries == old(localStorage.entries) &&
        notifications == old(notifications)
      ensures read.DecryptionFailed? ==>
        fresh(basket) && basket.menuItems == [] &&
        localStorage.entries == old(localStorage.entries) - {StorageKey} &&
        StorageKey !in localStorage.entries &&
        notifications == old(notifications)
      ensures OnlyBasketKeyTouched(old(localStorage.entries), localStorage.entries)
    {
      propagated := false;
      if read.ReadFailed? {
        propagated := true;
      } else if read.DecryptionFailed? {
        localStorage.DeleteAsync(StorageKey);
        basket := new BasketDto();
      } else if read.success && read.value.Some? {
        basket := new BasketDto.FromItems(read.value.value);
        NotifyStateChanged();
      }
    }

    /**
     * Appends `item` as the new last entry, even when an entry with the same
     * id is already there, then persists the basket and raises one event.
     */
    method Add(item: MenuItem)
      modifies this, basket, localStorage
      ensures basket == old(basket)
      ensures basket.menuItems == old(basket.menuItems) + [item]
      ensures StoredIs(localStorage.entries, basket.menuItems)
      ensures OnlyBasketKeyTouched(old(localStorage.entries), localStorage.entries)
      ensures notifications == old(notifications) + 1
    {
      basket.menuItems := basket.menuItems + [item];
      PersistAsync();
    }

    /**
     * Deletes the first entry whose id is `item.id` and then persists and
     * raises one event; when no entry has that id, does nothing at all.
     */
    method Remove(item: MenuItem)
      modifies this, basket, localStorage
      ensures basket == old(basket)
      ensures basket.menuItems == RemoveFirst(old(basket.menuItems), item.id)
      ensures HasId(old(basket.menuItems), item.id) ==>
        StoredIs(localStorage.entries, basket.menuItems) &&
        OnlyBasketKeyTouched(old(localStorage.entries), localStorage.entries) &&
        notifications == old(notifications) + 1
      ensures !HasId(old(basket.menuItems), item.id) ==>
        basket.menuItems == old(basket.menuItems) &&
        localStorage.entries == old(localStorage.entries) &&
        notifications == old(notifications)
      ensures old(InSync()) ==> InSync()
    {
      var items := basket.menuItems;
      var existing := FirstOrDefault(items, item.id);
      if existing.Some? {
        ghost var k :| IsFirstMatch(items, item.id, k) && items[k] == existing.value;
        ListRemoveOfFirstMatch(items, item.id, k);
        var rest := ListRemove(items, existing.value);
        assert rest == RemoveFirst(items, item.id);
        basket.menuItems := rest;
        PersistAsync();
      } else {
        RemoveFirstMiss(items, item.id);
      }
    }

    /** Writes the current basket under the basket key, then raises one event. */
    method PersistAsync()
      modifies this, localStorage
      ensures basket == old(basket)
      ensures localStorage.entries == old(localStorage.entries)[StorageKey := basket.menuItems]
      ensures notifications == old(notifications) + 1
    {
      localStorage.SetAsync(StorageKey, basket.menuItems);
      NotifyStateChanged();
    }

    /** Raises the OnChange event once. */
    ghost method NotifyStateChanged()
      modifies this`notifications
      ensures notifications == old(notifications) + 1
    {
      notifications := notifications + 1;
    }
  }

  /**
   * Two sessions over one store: what the first session adds and removes is
   * what the second restores, and duplicates are removed oldest first.
   */
  method ReloadSession(a: MenuItem, b: MenuItem) returns (restored: seq<MenuItem>)
    ensures restored == [b, a]
  {
    var store := new ProtectedLocalStorage();
    var first := new BasketService(store);
    first.Add(a);
    first.Add(b);
    first.Add(a);
    first.Remove(a);
    assert first.basket.menuItems == RemoveFirst([a, b, a], a.id);
    var second := new BasketService(store);
    var _ := second.LoadAsync(store.Read(StorageKey, true));
    restored := second.basket.menuItems;
  }

  /** A store written under an older protection key: the reload purges it and starts empty. */
  method ReloadAfterKeyRotation(a: MenuItem) returns (restored: seq<MenuItem>, purged: bool)
    ensures restored == [] && purged
  {
    var store := new ProtectedLocalStorage();
    var first := new BasketService(store);
    first.Add(a);
    var second := new BasketService(store);
    var _ := second.LoadAsync(store.Read(StorageKey, false));
    restored := second.basket.menuItems;
    purged := StorageKey !in store.entries;
  }
}
