# Basket service model

A Dafny model of the basket service of a small restaurant-ordering web app
(`CMSGTechnical/Code/BasketService.cs`). The service owns one basket per
browser session. The basket is an ordered list of menu items, and the same
item may appear more than once. The service appends items, removes the first
item with a given id, and persists the whole basket under the single key
`"basket"` in an encrypted browser store. On start-up it restores the basket
from that store. It raises a change event after every `Add`, after every
`Remove` that found a match, and after every load that restored a value. The
reset after a decryption failure raises nothing.

Files:

- `wrappers.dfy`: `Option`, standing in for C# null.
- `dtos.dfy`: `MenuItem` as a value, and `BasketDto` as a class whose `menuItems` list is mutated in place.
- `basket_lists.dfy`: the list operations behind `Add` and `Remove`.
  - `FirstOrDefault` and `List.Remove` model the two library calls that `Remove` makes. `List.Remove` is built the way .NET builds it: `IndexOf` first, then removal at that index.
  - `RemoveFirst` is an independent reference definition of "delete the first entry with this id".
  - The lemmas state what these operations do to the basket.
- `storage.dfy`: the encrypted store as a key-value map, plus `GetResult`, the outcome of a read.
- `basket_service.dfy`: the `BasketService` class and two sessions that use it.
  - The class has the basket, the store, and a ghost count of change events.
  - In one session the store is reloaded normally; in the other, after a key rotation.

How the model relates to the program:

- The `OnChange` event is reduced to a counter, `notifications`. Each raise adds one.
- `GetAsync` is given to `LoadAsync` as an input of type `GetResult`. Besides a completed read and a decryption failure, `GetResult` has `ReadFailed` for any other exception; only the decryption failure is caught, and `LoadAsync` reports the other one as propagated. Its outcome depends on JavaScript interop and on the Data Protection key, which are outside the model. `ProtectedLocalStorage.Read` gives the outcome for a store the model wrote itself.
- Prices are integers in pence. The service never does arithmetic on them.
- `List.Remove(existing)` removes the first entry equal to `existing`. `ListRemoveOfFirstMatch` shows that this is the entry `FirstOrDefault` found. No earlier entry can be equal to it, because every earlier entry has a different id. This holds for value equality and for reference equality alike.

## Model

| member | source | states |
|---|---|---|
| BasketLists.FirstOrDefault | CMSGTechnical/Code/BasketService.cs:59 | finds nothing exactly when no entry has the id; otherwise finds the entry at the first position whose id matches |
| BasketLists.IndexOf | CMSGTechnical/Code/BasketService.cs:62 | the position `List.Remove` looks up: the first entry equal to the item, with no equal entry before it; "none" exactly when the item is absent |
| BasketLists.ListRemove | CMSGTechnical/Code/BasketService.cs:62 | deletes the first entry equal to the item and keeps every other entry in its original order; leaves the list unchanged when the item is absent; exactly one copy leaves (as a multiset) and the length drops by one exactly when the item was present |
| BasketLists.RemoveFirstAt | CMSGTechnical/Code/BasketService.cs:59-62 | removing by id deletes exactly the first matching entry; all entries before and after it stay, in their original order |
| BasketLists.ListRemoveOfFirstMatch | CMSGTechnical/Code/BasketService.cs:59-62 | `List.Remove` applied to the entry `FirstOrDefault` found gives the same list as deleting the first entry with that id |
| BasketLists.RemoveFirstMiss | CMSGTechnical/Code/BasketService.cs:59-64 | when no entry has the id, removing by that id leaves the basket unchanged |
| BasketLists.CountPositive | CMSGTechnical/Code/BasketService.cs:59-60 | an id's quantity is positive exactly when the basket has an entry with that id, i.e. when the `existing != null` branch is taken |
| BasketLists.RemoveFirstCounts | CMSGTechnical/Code/BasketService.cs:59-62 | removing by id lowers that id's quantity by exactly one when present, leaves every other id's quantity unchanged, and shortens the basket by one exactly when something was removed |
| BasketLists.AppendCounts | CMSGTechnical/Code/BasketService.cs:53 | appending an entry raises its id's quantity by one, even when the id is already present, and leaves the other ids' quantities unchanged |
| BasketLists.AppendThenRemoveFirst | CMSGTechnical/Code/BasketService.cs:53-62 | round trip: appending an item whose id is absent and then removing by its id restores the original basket |
| BasketLists.AppendThenRemoveOldest | CMSGTechnical/Code/BasketService.cs:53-62 | if the id is already present, removing right after appending deletes the oldest copy, and the new entry stays last |
| Dtos.BasketDto.constructor | CMSGTechnical/Code/BasketService.cs:46 | a new basket object has no entries |
| Dtos.BasketDto.FromItems | CMSGTechnical/Code/BasketService.cs:39 | a deserialised basket holds exactly the stored entries |
| Storage.ProtectedLocalStorage.Read | CMSGTechnical/Code/BasketService.cs:35 | the outcome of `GetAsync<BasketDto>("basket")` on this store: an unsuccessful read with no value exactly when the key is missing; a decryption failure exactly when the key is present but the protection key cannot unprotect it; a present key under a usable protection key reads back successfully with exactly the stored value |
| Storage.ProtectedLocalStorage.SetAsync | CMSGTechnical/Code/BasketService.cs:69 | writing overwrites exactly the given key and keeps every other key |
| Storage.ProtectedLocalStorage.DeleteAsync | CMSGTechnical/Code/BasketService.cs:45 | deleting removes exactly the given key and keeps every other key |
| Code.BasketService.constructor | CMSGTechnical/Code/BasketService.cs:23-29 | a new service has a fresh empty basket, has raised no event and keeps the given store |
| Code.BasketService.LoadAsync | CMSGTechnical/Code/BasketService.cs:31-48 | a successful read with a value replaces the basket with a fresh object holding that value and raises one event; a read with no value changes nothing and raises nothing; a decryption failure is caught, deletes the `"basket"` key, leaves a fresh empty basket and raises nothing; any other read failure is not caught and propagates to the caller with basket, store and event count unchanged; no other key is touched |
| Code.BasketService.Add | CMSGTechnical/Code/BasketService.cs:51-55 | the same basket object gets the item as its new last entry, with earlier entries unchanged, even if the id is a duplicate; the store's `"basket"` entry then equals the basket; no other key changes; exactly one event is raised |
| Code.BasketService.Remove | CMSGTechnical/Code/BasketService.cs:57-65 | the basket becomes the reference "remove first by id" of the old basket. On a match, the store's `"basket"` entry then equals the basket, no other key changes and one event is raised. With no match, the basket, the store and the event count are all unchanged. If store and memory agreed before, they still agree |
| Code.BasketService.PersistAsync | CMSGTechnical/Code/BasketService.cs:67-71 | writes the current basket under `"basket"`, then raises one event |
| Code.BasketService.NotifyStateChanged | CMSGTechnical/Code/BasketService.cs:73-74 | raises the change event exactly once |
| Code.ReloadSession | CMSGTechnical/Code/BasketService.cs:31-71 | a second session over the same store restores what the first left: after adding a, b, a and removing a, it restores [b, a] |
| Code.ReloadAfterKeyRotation | CMSGTechnical/Code/BasketService.cs:43-47 | a reload whose read fails to decrypt ends with an empty basket, and the stored entry is gone |

## Left out

- `async`/`await`: every operation is sequential and atomic. The model does not cover a race between two unawaited mutations.
- Serialisation, JavaScript interop and Data Protection encryption in `ProtectedLocalStorage`. The store is a map from keys to item sequences, and serialisation is taken to round-trip. The outcome of a read is an input to `LoadAsync`.
- Failed writes. The model assumes `SetAsync` and `DeleteAsync` succeed, so it does not cover the window in which memory runs ahead of the store after a failed write.
- Event subscribers and `BasketChangedEventArgs`: the event is a counter.
- `decimal` prices and currency formatting: prices are integers in pence.
- The grouped-lines view and the totals (`Qty: 2 · £25.98`, `£32.97`, `£34.97`). They are computed in the `BasketDisplay` component, which is not part of this model.
- Grouping the menu by category. It happens on the `Home` page, which is not part of this model.
- The bUnit rendering tests, which check markup.
- Menu items are values (`MenuItem` datatype), while `MenuItemDto` is a mutable reference that `Add` stores as-is. The model does not capture a caller mutating an item after adding it, nor reference identity between entries.
- Code outside the service, including the tests, that mutates `Basket.MenuItems` directly and so skips persisting and notifying.
