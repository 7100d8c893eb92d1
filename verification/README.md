# Creative inventory registry, modelled in Dafny

This project models `CreativeInventory` from PocketMine-MP. It is the registry
of items offered in the creative-mode menu. The registry holds:

- an ordered, integer-keyed PHP array of items (`creative`);
- a lazily built cache of content entries (`creativeContents`). Each entry
  pairs a 1-based entry id with the network form of one item.

Every mutation drops the cache. The next request for the contents rebuilds it.

The model is functional. A `Registry` value holds the keyed item sequence,
the PHP append counter (`nextKey`) and an `Option` cache. Each operation is a
pure function from one state to the next. `Valid` is the invariant every
reachable state keeps:

- keys ascend in iteration order;
- every key lies below the append counter;
- the cache is absent or equal to `Build` of the current store.

The operations do not require `Valid`. Their contracts state its preservation
as `Valid(r) ==> Valid(r')`.

The item layer is not part of this model. It provides item equality with an
optional damage check, the durable-item subclass test, the display name and
the network item codec. `Items.ItemLayer` passes these in as function values,
so every property holds whatever they compute.

Files:

- `wrappers.dfy`: `Option`, standing for PHP `null`.
- `keyed_seq.dfy`: PHP integer-keyed arrays. Covers append keys, `??` lookup,
  and `unset` without renumbering.
- `items.dfy`: the item-layer capabilities and the lookup's equality test.
- `creative_inventory.dfy`: the registry state and its operations.
- `properties.dfy`: properties that relate several operations. These are list
  semantics under any sequence of mutations, cache stability and
  invalidation, and the worked scenarios.

Two behaviours of the code that a reader might not expect:

- Durable items. Line 79 of src/inventory/CreativeInventory.php passes
  `checkDamage = !(query instanceof Durable)`. So a durable query ignores
  damage and any other query compares it; the stored item's own durability
  plays no part. `DamageCheckFollowsQuery` states this.
- Removal. `unset` leaves a gap in the keys, and `getItem` looks a PHP key
  up rather than a position. After a removal the removed key reads as `None`
  and every other key keeps its item (`ScenarioRemoveMiddle`). Snapshot entry
  ids come from iteration order, not from keys.

## Model

The rows describe states that satisfy `Valid`, the invariant every reachable
state keeps. Several contracts state their claims under that hypothesis, or
under its store half `StoreValid`. Examples are the count after `remove`, the
new key of `add` being above every existing key, and the cache after
`getCreativeContents` equalling `Build` of the store. On a state with a stale
cache, `getCreativeContents` reuses the stale cache, as PHP does.

| member | source | states |
|---|---|---|
| KeyedSeq.Unset | src/inventory/CreativeInventory.php:124 | After `unset`, no slot carries the given key. Every slot of the original array with another key survives, and every remaining slot comes from the original array. Ascending keys and the key bound are preserved. |
| KeyedSeq.GetUnset | src/inventory/CreativeInventory.php:124 | After `unset($a[$k])`, key k reads as absent and every other key reads as it did before. |
| KeyedSeq.UnsetAt | src/inventory/CreativeInventory.php:124 | With ascending keys, unsetting the key at position p yields the sequence without position p. The survivors keep their order; nothing is compacted or renumbered. |
| CreativeInventory.Empty | src/inventory/CreativeInventory.php:39-42 | The initial state has an empty store, append counter 0 and no cache, and satisfies the store invariant. |
| CreativeInventory.Build | src/inventory/CreativeInventory.php:96-99 | The rebuilt cache has one entry per stored item, in iteration order. Entry j keeps the item's key and has id j+1 and payload `encode(item_j)`. |
| CreativeInventory.Add | src/inventory/CreativeInventory.php:109-113 | `add` drops the cache and grows the store by one. The new item sits last, under a key above every existing key. Every other key keeps its item, and validity is preserved. |
| CreativeInventory.Clear | src/inventory/CreativeInventory.php:60-64 | `clear` leaves an empty store and no cache. It resets the append counter to 0, so the next `add` lands at key 0. No key resolves afterwards. |
| CreativeInventory.GetItem | src/inventory/CreativeInventory.php:73-75 | `getItem(i)` is the item stored under key i, or `None` when no slot has that key. This covers negative and out-of-range keys and removal gaps. |
| CreativeInventory.FirstMatch | src/inventory/CreativeInventory.php:77-85 | Returns the first position whose item passes the lookup test, or `None` exactly when no stored item passes it. |
| CreativeInventory.GetItemIndex | src/inventory/CreativeInventory.php:77-85 | `getItemIndex(x)` is -1 iff no stored item d satisfies `equals(x, d, !isDurable(x))`. Otherwise it is the key of the first such d in iteration order. |
| CreativeInventory.Contains | src/inventory/CreativeInventory.php:128-130 | `contains(x)` holds iff some stored item passes the lookup test, iff `getItemIndex(x) != -1`. |
| CreativeInventory.Remove | src/inventory/CreativeInventory.php:119-126 | Suppose `getItemIndex(x) = k != -1`. Then the cache is dropped, key k becomes absent, every other key keeps its item and the count drops by one. If k = -1, the whole state, cache included, is unchanged. |
| CreativeInventory.GetCreativeContents | src/inventory/CreativeInventory.php:92-103 | Afterwards the cache is present and equals `Build(store)`, whatever the spectator flag. A present cache is reused unchanged. A spectator receives `[]` and anyone else receives the cache. |
| CreativeInventory.KeepKnown | src/inventory/CreativeInventory.php:47-53 | The kept items are drawn from the input and none is named "Unknown". Every input item not named "Unknown" is kept. Order and multiplicity are fixed by `KeepKnownAppend` and `KeepKnownOne`. |
| CreativeInventory.KeepKnownAppend | src/inventory/CreativeInventory.php:47-53 | Filtering a concatenation is the concatenation of the filtered parts, so kept items stay in list order. |
| CreativeInventory.KeepKnownOne | src/inventory/CreativeInventory.php:49-52 | A single item is kept exactly when its name is not "Unknown". |
| CreativeInventory.Create | src/inventory/CreativeInventory.php:44-54 | Construction yields a well-formed store with no cache. Key j holds the j-th input item not named "Unknown", in input order, so no stored item is named "Unknown". The append counter equals the item count. |
| CreativeProperties.AddActsAsList | src/inventory/CreativeInventory.php:109-113 | On the item list, `add` appends the item at the end. |
| CreativeProperties.RemoveActsAsList | src/inventory/CreativeInventory.php:119-126 | On the item list, `remove` drops exactly the first item the lookup test accepts and keeps the others in order. |
| CreativeProperties.StepActsAsList | src/inventory/CreativeInventory.php:60-126 | One add, remove or clear keeps the state valid and changes the item list as the reference list semantics does. |
| CreativeProperties.NetEffect | src/inventory/CreativeInventory.php:60-126 | After any sequence of add/remove/clear, the state is valid. The stored items equal the reference list semantics, in order. |
| CreativeProperties.SnapshotAfterOps | src/inventory/CreativeInventory.php:92-126 | After any sequence of mutations, a non-spectator snapshot numbers the surviving items 1..N in list order. Each entry carries the item's encoding and its key. |
| CreativeProperties.CacheStable | src/inventory/CreativeInventory.php:92-103 | A second snapshot request with no mutation in between leaves the state unchanged. It serves a non-spectator the same entries as the first. |
| CreativeProperties.DamageCheckFollowsQuery | src/inventory/CreativeInventory.php:79 | A durable query matches a stored item when the two are equal with damage ignored. Any other query matches only when they are equal with damage compared. |
| CreativeProperties.KeepKnownAll | src/inventory/CreativeInventory.php:47-53 | A bundled list with no item named "Unknown" is kept whole. |
| CreativeProperties.LoadAllKnown | src/inventory/CreativeInventory.php:44-54 | Loading a list with no item named "Unknown" stores item j under key j. |
| CreativeProperties.LoadThree | src/inventory/CreativeInventory.php:44-54 | Loading [a, b, c] with no unknown names stores them under keys 0, 1, 2. |
| CreativeProperties.RemoveFromTriple | src/inventory/CreativeInventory.php:77-126 | With a, b, c under keys 0, 1, 2 and a query b that rejects a but accepts b, the lookup gives key 1. Removing b leaves a under 0 and c under 2 and drops the cache. |
| CreativeProperties.GappedPair | src/inventory/CreativeInventory.php:73-103 | With a under key 0 and c under key 2, key 1 reads as `None`. A fresh snapshot is [(1, enc a), (2, enc c)] under keys 0 and 2. |
| CreativeProperties.ScenarioRemoveMiddle | src/inventory/CreativeInventory.php:44-126 | Load [a, b, c]. b is found at key 1. Removing b leaves a at 0, a gap at 1 and c at 2. The snapshot is [(1, enc a), (2, enc c)] under keys 0 and 2. |
| CreativeProperties.ScenarioAddToEmpty | src/inventory/CreativeInventory.php:60-75 | Adding d after `clear` stores d under key 0, and key 1 stays empty. |

## Left out

- Reading and decoding the bundled item file (line 45) is left out, because it
  is file I/O and JSON parsing. `Create` takes the already-deserialized item
  sequence instead.
- `Item::jsonDeserialize`, `Item::equals`, `Item::getName`, the `Durable`
  hierarchy and `TypeConverter::coreItemStackToNet` are left out, because their
  source is not part of this model. They appear only as the function values of
  `Items.ItemLayer`. `CreativeContentEntry` is modelled as the plain pair
  `Entry(id, item)`.
- The singleton and the `static` cache shared across instances are left out.
  One `Registry` value holds both the store and the cache.
- `clone` on insertion is left out, because Dafny values are immutable, so a
  stored item cannot be changed through the caller's copy.
- Aliasing of returned items is left out. In PHP, `getItem` (lines 73-75) and
  `getAll` (lines 69-71) return the stored item objects themselves, not copies.
  A caller that mutates one changes the stored item in place, and nothing
  drops the cache, so the cache can then encode an item that no longer
  matches the store. The model's items are immutable values. `CacheCurrent`
  and `Valid` therefore assume that callers never mutate a returned item.
- `getAll` is modelled only as a projection of the state, `GetAll`. Its order
  and contents are what `NetEffect` and `Create` state.
- Propagation of menu changes to players already online is left out, because
  it is network behaviour outside this registry.
