/** The creative-menu registry: the list of items offered in creative mode,
    and a lazily built, cached list of content entries sent to clients.
    The registry and its cache are one immutable state value; every
    operation returns the next state instead of mutating a shared instance. */
module CreativeInventory {
  import opened Wrappers
  import opened KeyedSeq
  import opened Items

  /** One content entry: a 1-based entry id and the network form of an item. */
  datatype Entry<+Net> = Entry(id: nat, item: Net)

  /** The registry state:
      - `creative`: the stored items with their array keys, in iteration order;
      - `nextKey`: the key the next append uses (one past the largest key ever
        used since the array was last replaced; an unset does not lower it);
      - `cache`: the content entries, keyed like `creative`, or `None` once a
        mutation has invalidated them. */
  datatype Registry<Item, Net> = Registry(
    creative: seq<Slot<Item>>,
    nextKey: nat,
    cache: Option<seq<Slot<Entry<Net>>>>)

  /** The item store is a well-formed append-only array: keys ascend along the
      iteration order and all lie below the append counter. */
  predicate StoreValid<Item, Net>(r: Registry<Item, Net>) {
    Ascending(r.creative) && Below(r.creative, r.nextKey)
  }

  /** The cache is either absent or exactly what a rebuild would produce now. */
  ghost predicate CacheCurrent<Item, Net>(layer: ItemLayer<Item, Net>, r: Registry<Item, Net>) {
    r.cache.None? || r.cache.value == Build(layer.encode, r.creative)
  }

  /** The representation invariant every reachable state satisfies. */
  ghost predicate Valid<Item, Net>(layer: ItemLayer<Item, Net>, r: Registry<Item, Net>) {
    StoreValid(r) && CacheCurrent(layer, r)
  }

  /** Entries for `s`, numbering them from `firstId` on in iteration order. */
  function BuildFrom<Item, Net>(encode: Item -> Net, s: seq<Slot<Item>>, firstId: nat)
    : (b: seq<Slot<Entry<Net>>>)
    ensures |b| == |s|
    ensures forall j :: 0 <= j < |s| ==>
      b[j] == Slot(s[j].key, Entry(firstId + j, encode(s[j].value)))
  {
    if |s| == 0 then []
    else [Slot(s[0].key, Entry(firstId, encode(s[0].value)))] + BuildFrom(encode, s[1..], firstId + 1)
  }

  /** The content entries of the store: `array_map` keeps every key, and a
      counter starting at 1 numbers the entries in iteration order. */
  function Build<Item, Net>(encode: Item -> Net, s: seq<Slot<Item>>): (b: seq<Slot<Entry<Net>>>)
    ensures |b| == |s|
    ensures forall j :: 0 <= j < |s| ==> b[j].key == s[j].key
    ensures forall j :: 0 <= j < |s| ==> b[j].value == Entry(j + 1, encode(s[j].value))
  {
    BuildFrom(encode, s, 1)
  }

  /** A fresh registry: an empty array (next key 0) and no cache. */
  function Empty<Item, Net>(): (r: Registry<Item, Net>)
    ensures StoreValid(r)
    ensures r.creative == [] && r.cache.None?
    ensures r.nextKey == 0
  {
    Registry([], 0, None)
  }

  /** `add`: drops the cache and appends the item under the next key, which
      is above every key in use, so the item becomes last in iteration order.
      Every key already present keeps its item. */
  function Add<Item, Net>(r: Registry<Item, Net>, item: Item): (r': Registry<Item, Net>)
    ensures r'.cache.None?
    ensures |r'.creative| == |r.creative| + 1
    ensures r'.creative[..|r.creative|] == r.creative
    ensures r'.creative[|r.creative|] == Slot(r.nextKey, item)
    ensures r'.nextKey == r.nextKey + 1
    ensures StoreValid(r) ==> StoreValid(r')
    ensures StoreValid(r) ==> forall i :: 0 <= i < |r.creative| ==> r'.creative[i].key < r'.creative[|r.creative|].key
    ensures StoreValid(r) ==> GetItem(r', r.nextKey) == Some(item)
    ensures forall k :: k != r.nextKey ==> GetItem(r', k) == GetItem(r, k)
  {
    var s := r.creative + [Slot(r.nextKey, item)];
    assert forall k :: k != r.nextKey ==> Get(s, k) == Get(r.creative, k) by {
      forall k | k != r.nextKey
        ensures Get(s, k) == Get(r.creative, k)
      {
        GetAppend(r.creative, Slot(r.nextKey, item), k);
      }
    }
    assert StoreValid(r) ==> Get(s, r.nextKey) == Some(item) by {
      if StoreValid(r) {
        GetStored(s, |r.creative|);
      }
    }
    Registry(s, r.nextKey + 1, None)
  }

  /** Lookup in a store with one more slot appended. */
  lemma {:induction false} GetAppend<V>(s: seq<Slot<V>>, x: Slot<V>, k: int)
    requires x.key != k
    ensures Get(s + [x], k) == Get(s, k)
  {
    if |s| > 0 {
      assert (s + [x])[1..] == s[1..] + [x];
      GetAppend(s[1..], x, k);
    }
  }

  /** `clear`: the cache is dropped and the array replaced by a fresh empty
      one, which also resets the append counter. */
  function Clear<Item, Net>(r: Registry<Item, Net>): (r': Registry<Item, Net>)
    ensures r'.creative == [] && r'.cache.None?
    ensures r'.nextKey == 0
    ensures StoreValid(r')
    ensures forall k :: GetItem(r', k).None?
  {
    Empty()
  }

  /** `getAll`: the stored items with their keys, in iteration order. */
  function GetAll<Item, Net>(r: Registry<Item, Net>): seq<Slot<Item>> {
    r.creative
  }

  /** `getItem`: the item stored under `index`, or `None` when no such key
      exists (out of range, or a gap left by a removal). */
  function GetItem<Item, Net>(r: Registry<Item, Net>, index: int): (o: Option<Item>)
    ensures o.None? <==> forall i :: 0 <= i < |r.creative| ==> r.creative[i].key != index
    ensures o.Some? ==> exists i :: 0 <= i < |r.creative| && r.creative[i].key == index && r.creative[i].value == o.value
    ensures index < 0 ==> o.None?
  {
    Get(r.creative, index)
  }

  /** Position (in iteration order) of the first stored item the lookup
      test accepts for `query`. */
  function FirstMatch<Item, Net>(layer: ItemLayer<Item, Net>, s: seq<Slot<Item>>, query: Item)
    : (p: Option<nat>)
    ensures p.None? <==> forall i :: 0 <= i < |s| ==> !LookupEquals(layer, query, s[i].value)
    ensures p.Some? ==> p.value < |s| && LookupEquals(layer, query, s[p.value].value)
    ensures p.Some? ==> forall i :: 0 <= i < p.value ==> !LookupEquals(layer, query, s[i].value)
  {
    if |s| == 0 then None
    else if LookupEquals(layer, query, s[0].value) then Some(0)
    else match FirstMatch(layer, s[1..], query)
      case None => None
      case Some(p) => Some(p + 1)
  }

  /** `getItemIndex`: the key of the first stored item (in iteration order)
      that the lookup test accepts, or -1 when none does. */
  function GetItemIndex<Item, Net>(layer: ItemLayer<Item, Net>, r: Registry<Item, Net>, query: Item)
    : (k: int)
    ensures k == -1 <==> forall i :: 0 <= i < |r.creative| ==> !LookupEquals(layer, query, r.creative[i].value)
    ensures k != -1 ==>
      exists p :: (0 <= p < |r.creative| && r.creative[p].key == k
        && LookupEquals(layer, query, r.creative[p].value)
        && forall i :: 0 <= i < p ==> !LookupEquals(layer, query, r.creative[i].value))
  {
    match FirstMatch(layer, r.creative, query)
    case None => -1
    case Some(p) => r.creative[p].key
  }

  /** `contains`: some stored item passes the lookup test. */
  function Contains<Item, Net>(layer: ItemLayer<Item, Net>, r: Registry<Item, Net>, query: Item)
    : (b: bool)
    ensures b <==> exists i :: 0 <= i < |r.creative| && LookupEquals(layer, query, r.creative[i].value)
    ensures b <==> GetItemIndex(layer, r, query) != -1
  {
    GetItemIndex(layer, r, query) != -1
  }

  /** `remove`: when the lookup finds key `k`, the cache is dropped and
      exactly key `k` is unset, every other key keeping its item; when it
      finds nothing, store and cache are left as they were. */
  function Remove<Item, Net>(layer: ItemLayer<Item, Net>, r: Registry<Item, Net>, query: Item)
    : (r': Registry<Item, Net>)
    ensures GetItemIndex(layer, r, query) == -1 ==> r' == r
    ensures GetItemIndex(layer, r, query) != -1 ==> r'.cache.None?
    ensures GetItemIndex(layer, r, query) != -1 ==> GetItem(r', GetItemIndex(layer, r, query)).None?
    ensures forall j :: j != GetItemIndex(layer, r, query) ==> GetItem(r', j) == GetItem(r, j)
    ensures r'.nextKey == r.nextKey
    ensures StoreValid(r) ==> StoreValid(r')
    ensures StoreValid(r) && GetItemIndex(layer, r, query) != -1 ==> |r'.creative| == |r.creative| - 1
  {
    var k := GetItemIndex(layer, r, query);
    if k == -1 then r
    else
      var s := Unset(r.creative, k);
      assert forall j :: Get(s, j) == if j == k then None else Get(r.creative, j) by {
        forall j
          ensures Get(s, j) == if j == k then None else Get(r.creative, j)
        {
          GetUnset(r.creative, k, j);
        }
      }
      assert StoreValid(r) ==> |s| == |r.creative| - 1 by {
        if StoreValid(r) {
          UnsetAt(r.creative, FirstMatch(layer, r.creative, query).value);
        }
      }
      Registry(s, r.nextKey, None)
  }

  /** A registry state together with the entries handed to one viewer. */
  datatype Served<Item, Net> = Served(state: Registry<Item, Net>, contents: seq<Slot<Entry<Net>>>)

  /** `getCreativeContents`: builds the cache first if it is absent (whatever
      the viewer), then hands a spectator nothing and anyone else the cache.
      A cache that is present is reused as it is. */
  function GetCreativeContents<Item, Net>(layer: ItemLayer<Item, Net>, r: Registry<Item, Net>, isSpectator: bool)
    : (out: Served<Item, Net>)
    ensures out.state.creative == r.creative && out.state.nextKey == r.nextKey
    ensures out.state.cache.Some?
    ensures r.cache.Some? ==> out.state == r
    ensures CacheCurrent(layer, r) ==> out.state.cache.value == Build(layer.encode, r.creative)
    ensures Valid(layer, r) ==> Valid(layer, out.state)
    ensures isSpectator ==> out.contents == []
    ensures !isSpectator ==> out.contents == out.state.cache.value
  {
    var cache := if r.cache.None? then Build(layer.encode, GetAll(r)) else r.cache.value;
    var state := r.(cache := Some(cache));
    Served(state, if isSpectator then [] else cache)
  }

  /** Everything the bundled list names except the unresolvable items, in
      list order. */
  function KeepKnown<Item, Net>(layer: ItemLayer<Item, Net>, data: seq<Item>): (kept: seq<Item>)
    ensures |kept| <= |data|
    ensures forall j :: 0 <= j < |kept| ==> !IsUnknown(layer, kept[j])
    ensures forall x :: x in kept ==> x in data
    ensures forall x :: x in data && !IsUnknown(layer, x) ==> x in kept
  {
    if |data| == 0 then []
    else
      var last := data[|data| - 1];
      var front := KeepKnown(layer, data[..|data| - 1]);
      assert data == data[..|data| - 1] + [last];
      if IsUnknown(layer, last) then front else front + [last]
  }

  /** Filtering distributes over concatenation, so the kept items keep the
      list order: together with the one-item case below this fixes the
      result of `KeepKnown` completely. */
  lemma {:induction false} KeepKnownAppend<Item, Net>(layer: ItemLayer<Item, Net>, a: seq<Item>, b: seq<Item>)
    ensures KeepKnown(layer, a + b) == KeepKnown(layer, a) + KeepKnown(layer, b)
    decreases |b|
  {
    if |b| > 0 {
      var front := b[..|b| - 1];
      var last := b[|b| - 1];
      assert (a + b)[..|a + b| - 1] == a + front;
      assert (a + b)[|a + b| - 1] == last;
      KeepKnownAppend(layer, a, front);
    } else {
      assert a + b == a;
    }
  }

  /** A single item is kept exactly when its name is not "Unknown". */
  lemma KeepKnownOne<Item, Net>(layer: ItemLayer<Item, Net>, x: Item)
    ensures KeepKnown(layer, [x]) == if IsUnknown(layer, x) then [] else [x]
  {
    assert [x][..0] == [];
  }

  /** The constructor: the already-decoded bundled items are added one by one
      in list order, skipping those whose name is "Unknown". The j-th kept
      item lands under key j, and no stored item is named "Unknown". */
  function Create<Item, Net>(layer: ItemLayer<Item, Net>, data: seq<Item>): (r: Registry<Item, Net>)
    ensures StoreValid(r) && r.cache.None?
    ensures r.nextKey == |r.creative| == |KeepKnown(layer, data)|
    ensures forall j :: 0 <= j < |r.creative| ==> r.creative[j] == Slot(j, KeepKnown(layer, data)[j])
    ensures forall j :: 0 <= j < |r.creative| ==> !IsUnknown(layer, r.creative[j].value)
  {
    if |data| == 0 then Empty()
    else
      var last := data[|data| - 1];
      var r0 := Create(layer, data[..|data| - 1]);
      if IsUnknown(layer, last) then r0 else Add(r0, last)
  }
}
