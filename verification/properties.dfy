/** Properties of the creative registry that relate several operations:
    its behaviour as a plain list of items, cache stability and
    invalidation, and worked load/lookup/remove/snapshot scenarios. */
module CreativeProperties {
  import opened Wrappers
  import opened KeyedSeq
  import opened Items
  import opened CreativeInventory

  /** A mutation a caller may apply to the registry. */
  datatype Op<Item> = AddItem(item: Item) | RemoveItem(item: Item) | ClearAll

  function Step<Item, Net>(layer: ItemLayer<Item, Net>, r: Registry<Item, Net>, op: Op<Item>)
    : Registry<Item, Net>
  {
    match op
    case AddItem(x) => Add(r, x)
    case RemoveItem(x) => Remove(layer, r, x)
    case ClearAll => Clear(r)
  }

  /** The registry after the mutations `ops`, applied first to last. */
  function Run<Item, Net>(layer: ItemLayer<Item, Net>, r: Registry<Item, Net>, ops: seq<Op<Item>>)
    : Registry<Item, Net>
    decreases |ops|
  {
    if |ops| == 0 then r else Run(layer, Step(layer, r, ops[0]), ops[1..])
  }

  /** Reference behaviour on a plain list: drop the first element the lookup
      test accepts, if there is one. */
  function ListRemove<Item, Net>(layer: ItemLayer<Item, Net>, l: seq<Item>, query: Item): seq<Item> {
    if |l| == 0 then []
    else if LookupEquals(layer, query, l[0]) then l[1..]
    else [l[0]] + ListRemove(layer, l[1..], query)
  }

  function ListStep<Item, Net>(layer: ItemLayer<Item, Net>, l: seq<Item>, op: Op<Item>): seq<Item> {
    match op
    case AddItem(x) => l + [x]
    case RemoveItem(x) => ListRemove(layer, l, x)
    case ClearAll => []
  }

  function ListRun<Item, Net>(layer: ItemLayer<Item, Net>, l: seq<Item>, ops: seq<Op<Item>>): seq<Item>
    decreases |ops|
  {
    if |ops| == 0 then l else ListRun(layer, ListStep(layer, l, ops[0]), ops[1..])
  }

  /** With no element accepted, the reference removal keeps the list. */
  lemma {:induction false} ListRemoveNone<Item, Net>(layer: ItemLayer<Item, Net>, l: seq<Item>, query: Item)
    requires forall i :: 0 <= i < |l| ==> !LookupEquals(layer, query, l[i])
    ensures ListRemove(layer, l, query) == l
  {
    if |l| > 0 {
      ListRemoveNone(layer, l[1..], query);
      assert l == [l[0]] + l[1..];
    }
  }

  /** The reference removal drops exactly the first accepted position. */
  lemma {:induction false} ListRemoveAt<Item, Net>(layer: ItemLayer<Item, Net>, l: seq<Item>, query: Item, p: int)
    requires 0 <= p < |l|
    requires LookupEquals(layer, query, l[p])
    requires forall i :: 0 <= i < p ==> !LookupEquals(layer, query, l[i])
    ensures ListRemove(layer, l, query) == l[..p] + l[p + 1..]
  {
    if p > 0 {
      ListRemoveAt(layer, l[1..], query, p - 1);
      assert l[1..][..p - 1] == l[1..p];
      assert l[1..][p..] == l[p + 1..];
      assert [l[0]] + l[1..p] == l[..p];
    }
  }

  /** `remove` on a well-formed store changes the item list exactly as the
      reference removal does: the first accepted item goes, the others keep
      their order. */
  lemma RemoveActsAsList<Item, Net>(layer: ItemLayer<Item, Net>, r: Registry<Item, Net>, query: Item)
    requires StoreValid(r)
    ensures Values(Remove(layer, r, query).creative) == ListRemove(layer, Values(r.creative), query)
  {
    var s := r.creative;
    var l := Values(s);
    var r' := Remove(layer, r, query);
    var m := FirstMatch(layer, s, query);
    if m.None? {
      assert r' == r;
      ListRemoveNone(layer, l, query);
    } else {
      var p := m.value;
      assert GetItemIndex(layer, r, query) == s[p].key;
      assert r'.creative == Unset(s, s[p].key);
      UnsetAt(s, p);
      ListRemoveAt(layer, l, query, p);
      ValuesWithout(s, p);
    }
  }

  /** Dropping position `p` from a store drops position `p` of its values. */
  lemma ValuesWithout<V>(s: seq<Slot<V>>, p: int)
    requires 0 <= p < |s|
    ensures Values(s[..p] + s[p + 1..]) == Values(s)[..p] + Values(s)[p + 1..]
  {
    var rest := s[..p] + s[p + 1..];
    var l := Values(s);
    assert forall i :: 0 <= i < |rest| ==> Values(rest)[i] == (l[..p] + l[p + 1..])[i];
  }

  /** `add` appends to the item list. */
  lemma AddActsAsList<Item, Net>(r: Registry<Item, Net>, item: Item)
    ensures Values(Add(r, item).creative) == Values(r.creative) + [item]
  {
    var s := Add(r, item).creative;
    assert s == r.creative + [Slot(r.nextKey, item)];
  }

  /** One mutation keeps the registry valid and changes its item list as
      the reference list semantics does. */
  lemma StepActsAsList<Item, Net>(layer: ItemLayer<Item, Net>, r: Registry<Item, Net>, op: Op<Item>)
    requires Valid(layer, r)
    ensures Valid(layer, Step(layer, r, op))
    ensures Values(Step(layer, r, op).creative) == ListStep(layer, Values(r.creative), op)
  {
    match op
    case AddItem(x) =>
      AddActsAsList(r, x);
    case RemoveItem(x) =>
      RemoveActsAsList(layer, r, x);
      assert Valid(layer, Remove(layer, r, x));
    case ClearAll =>
  }

  /** Any sequence of mutations keeps the registry valid and leaves exactly
      the items the reference list semantics predicts, in the same order. */
  lemma {:induction false} NetEffect<Item, Net>(layer: ItemLayer<Item, Net>, r: Registry<Item, Net>, ops: seq<Op<Item>>)
    requires Valid(layer, r)
    ensures Valid(layer, Run(layer, r, ops))
    ensures Values(Run(layer, r, ops).creative) == ListRun(layer, Values(r.creative), ops)
    decreases |ops|
  {
    if |ops| > 0 {
      var r1 := Step(layer, r, ops[0]);
      StepActsAsList(layer, r, ops[0]);
      NetEffect(layer, r1, ops[1..]);
    }
  }

  /** After any sequence of mutations, the next snapshot for a non-spectator
      numbers the surviving items 1..N in list order, with their encodings,
      under the keys they are stored at: whatever earlier cache existed was
      either still current or dropped by the mutations. */
  lemma SnapshotAfterOps<Item, Net>(layer: ItemLayer<Item, Net>, r: Registry<Item, Net>, ops: seq<Op<Item>>)
    requires Valid(layer, r)
    ensures var r' := Run(layer, r, ops);
      var items := ListRun(layer, Values(r.creative), ops);
      var out := GetCreativeContents(layer, r', false).contents;
      && |out| == |items| == |r'.creative|
      && (forall j :: 0 <= j < |out| ==> out[j].value == Entry(j + 1, layer.encode(items[j])))
      && (forall j :: 0 <= j < |out| ==> out[j].key == r'.creative[j].key)
  {
    NetEffect(layer, r, ops);
  }

  /** Two snapshot requests with no mutation in between: the second reuses
      the cache the first left, changes nothing, and a non-spectator gets
      the very entries a non-spectator got the first time. */
  lemma CacheStable<Item, Net>(layer: ItemLayer<Item, Net>, r: Registry<Item, Net>, first: bool, second: bool)
    ensures var s1 := GetCreativeContents(layer, r, first);
      var s2 := GetCreativeContents(layer, s1.state, second);
      && s2.state == s1.state
      && (!second ==> s2.contents == s1.state.cache.value)
      && (!first && !second ==> s2.contents == s1.contents)
  {
  }

  /** The damage check follows the QUERIED item only: in a registry holding
      just `stored`, a durable query finds it when the two are equal with
      damage ignored, any other query only when they are equal with damage
      compared. */
  lemma DamageCheckFollowsQuery<Item, Net>(layer: ItemLayer<Item, Net>, r: Registry<Item, Net>, stored: Item, query: Item)
    ensures var one := Add(Clear(r), stored);
      && (layer.isDurable(query) ==> (Contains(layer, one, query) <==> layer.equals(query, stored, false)))
      && (!layer.isDurable(query) ==> (Contains(layer, one, query) <==> layer.equals(query, stored, true)))
  {
    var one := Add(Clear(r), stored);
    assert one.creative == [Slot(0, stored)];
  }

  /** When the list names no unknown item, loading keeps all of it. */
  lemma {:induction false} KeepKnownAll<Item, Net>(layer: ItemLayer<Item, Net>, data: seq<Item>)
    requires forall i :: 0 <= i < |data| ==> !IsUnknown(layer, data[i])
    ensures KeepKnown(layer, data) == data
  {
    if |data| > 0 {
      var front, last := data[..|data| - 1], data[|data| - 1];
      KeepKnownAll(layer, front);
      assert data == front + [last];
      KeepKnownAppend(layer, front, [last]);
      KeepKnownOne(layer, last);
    }
  }

  /** When the list names no unknown item, loading stores item j under key j. */
  lemma LoadAllKnown<Item, Net>(layer: ItemLayer<Item, Net>, data: seq<Item>)
    requires forall i :: 0 <= i < |data| ==> !IsUnknown(layer, data[i])
    ensures |Create(layer, data).creative| == |data|
    ensures forall j :: 0 <= j < |data| ==> Create(layer, data).creative[j] == Slot(j, data[j])
  {
    KeepKnownAll(layer, data);
  }

  /** Loading a three-item list with no unknown names stores its items under
      keys 0, 1, 2. */
  lemma LoadThree<Item, Net>(layer: ItemLayer<Item, Net>, data: seq<Item>)
    requires |data| == 3
    requires forall i :: 0 <= i < |data| ==> !IsUnknown(layer, data[i])
    ensures Create(layer, data).creative == [Slot(0, data[0]), Slot(1, data[1]), Slot(2, data[2])]
  {
    LoadAllKnown(layer, data);
    TripleOfKeys(data, Create(layer, data).creative);
  }

  /** A three-slot store that holds item j of `data` under key j. */
  lemma TripleOfKeys<Item>(data: seq<Item>, s: seq<Slot<Item>>)
    requires |data| == 3 && |s| == 3
    requires forall j :: 0 <= j < 3 ==> s[j] == Slot(j, data[j])
    ensures s == [Slot(0, data[0]), Slot(1, data[1]), Slot(2, data[2])]
  {
  }

  /** In a registry holding a, b, c under keys 0, 1, 2, a query for b that
      does not accept a finds b at key 1, and removing it unsets key 1 only. */
  lemma RemoveFromTriple<Item, Net>(layer: ItemLayer<Item, Net>, r: Registry<Item, Net>, a: Item, b: Item, c: Item)
    requires r.creative == [Slot(0, a), Slot(1, b), Slot(2, c)]
    requires !LookupEquals(layer, b, a) && LookupEquals(layer, b, b)
    ensures GetItemIndex(layer, r, b) == 1
    ensures Remove(layer, r, b).creative == [Slot(0, a), Slot(2, c)]
    ensures Remove(layer, r, b).cache.None?
  {
    var s := r.creative;
    assert s[1..][0].value == b;
    assert FirstMatch(layer, s, b) == Some(1);
    UnsetAt(s, 1);
    assert s[..1] + s[2..] == [Slot(0, a), Slot(2, c)];
  }

  /** A registry holding a under key 0 and c under key 2, with the cache
      dropped: key 1 is a gap, and a fresh snapshot numbers a and c 1 and 2. */
  lemma GappedPair<Item, Net>(layer: ItemLayer<Item, Net>, r: Registry<Item, Net>, a: Item, c: Item)
    requires r.creative == [Slot(0, a), Slot(2, c)] && r.cache.None?
    ensures Values(r.creative) == [a, c]
    ensures GetItem(r, 0) == Some(a) && GetItem(r, 1) == None && GetItem(r, 2) == Some(c)
    ensures GetCreativeContents(layer, r, false).contents
      == [Slot(0, Entry(1, layer.encode(a))), Slot(2, Entry(2, layer.encode(c)))]
  {
    assert r.creative[1..] == [Slot(2, c)];
    assert Get(r.creative, 2) == Get([Slot(2, c)], 2);
  }

  /** Load a list [a, b, c], look b up, remove it, and take a snapshot: b
      sits at key 1; removing it leaves a gap at key 1 (a stays at 0, c at
      2); the snapshot renumbers the survivors 1 and 2. */
  lemma ScenarioRemoveMiddle<Item, Net>(layer: ItemLayer<Item, Net>, data: seq<Item>)
    requires |data| == 3
    requires forall i :: 0 <= i < |data| ==> !IsUnknown(layer, data[i])
    requires !LookupEquals(layer, data[1], data[0]) && LookupEquals(layer, data[1], data[1])
    ensures var a, b, c := data[0], data[1], data[2];
      var r := Create(layer, data);
      var r' := Remove(layer, r, b);
      var out := GetCreativeContents(layer, r', false).contents;
      && GetItemIndex(layer, r, b) == 1
      && Values(r'.creative) == [a, c]
      && GetItem(r', 0) == Some(a) && GetItem(r', 1) == None && GetItem(r', 2) == Some(c)
      && out == [Slot(0, Entry(1, layer.encode(a))), Slot(2, Entry(2, layer.encode(c)))]
  {
    LoadThree(layer, data);
    var r := Create(layer, data);
    RemoveFromTriple(layer, r, data[0], data[1], data[2]);
    GappedPair(layer, Remove(layer, r, data[1]), data[0], data[2]);
  }

  /** Add d to a cleared registry: it is stored under key 0, and key 1 is
      still empty. */
  lemma ScenarioAddToEmpty<Item, Net>(r: Registry<Item, Net>, d: Item)
    ensures GetItem(Add(Clear(r), d), 0) == Some(d)
    ensures GetItem(Add(Clear(r), d), 1) == None
  {
  }
}
