/** An integer-keyed, insertion-ordered array as PHP keeps one: a sequence of
    slots in iteration order, each slot carrying the key it is stored under.
    Appending with `$a[] = v` uses a key counter kept beside the sequence; an
    `unset` removes a slot and leaves a gap in the keys (nothing is renumbered). */
module KeyedSeq {
  import opened Wrappers

  datatype Slot<+V> = Slot(key: nat, value: V)

  /** Keys strictly increase along the iteration order, so they are distinct. */
  predicate Ascending<V>(s: seq<Slot<V>>) {
    forall i, j :: 0 <= i < j < |s| ==> s[i].key < s[j].key
  }

  /** Every key lies below `next`, the key the next append will use. */
  predicate Below<V>(s: seq<Slot<V>>, next: nat) {
    forall i :: 0 <= i < |s| ==> s[i].key < next
  }

  /** The stored values in iteration order, keys dropped. */
  function Values<V>(s: seq<Slot<V>>): (r: seq<V>)
    ensures |r| == |s|
    ensures forall i :: 0 <= i < |s| ==> r[i] == s[i].value
  {
    seq(|s|, i requires 0 <= i < |s| => s[i].value)
  }

  /** `$a[$k] ?? null`: the value stored under key `k`, or `None` when no slot
      carries that key (a key never used, or one that was unset). */
  function Get<V>(s: seq<Slot<V>>, k: int): (r: Option<V>)
    ensures r.None? <==> forall i :: 0 <= i < |s| ==> s[i].key != k
    ensures r.Some? ==> exists i :: 0 <= i < |s| && s[i].key == k && s[i].value == r.value
  {
    if |s| == 0 then None
    else if s[0].key == k then Some(s[0].value)
    else Get(s[1..], k)
  }

  /** With distinct keys, looking a stored key up finds exactly its slot. */
  lemma {:induction false} GetStored<V>(s: seq<Slot<V>>, i: int)
    requires Ascending(s)
    requires 0 <= i < |s|
    ensures Get(s, s[i].key) == Some(s[i].value)
  {
    if i > 0 {
      assert s[0].key < s[i].key;
      GetStored(s[1..], i - 1);
    }
  }

  /** `unset($a[$k])`: drops the slot stored under `k` and keeps every other
      slot, in order, under its own key. */
  function Unset<V>(s: seq<Slot<V>>, k: int): (r: seq<Slot<V>>)
    ensures UnsetOf(s, k, r)
    ensures Ascending(s) ==> Ascending(r)
    ensures forall next :: Below(s, next) ==> Below(r, next)
  {
    if |s| == 0 then []
    else
      var t := Unset(s[1..], k);
      var r := if s[0].key == k then t else [s[0]] + t;
      UnsetStep(s, k, t, r);
      r
  }

  /** `r` holds exactly the slots of `s` whose key is not `k`, as far as
      membership goes. */
  ghost predicate UnsetOf<V>(s: seq<Slot<V>>, k: int, r: seq<Slot<V>>) {
    && (forall x :: x in r ==> x in s)
    && (forall i :: 0 <= i < |s| && s[i].key != k ==> s[i] in r)
    && (forall i :: 0 <= i < |r| ==> r[i].key != k)
  }

  /** One step of `Unset`: the facts for the tail carry over to the whole. */
  lemma UnsetStep<V>(s: seq<Slot<V>>, k: int, t: seq<Slot<V>>, r: seq<Slot<V>>)
    requires |s| > 0
    requires UnsetOf(s[1..], k, t)
    requires Ascending(s[1..]) ==> Ascending(t)
    requires forall next :: Below(s[1..], next) ==> Below(t, next)
    requires r == if s[0].key == k then t else [s[0]] + t
    ensures UnsetOf(s, k, r)
    ensures Ascending(s) ==> Ascending(r)
    ensures forall next :: Below(s, next) ==> Below(r, next)
  {
    UnsetStepMembers(s, k, t, r);
    if Ascending(s) {
      UnsetStepAscending(s, k, t, r);
    }
    forall next | Below(s, next)
      ensures Below(r, next)
    {
      assert Below(s[1..], next);
    }
  }

  /** Membership part of `UnsetStep`. */
  lemma UnsetStepMembers<V>(s: seq<Slot<V>>, k: int, t: seq<Slot<V>>, r: seq<Slot<V>>)
    requires |s| > 0
    requires UnsetOf(s[1..], k, t)
    requires r == if s[0].key == k then t else [s[0]] + t
    ensures UnsetOf(s, k, r)
  {
    assert forall i :: 1 <= i < |s| ==> s[i] == s[1..][i - 1];
    assert forall x :: x in t ==> x in s[1..];
  }

  /** Ordering part of `UnsetStep`: the head key is below every surviving tail key. */
  lemma UnsetStepAscending<V>(s: seq<Slot<V>>, k: int, t: seq<Slot<V>>, r: seq<Slot<V>>)
    requires |s| > 0 && Ascending(s)
    requires forall x :: x in t ==> x in s[1..]
    requires Ascending(s[1..]) ==> Ascending(t)
    requires r == if s[0].key == k then t else [s[0]] + t
    ensures Ascending(r)
  {
    assert Ascending(s[1..]);
    assert forall i :: 0 <= i < |t| ==> t[i] in s[1..];
    assert forall i :: 0 <= i < |t| ==> s[0].key < t[i].key;
  }

  /** After `unset($a[$k])`, key `k` reads as absent and every other key
      reads as before. */
  lemma {:induction false} GetUnset<V>(s: seq<Slot<V>>, k: int, j: int)
    ensures Get(Unset(s, k), j) == if j == k then None else Get(s, j)
  {
    if |s| > 0 && j != k {
      GetUnset(s[1..], k, j);
      if s[0].key != k {
        assert Unset(s, k) == [s[0]] + Unset(s[1..], k);
        assert ([s[0]] + Unset(s[1..], k))[1..] == Unset(s[1..], k);
      }
    }
  }

  /** Unsetting a key no slot carries changes nothing. */
  lemma {:induction false} UnsetAbsent<V>(s: seq<Slot<V>>, k: int)
    requires forall i :: 0 <= i < |s| ==> s[i].key != k
    ensures Unset(s, k) == s
  {
    if |s| > 0 {
      UnsetAbsent(s[1..], k);
      assert s == [s[0]] + s[1..];
    }
  }

  /** With distinct keys, unsetting the key of position `p` removes exactly
      that position: the slots before and after it keep their order. */
  lemma {:induction false} UnsetAt<V>(s: seq<Slot<V>>, p: int)
    requires Ascending(s)
    requires 0 <= p < |s|
    ensures Unset(s, s[p].key) == s[..p] + s[p + 1..]
  {
    var k := s[p].key;
    var t := s[1..];
    if p == 0 {
      assert forall i :: 0 <= i < |t| ==> t[i].key != k by {
        assert forall i :: 0 <= i < |t| ==> s[0].key < t[i].key;
      }
      UnsetAbsent(t, k);
    } else {
      assert s[0].key < k;
      assert Ascending(t);
      assert t[p - 1] == s[p];
      UnsetAt(t, p - 1);
      DropAfterCons(s, p);
    }
  }

  /** Sequence bookkeeping for `UnsetAt`: removing position `p > 0` commutes
      with taking the head off. */
  lemma DropAfterCons<T>(s: seq<T>, p: int)
    requires 0 < p < |s|
    ensures [s[0]] + (s[1..][..p - 1] + s[1..][p..]) == s[..p] + s[p + 1..]
  {
    assert s[1..][..p - 1] == s[1..p];
    assert s[1..][p..] == s[p + 1..];
    assert [s[0]] + s[1..p] == s[..p];
  }
}
